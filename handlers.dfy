/** The two loops of `useActionHandlers`: when the effect runs, every
    (key, listener) entry of the handlers object is added to the manager;
    its cleanup removes every entry again. */
module ActionHandlers {
  import opened OrderedSet
  import opened Registry
  import opened ActionPlug

  /** The registry calls of the effect: one `addListener` per entry. */
  function Adds<K, L>(handlers: seq<(K, L)>): seq<Call<K, L>>
    decreases |handlers|
  {
    if handlers == [] then []
    else Adds(handlers[..|handlers| - 1]) + [Add(handlers[|handlers| - 1].0, handlers[|handlers| - 1].1)]
  }

  /** The registry calls of the cleanup: one `removeListener` per entry. */
  function Removes<K, L>(handlers: seq<(K, L)>): seq<Call<K, L>>
    decreases |handlers|
  {
    if handlers == [] then []
    else Removes(handlers[..|handlers| - 1]) + [Remove(handlers[|handlers| - 1].0, handlers[|handlers| - 1].1)]
  }

  /** The listeners the entries give for key k. */
  ghost function ListenersFor<K, L>(handlers: seq<(K, L)>, k: K): set<L>
    decreases |handlers|
  {
    if handlers == [] then {}
    else
      var (key, listener) := handlers[|handlers| - 1];
      ListenersFor(handlers[..|handlers| - 1], k) + if key == k then {listener} else {}
  }

  /** Each entry gives its listener for its key... */
  lemma {:induction false} ListenersForHas<K, L>(handlers: seq<(K, L)>, i: nat)
    requires i < |handlers|
    ensures handlers[i].1 in ListenersFor(handlers, handlers[i].0)
    decreases |handlers|
  {
    var n := |handlers| - 1;
    if i < n {
      ListenersForHas(handlers[..n], i);
    }
  }

  /** ... and only the entries do. */
  lemma {:induction false} ListenersForFrom<K, L>(handlers: seq<(K, L)>, k: K, y: L)
    requires y in ListenersFor(handlers, k)
    ensures exists i :: 0 <= i < |handlers| && handlers[i] == (k, y)
    decreases |handlers|
  {
    var n := |handlers| - 1;
    if handlers[n] != (k, y) {
      ListenersForFrom(handlers[..n], k, y);
      var i :| 0 <= i < n && handlers[..n][i] == (k, y);
      assert handlers[i] == (k, y);
    }
  }

  /** The effect: adds every entry, in order. */
  method Subscribe<K, L>(manager: ActionPlugManager<K, L>, handlers: seq<(K, L)>)
    requires manager.Valid()
    modifies manager
    ensures manager.Valid()
    ensures manager.listeners == ApplyAll(old(manager.listeners), Adds(handlers))
  {
    var i := 0;
    while i < |handlers|
      invariant 0 <= i <= |handlers|
      invariant manager.Valid()
      invariant manager.listeners == ApplyAll(old(manager.listeners), Adds(handlers[..i]))
    {
      var (key, listener) := handlers[i];
      assert handlers[..i + 1][..i] == handlers[..i];
      manager.AddListener(key, listener);
      i := i + 1;
    }
    assert handlers[..i] == handlers;
  }

  /** The cleanup: removes every entry, in order. */
  method Unsubscribe<K, L>(manager: ActionPlugManager<K, L>, handlers: seq<(K, L)>)
    requires manager.Valid()
    modifies manager
    ensures manager.Valid()
    ensures manager.listeners == ApplyAll(old(manager.listeners), Removes(handlers))
  {
    var i := 0;
    while i < |handlers|
      invariant 0 <= i <= |handlers|
      invariant manager.Valid()
      invariant manager.listeners == ApplyAll(old(manager.listeners), Removes(handlers[..i]))
    {
      var (key, listener) := handlers[i];
      assert handlers[..i + 1][..i] == handlers[..i];
      manager.RemoveListener(key, listener);
      i := i + 1;
    }
    assert handlers[..i] == handlers;
  }

  /** After the effect every entry's listener is registered for its key. */
  lemma {:induction false} SubscribeRegistersAll<K, L>(m: map<K, seq<L>>, handlers: seq<(K, L)>)
    ensures forall i :: 0 <= i < |handlers| ==>
      handlers[i].1 in Lookup(ApplyAll(m, Adds(handlers)), handlers[i].0)
    decreases |handlers|
  {
    if handlers != [] {
      var n := |handlers| - 1;
      var init := handlers[..n];
      SubscribeRegistersAll(m, init);
      var before := ApplyAll(m, Adds(init));
      var after := ApplyAll(m, Adds(handlers));
      ApplyAllLast(m, Adds(handlers), Adds(init), Add(handlers[n].0, handlers[n].1));
      assert after == Added(before, handlers[n].0, handlers[n].1);
      forall i | 0 <= i < n
        ensures handlers[i].1 in Lookup(after, handlers[i].0)
      {
        assert init[i] == handlers[i];
        assert handlers[i].1 in Lookup(before, handlers[i].0);
      }
    }
  }

  /** The effect only appends to each key's set, and only listeners that the
      entries give for that key. */
  lemma {:induction false} SubscribeExtends<K, L>(m: map<K, seq<L>>, handlers: seq<(K, L)>, k: K)
    ensures |Lookup(m, k)| <= |Lookup(ApplyAll(m, Adds(handlers)), k)|
    ensures Lookup(ApplyAll(m, Adds(handlers)), k)[..|Lookup(m, k)|] == Lookup(m, k)
    ensures forall j :: |Lookup(m, k)| <= j < |Lookup(ApplyAll(m, Adds(handlers)), k)| ==>
      Lookup(ApplyAll(m, Adds(handlers)), k)[j] in ListenersFor(handlers, k)
    decreases |handlers|
  {
    if handlers == [] {
      assert Adds(handlers) == [];
    } else {
      var n := |handlers| - 1;
      var init := handlers[..n];
      SubscribeExtends(m, init, k);
      var before := ApplyAll(m, Adds(init));
      var after := ApplyAll(m, Adds(handlers));
      ApplyAllLast(m, Adds(handlers), Adds(init), Add(handlers[n].0, handlers[n].1));
      LookupAdded(before, handlers[n].0, handlers[n].1, k);
      var A := ListenersFor(init, k);
      assert ListenersFor(handlers, k) == A + if handlers[n].0 == k then {handlers[n].1} else {};
      ExtendStep(Lookup(m, k), Lookup(before, k), Lookup(after, k), A, handlers[n].1, handlers[n].0 == k);
    }
  }

  /** One `addListener` step of SubscribeExtends, on the key's sequence alone. */
  lemma ExtendStep<L>(s: seq<L>, b: seq<L>, a: seq<L>, xs: set<L>, l: L, here: bool)
    requires |s| <= |b| && b[..|s|] == s
    requires forall j :: |s| <= j < |b| ==> b[j] in xs
    requires a == if here then Insert(b, l) else b
    ensures |s| <= |a| && a[..|s|] == s
    ensures forall j :: |s| <= j < |a| ==> a[j] in xs + if here then {l} else {}
  {
    assert a[..|b|] == b;
    assert a[..|s|] == b[..|s|];
  }

  /** The cleanup leaves each key's set without the listeners the entries
      give for that key, in the same order. */
  lemma {:induction false} UnsubscribeFilters<K, L>(m: map<K, seq<L>>, handlers: seq<(K, L)>, k: K)
    ensures Lookup(ApplyAll(m, Removes(handlers)), k) == Without(Lookup(m, k), ListenersFor(handlers, k))
    decreases |handlers|
  {
    if handlers == [] {
      assert Removes(handlers) == [];
      assert ListenersFor(handlers, k) == {};
      WithoutDisjoint(Lookup(m, k), {});
    } else {
      var n := |handlers| - 1;
      var init := handlers[..n];
      UnsubscribeFilters(m, init, k);
      var before := ApplyAll(m, Removes(init));
      var after := ApplyAll(m, Removes(handlers));
      ApplyAllLast(m, Removes(handlers), Removes(init), Remove(handlers[n].0, handlers[n].1));
      LookupRemoved(before, handlers[n].0, handlers[n].1, k);
      var A := ListenersFor(init, k);
      if handlers[n].0 == k {
        assert ListenersFor(handlers, k) == A + {handlers[n].1};
        assert Lookup(after, k) == Delete(Without(Lookup(m, k), A), handlers[n].1);
        WithoutTwice(Lookup(m, k), A, {handlers[n].1});
      } else {
        assert ListenersFor(handlers, k) == A;
        assert Lookup(after, k) == Lookup(before, k);
      }
    }
  }

  /** After the cleanup no entry's listener is registered for its key. */
  lemma UnsubscribeRemovesAll<K, L>(m: map<K, seq<L>>, handlers: seq<(K, L)>)
    ensures forall i :: 0 <= i < |handlers| ==>
      handlers[i].1 !in Lookup(ApplyAll(m, Removes(handlers)), handlers[i].0)
  {
    forall i | 0 <= i < |handlers|
      ensures handlers[i].1 !in Lookup(ApplyAll(m, Removes(handlers)), handlers[i].0)
    {
      UnsubscribeFilters(m, handlers, handlers[i].0);
      ListenersForHas(handlers, i);
      WithoutSpec(Lookup(m, handlers[i].0), ListenersFor(handlers, handlers[i].0));
    }
  }

  /** Effect then cleanup gives every key the listeners it had before, in
      the same order, provided no entry's listener was registered for its
      key already (removal is by identity, so it would go too). Keys the
      effect introduced stay, mapped to an empty set. */
  lemma CleanupRestores<K, L>(m: map<K, seq<L>>, handlers: seq<(K, L)>)
    requires forall i :: 0 <= i < |handlers| ==> handlers[i].1 !in Lookup(m, handlers[i].0)
    ensures forall k :: Lookup(ApplyAll(ApplyAll(m, Adds(handlers)), Removes(handlers)), k) == Lookup(m, k)
    ensures m.Keys <= ApplyAll(ApplyAll(m, Adds(handlers)), Removes(handlers)).Keys
  {
    forall k ensures Lookup(ApplyAll(ApplyAll(m, Adds(handlers)), Removes(handlers)), k) == Lookup(m, k) {
      CleanupRestoresAt(m, handlers, k);
    }
    ApplyAllSpec(m, Adds(handlers));
    ApplyAllSpec(ApplyAll(m, Adds(handlers)), Removes(handlers));
  }

  lemma CleanupRestoresAt<K, L>(m: map<K, seq<L>>, handlers: seq<(K, L)>, k: K)
    requires forall i :: 0 <= i < |handlers| ==> handlers[i].1 !in Lookup(m, handlers[i].0)
    ensures Lookup(ApplyAll(ApplyAll(m, Adds(handlers)), Removes(handlers)), k) == Lookup(m, k)
  {
    var mid := ApplyAll(m, Adds(handlers));
    var xs := ListenersFor(handlers, k);
    SubscribeExtends(m, handlers, k);
    UnsubscribeFilters(mid, handlers, k);
    forall y | y in xs ensures y !in Lookup(m, k) {
      ListenersForFrom(handlers, k, y);
      var i :| 0 <= i < |handlers| && handlers[i] == (k, y);
      assert handlers[i].1 !in Lookup(m, handlers[i].0);
    }
    RestoreStep(Lookup(m, k), Lookup(mid, k), xs);
  }

  /** The per-key step of CleanupRestores: the added suffix is removed again,
      and the old prefix is untouched. */
  lemma RestoreStep<L>(s: seq<L>, a: seq<L>, xs: set<L>)
    requires |s| <= |a| && a[..|s|] == s
    requires forall j :: |s| <= j < |a| ==> a[j] in xs
    requires forall y :: y in xs ==> y !in s
    ensures Without(a, xs) == s
  {
    var t := a[|s|..];
    assert a == s + t;
    forall j | 0 <= j < |t| ensures t[j] in xs {
      assert t[j] == a[|s| + j];
    }
    WithoutAppend(s, t, xs);
    WithoutDisjoint(s, xs);
    WithoutAll(t, xs);
  }
}
