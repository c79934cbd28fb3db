/** The state of an `ActionPlugManager` as a value: a map from action key
    to the insertion-ordered set of listeners registered for it, the
    registry calls a listener can make, and the listeners a dispatch
    invokes. The class in module ActionPlug is specified by these
    functions. */
module Registry {
  import opened OrderedSet

  /** Every listener set really is a set. */
  ghost predicate WellFormed<K, L>(m: map<K, seq<L>>)
  {
    forall k :: k in m ==> NoDuplicates(m[k])
  }

  /** The listeners `dispatch` finds for a key: the key's set, or none when
      the map has no entry for it. */
  function Lookup<K, L>(m: map<K, seq<L>>, k: K): seq<L>
  {
    if k in m then m[k] else []
  }

  /** The registry after `addListener(k, l)`. */
  function Added<K, L(==)>(m: map<K, seq<L>>, k: K, l: L): map<K, seq<L>>
  {
    m[k := Insert(Lookup(m, k), l)]
  }

  /** `addListener(k, l)` gives k an entry holding l and what k held, and
      nothing else: on a key without an entry the new set holds l alone; a
      listener already there leaves the registry as it was, a new one goes
      last; every other key keeps its entry. */
  lemma AddedSpec<K, L>(m: map<K, seq<L>>, k: K, l: L)
    ensures Added(m, k, l).Keys == m.Keys + {k}
    ensures forall j :: j in m && j != k ==> Added(m, k, l)[j] == m[j]
    ensures k !in m ==> Added(m, k, l)[k] == [l]
    ensures l in Added(m, k, l)[k] && forall y :: y in Lookup(m, k) ==> y in Added(m, k, l)[k]
    ensures forall y :: y in Added(m, k, l)[k] ==> y in Lookup(m, k) || y == l
    ensures k in m && l in m[k] ==> Added(m, k, l) == m
    ensures k in m && l !in m[k] ==> Added(m, k, l)[k] == m[k] + [l]
    ensures WellFormed(m) ==> WellFormed(Added(m, k, l))
  {
    InsertSpec(Lookup(m, k), l);
  }

  /** The registry after `removeListener(k, l)`. */
  function Removed<K, L(==)>(m: map<K, seq<L>>, k: K, l: L): map<K, seq<L>>
  {
    if k in m then m[k := Delete(m[k], l)] else m
  }

  /** `removeListener(k, l)` takes l out of k's set and nothing else: the key
      keeps its entry, possibly empty; every other key keeps its entry; when
      k has no entry or l is not in it, nothing changes. */
  lemma RemovedSpec<K, L>(m: map<K, seq<L>>, k: K, l: L)
    ensures Removed(m, k, l).Keys == m.Keys
    ensures forall j :: j in m && j != k ==> Removed(m, k, l)[j] == m[j]
    ensures l !in Lookup(Removed(m, k, l), k)
    ensures forall y :: y in Lookup(m, k) && y != l ==> y in Lookup(Removed(m, k, l), k)
    ensures forall y :: y in Lookup(Removed(m, k, l), k) ==> y in Lookup(m, k)
    ensures k !in m || l !in m[k] ==> Removed(m, k, l) == m
    ensures WellFormed(m) ==> WellFormed(Removed(m, k, l))
  {
    if k in m {
      DeleteSpec(m[k], l);
      if l !in m[k] {
        WithoutDisjoint(m[k], {l});
      }
    }
  }

  /** What dispatch sees of the registry after `addListener(key, l)`. */
  lemma LookupAdded<K, L>(m: map<K, seq<L>>, key: K, l: L, k: K)
    ensures Lookup(Added(m, key, l), k) == if key == k then Insert(Lookup(m, k), l) else Lookup(m, k)
  {
  }

  /** What dispatch sees of the registry after `removeListener(key, l)`. */
  lemma LookupRemoved<K, L>(m: map<K, seq<L>>, key: K, l: L, k: K)
    ensures Lookup(Removed(m, key, l), k) == if key == k then Delete(Lookup(m, k), l) else Lookup(m, k)
  {
  }

  /** A registry call that a listener makes while it runs. */
  datatype Call<K, L> = Add(key: K, listener: L) | Remove(key: K, listener: L)

  function Apply<K, L(==)>(m: map<K, seq<L>>, c: Call<K, L>): map<K, seq<L>>
  {
    match c
    case Add(k, l) => Added(m, k, l)
    case Remove(k, l) => Removed(m, k, l)
  }

  /** The registry after the calls cs, made in order. */
  function ApplyAll<K, L(==)>(m: map<K, seq<L>>, cs: seq<Call<K, L>>): map<K, seq<L>>
    decreases |cs|
  {
    if cs == [] then m
    else Apply(ApplyAll(m, cs[..|cs| - 1]), cs[|cs| - 1])
  }

  /** One call keeps every entry and keeps the listener sets sets. */
  lemma ApplySpec<K, L>(m: map<K, seq<L>>, c: Call<K, L>)
    ensures m.Keys <= Apply(m, c).Keys
    ensures WellFormed(m) ==> WellFormed(Apply(m, c))
  {
    match c
    case Add(k, l) => AddedSpec(m, k, l);
    case Remove(k, l) => RemovedSpec(m, k, l);
  }

  /** No sequence of calls ever deletes an entry, and every sequence keeps
      the listener sets sets. */
  lemma {:induction false} ApplyAllSpec<K, L>(m: map<K, seq<L>>, cs: seq<Call<K, L>>)
    ensures m.Keys <= ApplyAll(m, cs).Keys
    ensures WellFormed(m) ==> WellFormed(ApplyAll(m, cs))
    decreases |cs|
  {
    if cs != [] {
      ApplyAllSpec(m, cs[..|cs| - 1]);
      ApplySpec(ApplyAll(m, cs[..|cs| - 1]), cs[|cs| - 1]);
    }
  }

  /** The last call takes effect on the registry the others left. */
  lemma ApplyAllLast<K, L>(m: map<K, seq<L>>, cs: seq<Call<K, L>>, init: seq<Call<K, L>>, c: Call<K, L>)
    requires cs == init + [c]
    ensures ApplyAll(m, cs) == Apply(ApplyAll(m, init), c)
  {
    assert cs[..|cs| - 1] == init;
  }

  /** Making cs and then ds is making cs + ds. */
  lemma {:induction false} ApplyAllAppend<K, L>(m: map<K, seq<L>>, cs: seq<Call<K, L>>, ds: seq<Call<K, L>>)
    ensures ApplyAll(m, cs + ds) == ApplyAll(ApplyAll(m, cs), ds)
    decreases |ds|
  {
    if ds == [] {
      assert cs + ds == cs;
    } else {
      var n := |ds| - 1;
      assert (cs + ds)[..|cs + ds| - 1] == cs + ds[..n];
      assert (cs + ds)[|cs + ds| - 1] == ds[n];
      ApplyAllAppend(m, cs, ds[..n]);
    }
  }

  /** The calls `dispatch` makes: listener `snapshot[i]` is called i-th, with
      the payload p. */
  function Invocations<L, P>(snapshot: seq<L>, p: P): (r: seq<(L, P)>)
    ensures |r| == |snapshot|
    ensures forall i :: 0 <= i < |r| ==> r[i] == (snapshot[i], p)
    decreases |snapshot|
  {
    if snapshot == [] then []
    else Invocations(snapshot[..|snapshot| - 1], p) + [(snapshot[|snapshot| - 1], p)]
  }

  /** The registry calls the listeners of the snapshot make, in the order
      they are called, where `run(l, p)` is what listener l does when called
      with payload p. */
  function Effects<K, L, P>(snapshot: seq<L>, p: P, run: (L, P) -> seq<Call<K, L>>): seq<Call<K, L>>
    decreases |snapshot|
  {
    if snapshot == [] then []
    else Effects(snapshot[..|snapshot| - 1], p, run) + run(snapshot[|snapshot| - 1], p)
  }

  /** Dispatching from a set calls every listener of the set exactly once
      and no other listener, always with the dispatched payload. */
  lemma {:induction false} InvokedOnce<L, P>(snapshot: seq<L>, p: P, l: L, q: P)
    requires NoDuplicates(snapshot)
    ensures multiset(Invocations(snapshot, p))[(l, q)] ==
            if l in snapshot && q == p then 1 else 0
    decreases |snapshot|
  {
    if snapshot != [] {
      var init, last := snapshot[..|snapshot| - 1], snapshot[|snapshot| - 1];
      NoDuplicatesInit(snapshot);
      InvokedOnce(init, p, l, q);
      assert Invocations(snapshot, p) == Invocations(init, p) + [(last, p)];
      assert multiset(Invocations(snapshot, p)) == multiset(Invocations(init, p)) + multiset{(last, p)};
    }
  }
}
