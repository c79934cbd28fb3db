/** Clients of the manager, proved from the contracts alone. */
module Scenarios {
  import opened OrderedSet
  import opened Registry
  import opened ActionPlug

  /** The unit test of `ActionPlugManager`: one listener on key "noop" is
      registered (the set has size 1), is called by a dispatch, and is
      removed again (the set is still there, with size 0). Listeners are
      numbered; the payload is `null`, here the unit value. */
  method NoopScenario()
  {
    var manager := new ActionPlugManager<string, int>();
    manager.AddListener("noop", 1);
    assert |manager.listeners["noop"]| == 1;

    var calls := manager.Dispatch("noop", (), (l: int, p: ()) => []);
    assert calls == [(1, ())];

    manager.RemoveListener("noop", 1);
    assert "noop" in manager.listeners;
    DeleteSize([1], 1);
    assert |manager.listeners["noop"]| == 0;
  }

  /** What the listeners of ReentrantScenario do when called: listener 1
      registers listener 2 for "k" and unregisters itself. */
  function SwapIn(l: int, p: int): seq<Call<string, int>>
  {
    if l == 1 then [Add("k", 2), Remove("k", 1)] else []
  }

  lemma SwapInEffect(m: map<string, seq<int>>, p: int)
    requires Lookup(m, "k") == [1]
    ensures Lookup(ApplyAll(m, Effects([1], p, SwapIn)), "k") == [2]
  {
    assert [1][..0] == [];
    assert Effects([1], p, SwapIn) == [Add("k", 2), Remove("k", 1)];
    ApplyAllLast(m, [Add("k", 2), Remove("k", 1)], [Add("k", 2)], Remove("k", 1));
    ApplyAllLast(m, [Add("k", 2)], [], Add("k", 2));
    var m2 := Added(m, "k", 2);
    LookupAdded(m, "k", 2, "k");
    assert Lookup(m2, "k") == [1, 2];
    LookupRemoved(m2, "k", 1, "k");
    assert [1, 2][..1] == [1];
    assert Without([1], {1}) == [];
    assert Delete([1, 2], 1) == [2];
  }

  /** Listener 1 of key "k" is SwapIn's listener 1. The dispatch that calls
      it does not call listener 2; afterwards "k" holds listener 2 alone, so
      the next dispatch calls 2 and not 1. */
  method ReentrantScenario()
  {
    var manager := new ActionPlugManager<string, int>();
    manager.AddListener("k", 1);
    assert Insert([], 1) == [1];

    var first := DispatchFirst(manager);
    assert first == [(1, 7)];

    var second := DispatchAgain(manager);
    assert second == [(2, 8)];
  }

  /** ReentrantScenario's first dispatch: listener 1 is called, and while it
      runs it swaps itself for listener 2, which this dispatch does not call. */
  method DispatchFirst(manager: ActionPlugManager<string, int>) returns (calls: seq<(int, int)>)
    requires manager.Valid() && Lookup(manager.listeners, "k") == [1]
    modifies manager
    ensures manager.Valid() && Lookup(manager.listeners, "k") == [2]
    ensures calls == [(1, 7)]
  {
    ghost var before := manager.listeners;
    calls := manager.Dispatch("k", 7, SwapIn);
    assert calls == Invocations([1], 7);
    SwapInEffect(before, 7);
  }

  /** ReentrantScenario's second dispatch: key "k" now holds listener 2
      alone, so 2 is called and 1 is not. */
  method DispatchAgain(manager: ActionPlugManager<string, int>) returns (calls: seq<(int, int)>)
    requires manager.Valid() && Lookup(manager.listeners, "k") == [2]
    modifies manager
    ensures calls == [(2, 8)]
  {
    calls := manager.Dispatch("k", 8, SwapIn);
    assert calls == Invocations([2], 8);
  }
}
