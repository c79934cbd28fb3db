/** `ActionPlugManager`: the listener registry behind one plug boundary. */
module ActionPlug {
  import opened OrderedSet
  import opened Registry

  /** K is the action key (a string in the source), L a listener's
      identity: listeners are compared by reference, as a JavaScript `Set`
      compares them. */
  class ActionPlugManager<K(==), L(==)> {
    /** The `Map` from action key to the `Set` of its listeners. */
    var listeners: map<K, seq<L>>

    ghost predicate Valid()
      reads this
    {
      WellFormed(listeners)
    }

    /** A new manager has no listeners. */
    constructor ()
      ensures Valid() && listeners == map[]
    {
      listeners := map[];
    }

    /** Registers a listener for a key, creating the key's set on first use. */
    method AddListener(key: K, listener: L)
      requires Valid()
      modifies this
      ensures Valid()
      ensures listeners == Added(old(listeners), key, listener)
      ensures key in listeners && listener in listeners[key]
      ensures forall k :: k in old(listeners) && k != key ==> k in listeners && listeners[k] == old(listeners)[k]
    {
      AddedSpec(listeners, key, listener);
      if key in listeners {
        var entry := listeners[key];
        listeners := listeners[key := Insert(entry, listener)];
      } else {
        var entry := Insert([], listener);
        listeners := listeners[key := entry];
      }
    }

    /** Unregisters a listener for a key; the key keeps its (possibly
        empty) set. */
    method RemoveListener(key: K, listener: L)
      requires Valid()
      modifies this
      ensures Valid()
      ensures listeners == Removed(old(listeners), key, listener)
      ensures listeners.Keys == old(listeners).Keys
      ensures listener !in Lookup(listeners, key)
    {
      RemovedSpec(listeners, key, listener);
      if key in listeners {
        var entry := listeners[key];
        listeners := listeners[key := Delete(entry, listener)];
      }
    }

    /** Calling a listener: it runs to completion, and the registry calls it
        makes, `run(listener, payload)`, take effect on this manager at once. */
    method Invoke<P>(listener: L, payload: P, run: (L, P) -> seq<Call<K, L>>)
      requires Valid()
      modifies this
      ensures Valid()
      ensures listeners == ApplyAll(old(listeners), run(listener, payload))
    {
      var cs := run(listener, payload);
      var i := 0;
      while i < |cs|
        invariant 0 <= i <= |cs|
        invariant Valid()
        invariant listeners == ApplyAll(old(listeners), cs[..i])
      {
        assert cs[..i + 1][..i] == cs[..i];
        match cs[i] {
          case Add(k, l) => AddListener(k, l);
          case Remove(k, l) => RemoveListener(k, l);
        }
        i := i + 1;
      }
      assert cs[..i] == cs;
    }

    /** Takes a snapshot of the key's set, then calls each listener of the
        snapshot with the payload, in insertion order. The result records
        the calls; the listeners the snapshot holds are called whatever they
        add or remove while the dispatch runs. */
    method Dispatch<P>(key: K, payload: P, run: (L, P) -> seq<Call<K, L>>) returns (calls: seq<(L, P)>)
      requires Valid()
      modifies this
      ensures Valid()
      ensures calls == Invocations(Lookup(old(listeners), key), payload)
      ensures listeners == ApplyAll(old(listeners), Effects(Lookup(old(listeners), key), payload, run))
      ensures key !in old(listeners) ==> calls == [] && listeners == old(listeners)
    {
      calls := [];
      if key in listeners {
        var snapshot := listeners[key];
        var i := 0;
        while i < |snapshot|
          invariant 0 <= i <= |snapshot|
          invariant Valid()
          invariant calls == Invocations(snapshot[..i], payload)
          invariant listeners == ApplyAll(old(listeners), Effects(snapshot[..i], payload, run))
        {
          assert snapshot[..i + 1][..i] == snapshot[..i];
          Invoke(snapshot[i], payload, run);
          ApplyAllAppend(old(listeners), Effects(snapshot[..i], payload, run), run(snapshot[i], payload));
          calls := calls + [(snapshot[i], payload)];
          i := i + 1;
        }
        assert snapshot[..i] == snapshot;
      }
    }
  }
}
