# react-action-plug: the listener registry

This project models `ActionPlugManager` from react-action-plug. It is the
registry behind one plug boundary: a `Map` from action key to the `Set` of
listener callbacks registered for that key. The model also covers the two
loops of `useActionHandlers`, which subscribe every entry of a handlers
object to the manager and unsubscribe them again.

- `OrderedSet` models one listener `Set`. A JavaScript `Set` iterates in
  insertion order and compares its elements by identity. The model is a
  sequence with no duplicates: `Insert` is `Set.prototype.add` and `Delete`
  is `Set.prototype.delete`.
- `Registry` holds the specification functions. `Added` and `Removed` give
  the map after `addListener` and `removeListener`. `Invocations` gives the
  calls a dispatch makes on its snapshot. `Call`, `ApplyAll` and `Effects`
  describe the registry calls that listeners make while they run.
- `ActionPlug.ActionPlugManager` is the class. Its `listeners` field is the
  map, and the three methods update it in place. Each method is proved
  against the `Registry` functions.
- `ActionHandlers` holds the subscribe and cleanup loops of
  `useActionHandlers` as methods over a sequence of (key, listener) pairs.
- `Scenarios` holds two client programs proved from the contracts alone.
  The first is the unit test of the manager. The second has a listener
  that swaps itself for another listener while a dispatch is running.

Keys and listeners are type parameters with equality. A listener stands
for the callback's identity. The payload is an opaque type parameter.

A listener is opaque code, so `Dispatch` and `Invoke` take a parameter
`run`. `run(l, p)` is the list of `addListener`/`removeListener` calls that
listener `l` makes when it is called with payload `p`. The manager performs
those calls while the dispatch loop runs, so their effect on the registry is
modelled. The snapshot the loop walks is not affected by them.

What the code does and does not do:
- The code has one flat manager per boundary. There is no chain of parent
  scopes and no ownership resolution. A `Boundary` creates a fresh manager,
  and the context default is one manager per plug.
- A dispatch calls listeners in the set's insertion order.
- There is no try/catch around a listener call. A listener that throws
  stops the rest of the dispatch.
- There is no `clear()`. `removeListener` keeps the key's entry, possibly
  mapped to an empty set.

## Model

| member | source | states |
|---|---|---|
| ActionPlug.ActionPlugManager.constructor | src/index.tsx:9 | a new manager has an empty listener map |
| ActionPlug.ActionPlugManager.AddListener | src/index.tsx:11-20 | the new map is `Added(old map, key, listener)`; the key is present and holds the listener; every other key keeps its entry |
| ActionPlug.ActionPlugManager.RemoveListener | src/index.tsx:22-27 | the new map is `Removed(old map, key, listener)`; the set of keys is unchanged; the listener is no longer in the key's set |
| ActionPlug.ActionPlugManager.Invoke | src/index.tsx:33 | calling a listener applies, in order, the registry calls that listener makes |
| ActionPlug.ActionPlugManager.Dispatch | src/index.tsx:29-36 | the calls made are exactly the snapshot's listeners in insertion order, each once, with the payload; they do not depend on what the listeners add or remove meanwhile; the new map is the old one after every listener's calls in order; a key without an entry calls nothing and changes nothing |
| Registry.AddedSpec | src/index.tsx:11-20 | adding gives the key an entry; a key without an entry ends up holding exactly the listener; a listener already present leaves the map unchanged; a new listener is appended; other keys are unchanged; sets stay duplicate-free |
| Registry.RemovedSpec | src/index.tsx:22-27 | removal keeps every key, including `k`; the listener is gone from `k`'s set and every other listener of `k` stays; nothing changes when `k` has no entry or does not hold the listener; other keys are unchanged |
| Registry.Invocations | src/index.tsx:32-34 | the i-th call is the i-th listener of the snapshot with the dispatched payload, and there is one call per snapshot element |
| Registry.InvokedOnce | src/index.tsx:32-34 | for a duplicate-free snapshot, each listener in it is called exactly once with the payload, and no other listener or payload is called |
| Registry.ApplyAllSpec | src/index.tsx:11-27 | no sequence of add/remove calls deletes a key, and sets stay duplicate-free |
| Registry.ApplyAllAppend | src/index.tsx:11-27 | applying two call sequences one after the other equals applying their concatenation |
| OrderedSet.InsertSpec | src/index.tsx:14 | `Set.add` yields the old elements plus the new one; size grows by one exactly when the element is new; old elements keep their order; the new one goes last |
| OrderedSet.DeleteSpec | src/index.tsx:25 | `Set.delete` removes the element and keeps all the others (their order: `OrderedSet.DeleteAt`) |
| OrderedSet.DeleteSize | src/index.tsx:25 | `Set.delete` shrinks the set by one when the element is present and leaves its size alone otherwise |
| OrderedSet.WithoutSpec | src/index.tsx:25 | filtering keeps exactly the elements outside the removed set, never makes the set longer, and never adds duplicates |
| OrderedSet.DeleteAt | src/index.tsx:25 | `Set.delete` of the element at position i cuts out exactly that position; the remaining listeners keep their insertion order |
| ActionHandlers.Subscribe | src/index.tsx:61-63 | the effect performs one `addListener` per entry, in order |
| ActionHandlers.Unsubscribe | src/index.tsx:64-67 | the cleanup performs one `removeListener` per entry, in order |
| ActionHandlers.SubscribeRegistersAll | src/index.tsx:61-63 | after the effect, every entry's listener is registered for its key |
| ActionHandlers.SubscribeExtends | src/index.tsx:61-63 | the effect only appends to each key's set, and only listeners the entries give for that key |
| ActionHandlers.UnsubscribeFilters | src/index.tsx:64-67 | after the cleanup, each key's set is the old set without the entries' listeners for that key, in the same order |
| ActionHandlers.UnsubscribeRemovesAll | src/index.tsx:64-67 | after the cleanup, no entry's listener is registered for its key |
| ActionHandlers.CleanupRestores | src/index.tsx:60-68 | effect then cleanup restores every key's listeners and their order, provided no entry was already registered; no key is lost |
| Scenarios.DispatchFirst | src/index.tsx:32 | a listener that swaps itself for another one during dispatch is the only one called, and afterwards the key holds only the newcomer |
| Scenarios.DispatchAgain | src/index.tsx:29-36 | the next dispatch calls only the newcomer |

## Left out

- React bindings are not modelled: `Boundary`, `createContext`/`useContext`, `useMemo` and the `useEffect` scheduling (src/index.tsx:46-58, 69). They are host-framework lookup and lifecycle. Only the loop bodies of the effect and its cleanup are modelled.
- The `Proxy` returned by `useActions` (src/index.tsx:72-85) is not modelled. It turns a read of string property `key` into `payload => manager.dispatch(key, payload)` and throws for non-string keys. That is reflective interception around `Dispatch`.
- Exceptions thrown by listeners are not modelled. In the code, a listener that throws aborts the rest of the dispatch loop.
- Dispatch from inside a listener (a nested `dispatch`) is not modelled. `run` describes only the `addListener`/`removeListener` calls a listener makes.
- Aliasing of the `Set` objects is not modelled. Each key's set is a value in the map, so code holding a reference to a `Set` taken from the public `listeners` field, and mutating it, is outside the model.
- `Object.entries(handlers)` is taken as the given sequence of (key, listener) pairs. Its enumeration order and the `Partial<T>` typing are not modelled.
- Payload typing (`any`) is not modelled: the payload is an opaque type parameter.
