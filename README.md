# react-nano-state: the value container and its subscription binding

This project models the core of react-nano-state. That core is one small JavaScript file that shares a single value between UI component instances without a context provider.

- **Value container** (`createValueContainer`). It holds the current `value` and a registry of subscriber handles, `dispatchers`. That registry is a `Map` used as a set, so its keys keep insertion order.
- **`dispatch(v)`**. It does nothing when `v` is strictly equal to the current value. Otherwise it does three things, in order:
  1. stores `v`;
  2. replaces the registry with an empty one, which drops the handles of components that React may have paused;
  3. calls each handle of the old registry with `v`, in insertion order.
- **Subscription binding** (`useValue`). Each component instance:
  - takes the container's value as its initial local state;
  - after commit, catches up with the container if the value moved on since its render, then registers its state setter as its handle;
  - on cleanup, removes the handle.

  The setter handed back to the component is the container's own `dispatch`.

The model has three modules:

- `Registry` (registry.dfy) is pure functions over the registry. It holds `Register` (`Map.set`), `Unregister` (`Map.delete`), `Notifications` (the calls a dispatch makes, in order), `Deliver` (what those calls do to the instances' local state) and `Count`, with lemmas that state:
  - each registered handle is called exactly once;
  - an unregistered handle is never called;
  - cleanup removes that handle if it is registered and leaves the rest in order; cleaning up an absent handle changes nothing;
  - a cleanup undoes a commit that registered a handle not yet present;
  - commits and cleanups of different instances commute.
- `NanoState` (container.dfy) has the class `ValueContainer`. Its fields are:
  - `value`;
  - `registry`: the handles in insertion order, with no duplicates;
  - `local`: each instance's own state;
  - `notified`: a ghost log of the calls that `Dispatch`'s walk of the registry makes to handles. The source keeps no such log.

  Its methods are `Render`, `Dispatch` (a loop over a snapshot of the old registry), `Commit` and `Cleanup`. Each states the whole new state in terms of the old one. `Render`, `Dispatch` and `Cleanup` preserve `InSync` ("every subscribed instance holds the container's value"). `Commit` preserves it unless the handle was unregistered, the render showed the container's current value, and the instance's state has moved away from that value since the render.
- `Scenarios` (scenarios.dfy) holds client runs that see only those contracts. One is the two-subscriber run in which one instance unmounts. The other is a late commit that catches up with a dispatch it missed.

The host framework is not modelled as framework semantics. React's per-instance state is the map `local`. Its render phase, effect and effect cleanup are the explicit calls `Render`, `Commit` and `Cleanup`. A handle is an opaque `nat`: in the source it is the instance's state setter, which stays the same for the life of the instance. When `Dispatch`'s walk calls a handle with `v`, it appends `(h, v)` to `notified` and sets `local[h]` to `v`. The reconcile step of the effect also calls the instance's own setter; `Commit` models it by setting `local[h]`, and it does not appear in `notified`.

Three facts about the code shape the model:

- `dispatch` calls the handles in the `Map`'s insertion order.
- The registry stores only keys, so a handle is its own callback.
- Every changing `dispatch` empties the registry. An instance therefore hears about later updates only after it renders and commits again, which is why `Scenarios.SharedValue` commits both instances again.

## Model

| member | source | states |
|---|---|---|
| `Registry.Register` | src/index.js:33 | the handle is present afterwards, and no other handle is added; the old registry is a prefix of the new one, so nothing is reordered; a handle that was already present leaves the length unchanged, so there is no duplicate; a registry without duplicates stays without duplicates |
| `Registry.Unregister` | src/index.js:37 | afterwards the registry holds exactly the old handles other than `h`; removing an absent handle leaves the registry unchanged; a registry without duplicates stays without duplicates |
| `Registry.Notifications` | src/index.js:15-17 | one call per registered handle; the k-th call goes to the k-th handle in insertion order and carries the dispatched value |
| `Registry.Deliver` | src/index.js:15-17 | after the handles are called with `v`, every called instance holds `v`; every other instance keeps its state; no instance appears that was not there before or called |
| `Registry.Count` | src/index.js:15-17 | the count for a handle is zero exactly when no call in the log went to that handle |
| `Registry.CountAppend` | src/index.js:15-17 | the calls to a handle in two successive stretches of the log add up |
| `Registry.NotifiedExactlyOnce` | src/index.js:10-17 | walking a duplicate-free registry calls a handle once if it is registered and never otherwise |
| `Registry.UnregisteredNotNotified` | src/index.js:14-17 | a handle missing from the walked registry receives no call |
| `Registry.CleanedUpNotNotified` | src/index.js:37 | after its cleanup, an instance's handle receives no call from the next walk |
| `Registry.UnregisterAt` | src/index.js:37 | removing the handle at index k yields the registry with exactly that entry cut out, with the others in order |
| `Registry.UnregisterAppend` | src/index.js:33-37 | removing a handle from a registry that has one more handle at the end gives the same result as removing it first and then adding that handle, unless it is the handle removed |
| `Registry.CleanupUndoesCommit` | src/index.js:33-37 | an instance's first registration followed by its cleanup restores the registry exactly |
| `Registry.CommitCleanupCommute` | src/index.js:33-37 | registering one instance and removing another give the same registry in either order |
| `Registry.RegisterIdempotent` | src/index.js:33 | registering the same handle twice is the same as registering it once |
| `NanoState.ValueContainer.constructor` | src/index.js:3-6 | the value is the initial one; the registry, the instances' states and the call log are empty |
| `NanoState.ValueContainer.Render` | src/index.js:23 | an instance's first render takes the container's value as its state; later renders show the instance's own state; the container is untouched |
| `NanoState.ValueContainer.Dispatch` | src/index.js:7-18 | an equal value changes nothing: value, registry, states and log are untouched; a new value is stored and the registry is emptied; the log grows by one call per old handle, in insertion order, with the new value; each old handle is called exactly once and no other handle is called; called instances now hold the new value; the registry stays duplicate-free and `InSync` is preserved |
| `NanoState.ValueContainer.Commit` | src/index.js:25-33 | if the rendered value differs from the container's, the instance's state becomes the container's value, and otherwise every state is unchanged; the handle is registered with no duplicate and no reordering; the container's value is not written; `InSync` is preserved when the rendered value differs from the container's, when the handle was already registered, or when the instance's state already equals the container's value |
| `NanoState.ValueContainer.Cleanup` | src/index.js:37 | exactly that handle is removed, with every other handle left in place and in order; removing an absent handle is a no-op; `InSync` is preserved |
| `Scenarios.RenderAndCommit` | src/index.js:22-33 | a render followed by its own commit leaves the instance holding the container's value and subscribed, with the value and the log untouched |
| `Scenarios.MountBothThenDispatch` | src/index.js:3-33 | two instances mount on a container and a new value is dispatched: both are called once with it, in mounting order; both hold it; the registry is empty |
| `Scenarios.SharedValue` | src/index.js:3-40 | after a dispatch, each instance's cleanup runs and its effect commits again; after one of the two instances then unmounts, a further dispatch reaches only the remaining instance; the full call log is fixed |
| `Scenarios.StaleCommit` | src/index.js:7-33 | an instance updated to World and then left unsubscribed while Hello is dispatched again, whose effect then commits a render that showed Hello, holds World while subscribed to a container holding Hello |
| `Scenarios.LateCommit` | src/index.js:26-30 | a dispatch made between an instance's render and its commit notifies nobody, yet the commit brings the instance up to the new value and subscribes it |

## Left out

- The multi-key container (`createValuesContainer`, `useValues`) is called only by examples/useValues/src/index.js; src/index.js contains no implementation of it.
- The `subscribe` member declared in src/index.d.ts has no implementation in src/index.js.
- React's scheduling is left out: batched and asynchronous state updates, effects that are delayed or never run for discarded renders, and `useDebugValue`. Calling a handle sets the instance's state at once.
- Re-entrant `dispatch` from inside a notified callback is left out, and so is a callback that throws. The handles are React state setters, which do neither synchronously.
- JavaScript's `===` corner cases, such as `NaN` and object identity, are left out. Values are of any type with plain equality.
- Calling `createValueContainer()` with no argument (an `undefined` initial value) is not modelled separately. The constructor always takes a value.
- Handles are modelled as natural numbers. In the source they are the identity of each instance's state-setter function.
- `NanoState.ValueContainer.Commit` does not promise `InSync` in one case: the handle is unregistered, the committed render showed the container's current value, and the instance's state has changed since that render. An example is an update to the instance that a dispatch back to the old value then overtook; `Scenarios.StaleCommit` runs it. In React the instance's pending update re-renders it, and that render's effect reconciles it. This model does not schedule that re-render.
