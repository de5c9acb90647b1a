# Scene manager of XGEngine, in Dafny

This project models `src/scene/manager.rs` of XGEngine. The file holds two pieces:

- `SceneManager`, a registry from scene name to scene. `new` starts it empty. `add_scene` registers a scene under a name, replacing and returning any scene registered there before. `render_scene` looks a name up and panics when it is not registered. Otherwise it builds a `ChangeSceneEvent` for the scene it found and dispatches it on the event bus's `"engine"` channel. It then returns `Ok(())`.
- `ChangeSceneEvent`, the event that dispatch hands to the listeners. It is always cancellable. Its `cancelled` flag and optional `reason` are both overwritten by each `set_cancelled` call.

Layout:

- `wrappers.dfy` (module `Wrappers`): the `Option` type.
- `events.dfy` (module `Events`): the event as the class `ChangeSceneEvent`. Its listener-visible state is the value `CancelState`. The spec function `AfterCalls` gives the state after a sequence of `set_cancelled` calls. The method `Dispatch` stands for the event bus.
- `manager.dfy` (module `Manager`): the registry as the class `SceneManager` with one field, `sceneMap: map<string, S>`. The spec function `AfterAdds` gives the map after a sequence of `add_scene` calls.

Modelling choices:

- The scene type is not part of this model, so it is the type parameter `S`.
- The event keeps the looked-up scene value in a `const` field, where the source keeps a raw pointer to it.
- `dispatch_event!` belongs to the external event bus. Its listeners are modelled by the sequence `calls` of the `(cancel, reason)` argument pairs they pass to `set_cancelled`, applied in order. `RenderScene` takes this sequence as a parameter.
- The panic of `render_scene` is the outcome `Panicked("Scene instance does not exist")`. Its `Ok(())` is the outcome `Dispatched(target, final)`. That outcome also records the scene the event referred to and the state the listeners left it in. The source discards the event after dispatch. These two fields only make that discarded event visible; they add no behaviour.
- `render_scene` ignores the event after dispatch and always returns `Ok(())` (src/scene/manager.rs:47-49). `RenderScene` returns `Dispatched` for every registered name, whatever the listeners did.
- `set_cancelled(false, Some(r))` leaves a reason on an event that is not cancelled. The code does not clear the reason, so neither does the model (`UncancelKeepsReason`).

## Model

| member | source | states |
|---|---|---|
| Manager.SceneManager.constructor | src/scene/manager.rs:12-16 | `new` yields a registry whose scene map is empty |
| Manager.SceneManager.AddScene | src/scene/manager.rs:18-27 | after the call, `name` maps to the new scene and the key set gains only `name`; every other entry keeps its value; the result is `Some(old)` exactly when `name` was mapped to `old` before, else `None`; there is no failure path |
| Manager.AfterAddsKeys | src/scene/manager.rs:18-25 | after any sequence of `add_scene` calls, the map holds exactly the names it held before plus the names added, one entry per distinct name |
| Manager.MostRecentAddWins | src/scene/manager.rs:18-25 | after any sequence of `add_scene` calls, each added name maps to the scene of the most recent call with that name |
| Manager.UnaddedNameUnchanged | src/scene/manager.rs:18-25 | a name that no call in the sequence adds keeps its entry, or stays absent |
| Manager.DistinctAddsCommute | src/scene/manager.rs:18-25 | swapping two adjacent `add_scene` calls with different names leaves the final map unchanged; this is one adjacent swap, not a statement about arbitrary reorderings |
| Manager.AfterAddsStep | src/scene/manager.rs:18-25 | one more `add_scene` call after a sequence of them gives the map of the extended sequence, so a run of `AddScene` calls ends in `AfterAdds` of the whole run and the sequence lemmas apply to it |
| Manager.SceneManager.RenderScene | src/scene/manager.rs:29-50 | panics with "Scene instance does not exist" exactly when `name` is not registered; otherwise the dispatched event refers to the scene registered under `name` and ends in the state that the listeners' calls produce from not-cancelled with no reason; the result is `Ok(())` whether or not the event ends cancelled; the method has no `modifies` clause, so the map is unchanged |
| Events.ChangeSceneEvent.constructor | src/scene/manager.rs:41-45 | the event holds the given scene, cancelled flag and reason |
| Events.ChangeSceneEvent.Cancellable | src/scene/manager.rs:61-63 | a change-scene event is always cancellable |
| Events.ChangeSceneEvent.Cancelled | src/scene/manager.rs:65-67 | reports the current cancelled flag, as a function that only reads the event |
| Events.ChangeSceneEvent.GetCancelledReason | src/scene/manager.rs:69-71 | reports the current reason, as a function that only reads the event |
| Events.ChangeSceneEvent.SetCancelled | src/scene/manager.rs:73-76 | overwrites both fields with exactly the arguments, with no coupling between them, and leaves the scene untouched; this is one step of `AfterCalls` |
| Events.Dispatch | src/scene/manager.rs:47 | applying the listeners' `set_cancelled` calls in order leaves the event in the state `AfterCalls` gives |
| Events.LastWriteWins | src/scene/manager.rs:73-76 | after any sequence of `set_cancelled` calls, the state equals the arguments of the last call, or is the starting state when there were none |
| Events.AfterCallsAppend | src/scene/manager.rs:47 | dispatching to two groups of listeners in turn gives the same state as dispatching to all of them in that order |
| Events.VetoOfLastListener | src/scene/manager.rs:73-76 | when the last call is `(true, Some(reason))`, the event ends cancelled with that reason |
| Events.UncancelOverridesVetoes | src/scene/manager.rs:73-76 | a final `(false, None)` call returns the event to not-cancelled without a reason, whatever vetoes came before |
| Events.UncancelKeepsReason | src/scene/manager.rs:73-76 | a final `(false, Some(reason))` call leaves the event not cancelled but with that reason, because `set_cancelled` does not clear it |

## Left out

- The `Arc<Mutex<..>>` around the map and the recovery from a poisoned lock (src/scene/manager.rs:7, 20-23, 30-33). These are concurrency primitives. The model's map is a plain field. A poisoned lock never stops an operation, because the source recovers the map from it. Interleavings of concurrent adds appear only through `DistinctAddsCommute`, which swaps two adjacent adds with different names.
- Manager.SceneManager.RenderScene: the source holds the lock from line 30 through `dispatch_event!` at line 47 until the function returns. A listener that re-enters the registry on the same thread blocks or panics on `lock()`, and a listener that panics unwinds out of `render_scene`. Neither kind of listener is modelled: listeners only make `set_cancelled` calls, and dispatch is assumed to return.
- The internals of `dispatch_event!` and listener registration in the external `event_bus` crate. The name of the `"engine"` channel is not modelled either: `calls` stands for the calls made by whatever listeners that channel has. Listeners that read the event before writing are covered, since only their `set_cancelled` calls can change it.
- The contents of `Scene`. The module `crate::scene::scene` is not part of this model.
- The raw `*const Scene` pointer and whether it stays valid. The event holds the scene value instead.
- The `std::io::Result` type. The only result `render_scene` can give is `Ok(())`, and that is the outcome `Dispatched`.
