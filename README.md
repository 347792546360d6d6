# Search-and-highlight panel lifecycle manager

A model of the lifecycle manager inside the SiYuan plugin `PluginHighlight`
(`src/index.ts`). The plugin lets the user open one search-and-highlight
panel per editing pane. It is built around four fields:

- the set of callbacks of the mounted search components;
- the registry from each panel's host node to its Vue app;
- a counter of active components;
- the element that last painted the shared CSS highlights.

The model is the class `Plugin.PluginHighlight` with those four fields. The
host it acts on is kept in the same object:

- `overlays` holds the DOM nodes carrying the marker class
  `highlight-search-result` and where each one sits: inside a tab container
  on desktop, right after the editor on mobile.
- `bus` is a ghost log of the `on`/`off` calls on the `"ws-main"` topic.
- `unmounted` is a ghost log of `app.unmount()` calls.
- `claims` is the ghost history of highlight claims.

Elements, apps and callbacks are opaque objects (`Host`). The mount and
unmount notifications are also specified by pure functions on a small state
(`RefCount.Mounted`, `RefCount.Unmounted`, `RefCount.Reset`). Lemmas over
arbitrary sequences of notifications are proved about those functions.
`Scenarios` holds clients that play the Vue component's mount and unmount
hooks. From the class contracts alone, they prove the multi-pane sequences.

The object invariant `Valid()` says:

- every registry entry has its overlay node and vice versa;
- no two overlays share a place, so there is at most one panel per container;
- each entry owns its own app, which has not been unmounted yet;
- no app is ever unmounted twice;
- the owner register holds the latest claim.

Three behaviours of the code that a reader might not expect, all of which the model follows:

- The decrement in `onSearchComponentUnmounted` has no floor. A stray unmount
  takes the counter to -1, and the next mount then does not subscribe
  (`RefCount.StrayUnmountSkipsSubscribe`).
- `closeSearchDialog` sets the counter to 0. It does not call `eventBus.off`
  and does not clear the callback set. If it runs while components are
  active and their unmount hooks do not run first, the dispatcher stays
  attached and the next mount subscribes a second time
  (`RefCount.ResetWhileActive`). If the hooks run first, as they do inside
  `app.unmount()`, the last hook unsubscribes and the reset changes nothing
  (`RefCount.HooksThenReset`).
- On mobile the lookup for an existing panel searches the whole document, not
  the target editor.

## Model

| member | source | states |
|---|---|---|
| `Plugin.PluginHighlight.constructor` | src/index.ts:13-22 | Empty callback set, registry and DOM overlays, counter 0, no owner, empty logs, and the ref-count invariant holds |
| `Plugin.PluginHighlight.UpdateLastHighlightComponent` | src/index.ts:25-27 | The element is appended to the claim history; afterwards the owner is that element and the ownership test holds exactly for it, whatever was claimed before |
| `Plugin.PluginHighlight.GetLastHighlightComponent` | src/index.ts:30-32 | Returns the element of the latest claim, or none when nothing was ever claimed (last writer wins) |
| `Plugin.PluginHighlight.IsLastHighlightComponent` | src/index.ts:35-37 | True iff `element` made the latest claim, i.e. iff the current owner is `element` |
| `Plugin.PluginHighlight.OnSearchComponentMounted` | src/index.ts:62-75 | Callback added, counter up by exactly 1, `on("ws-main")` appended iff the new count is 1 and the log otherwise unchanged; keeps the ref-count invariant |
| `Plugin.PluginHighlight.OnSearchComponentUnmounted` | src/index.ts:78-95 | Callback removed only when one is given, counter down by exactly 1 with no lower bound, `off("ws-main")` appended iff the new count is 0; keeps the ref-count invariant |
| `Plugin.PluginHighlight.HandleEventBusEvent` | src/index.ts:98-104 | Every callback in the set is invoked, each exactly once and each with the given event, and no field changes |
| `Plugin.PluginHighlight.CloseSearchDialog` | src/index.ts:107-123 | Registry and overlay DOM empty, counter 0, every registered app unmounted exactly once and no other app unmounted; callback set and event-bus log untouched |
| `Plugin.PluginHighlight.CloseCurrentSearchDialog` | src/index.ts:126-140 | Only `element`'s registry entry and node are removed, its app unmounted iff it was registered; every other entry and node, the counter, the callbacks and the bus log unchanged |
| `Plugin.PluginHighlight.OpenIn` | src/index.ts:185-221 | For one target: if the lookup finds a panel nothing changes; otherwise a fresh node is put in the target's slot with a fresh app registered for it; either way the lookup finds a panel afterwards |
| `Plugin.PluginHighlight.AddSearchElement` | src/index.ts:180-223 | Old nodes and entries kept, new nodes distinct and new to the DOM; every target finds a panel afterwards; nodes are created iff some target lacked one, on desktop only inside targets that had none, one per container; on mobile at most one, after the first editor and only if the document had none |
| `Plugin.PluginHighlight.RemoveAllOverlays` | src/index.ts:118-122 | Every node carrying the marker class is removed from the DOM, and nothing else changes |
| `Host.OpenProgressKeep` | src/index.ts:214-221 | A target whose lookup finds a panel leaves the loop's progress invariant intact without adding a node |
| `Host.OpenProgressAdd` | src/index.ts:193-213 | Adding the new node in the slot of a target that lacked a panel extends the loop's progress invariant to that target |
| `RefCount.Mounted` | src/index.ts:62-75 | The callback is added and the counter goes up by 1; the bus log is either unchanged or gains one `on`, never an `off`, and it gains the `on` exactly when the counter was 0 |
| `RefCount.Unmounted` | src/index.ts:78-95 | The given callback, if any, is gone and every other callback stays; the counter goes down by 1; the bus log is either unchanged or gains one `off`, never an `on`, and it gains the `off` exactly when the counter was 1 |
| `RefCount.Reset` | src/index.ts:113-116 | The counter becomes 0, and the callback set and the bus log stay as they were |
| `RefCount.ApplyPreservesInv` | src/index.ts:62-95 | One mount or unmount notification keeps alternating on/off calls and "attached iff counter > 0", even when the counter goes negative |
| `RefCount.RunPreservesInv` | src/index.ts:62-95 | The ref-count invariant holds after every sequence of mount and unmount notifications |
| `RefCount.MountsRun` | src/index.ts:62-75 | A run of mounts from a non-negative counter raises it by the number of mounts, registers all callbacks and calls `on` once, and only when starting from 0 |
| `RefCount.UnmountsRun` | src/index.ts:78-95 | A run of unmounts, each with or without a callback, that keeps the counter non-negative lowers it by the number of unmounts, drops exactly the callbacks they name, and calls `off` once, and only when ending at 0 |
| `RefCount.BalancedRun` | src/index.ts:62-95 | n mounts then any n unmounts from counter 0, in any order and with or without callbacks, append exactly `on`, `off` (nothing for n = 0) and end at counter 0; the callbacks left are the old and mounted ones minus those the unmounts name; every intermediate state with a positive counter is subscribed |
| `RefCount.StrayUnmountSkipsSubscribe` | src/index.ts:62-95 | An unmount at counter 0 gives -1 with no `off`; the following mount gives 0, registers its callback and leaves the dispatcher detached |
| `RefCount.ResetWhileActive` | src/index.ts:107-123 | Resetting the counter while it is positive keeps the dispatcher attached at count 0, breaking the invariant, and the next mount calls `on` a second time in a row |
| `RefCount.HooksThenReset` | src/index.ts:107-123 | If all `count` unmount hooks run before the reset, with or without their callbacks, the reset is a no-op, the dispatcher is detached and the invariant holds |
| `Scenarios.CloseOneAndNotify` | src/index.ts:126-140 | Closing one panel followed by its unmount hook removes only that entry, node and callback and lowers the counter by exactly 1 |
| `Scenarios.OpenOne` | src/index.ts:180-223 | Opening a desktop pane without a panel creates exactly one node, inside that pane, and registers exactly one entry for it |
| `Scenarios.OpenAndMount` | src/index.ts:62-75 | Opening a pane without a panel and then running the new component's mount hook adds one node and entry, registers the callback, raises the counter by 1 and calls `on` iff it reaches 1 |
| `Scenarios.TwoPanes` | src/index.ts:62-140 | Open in pane 1, open in pane 2, close 1, close 2 (with hooks): the bus log is exactly `on`, `off`, the counter 0, nothing registered |
| `Scenarios.OpenTwice` | src/index.ts:180-223 | A second open in a row creates nothing and leaves the registry and the DOM as the first left them |
| `Scenarios.ClaimInOrder` | src/index.ts:25-37 | After claims a, b, c the owner is c, and the ownership test is true for c and for a or b only if they are c |

## Left out

- `closePanel` and `isMobile` (src/index.ts:156-178): cosmetic style resets on host elements and a window global. The mobile flag is a parameter of `AddSearchElement`.
- `onload`, `onLayoutReady`, `onunload`, `uninstall`: top-bar and command registration, i18n strings and console output. Unload and uninstall just call `closeSearchDialog`, which is modelled.
- The SVG icon, the SCSS and the Vue imports. `Search.vue` is not part of this model, so its mount and unmount hooks are modelled as explicit calls by clients (`Scenarios`).
- `createApp`, `app.mount` and `app.unmount`: apps are opaque objects, and unmounting is recorded in a ghost log.
- DOM traversal: the result of `querySelectorAll` for the targets is the parameter `edits`. Only overlay nodes are tracked, with their slot. Nesting of overlays inside other containers, the order of children, and `element.remove()` on nodes other than overlays are not modelled.
- Focusing and selecting the input of an existing panel, and the CSS Highlights API: UI only, with no state of the manager.
- The real event bus: only the `on`/`off` calls with the fixed dispatcher are logged. Callbacks are recorded as invocations, not run. A callback that changes the set during dispatch is not modelled; a JS `Set.forEach` would visit callbacks added during the walk.
- Iteration order: JS `Map` and `Set` iterate in insertion order. The model visits registry entries and callbacks in an unspecified order, since no result depends on it.
- The counter is a JS number; it is modelled as an unbounded integer, since it cannot come near 2^53.
- `Plugin.PluginHighlight.AddSearchElement`: says each created node is new to the DOM and its app new to the registry, not that both objects are freshly allocated. `OpenIn` states freshness for a single target.
