# Window stack of the retro blog desktop

This project models the window stack behind the blog's desktop-style windows.
The stack decides which window is drawn on top of which. It is verified in Dafny.

- `WindowManagement` (`window_manager.dfy`) models `WindowManager` in
  `src/scripts/window-manager.ts`. Its `windowStack` lists windows in
  stacking order: index 0 is the bottom and the last element is the topmost.
  `addWindow` places a window at a cascaded position and pushes it.
  `removeWindow` splices out the first occurrence of a window, compared by
  identity. `focusWindow` splices a window out and pushes it again. Both do
  nothing when the window is absent.
- In the source, a `Proxy` set-trap writes `z = index` onto every window
  stored into the array. `push` therefore stamps the pushed window, and
  `splice` stamps every window it shifts down. The model makes this effect an
  explicit step, `Restack`, which runs after each structural change and may
  write only the `z` fields.
- The class invariant `Valid()` says what the trap leaves behind: each
  window's `z` is its **last** position in the stack (`LastIndices`). When
  no window occurs twice, this is exactly `z == index`, so stacking values
  strictly increase from bottom to top.
- `StackOrder` (`stack_order.dfy`) holds the sequence-level specification that
  the methods are proved against. `IndexOf` is `indexOf`. `RemoveFirst` is
  `indexOf` followed by `splice`. `Focused` is `splice` followed by `push`.
  `Without` is "every window but x, in order", and it states that relative
  order is preserved.
- `Windows` (`windows.dfy`) models the earlier `WindowManager.createWindow` in
  `src/scripts/windows.ts`. It appends a new window and sets the window node's
  id to `window-<n>`, where n is the new stack length. `Decimal`
  (`decimal.dfy`) renders n in decimal and parses it back. That round trip
  makes the ids injective, so no two windows on that stack share an id.

`addWindow` has no duplicate check (src/scripts/window-manager.ts:30-40), so
a window that is already on the stack is pushed again, and `indexOf` then
acts on its first occurrence.
`DuplicateAddStampsLastIndex` shows the consequence: the trap's last write
wins, so the lower copy's `z` no longer equals its index. The contracts of
`AddWindow`, `RemoveWindow` and `FocusWindow` state the general case through
`Valid()`. Where they state `z == index`, they do so under `Distinct`.

The cascade arithmetic is over `real`. `desktop` and `windowDefaults` are
imported by `window-manager.ts` from a version of `windows.ts` that does not
define them, so they are constructor parameters of the model.

## Model

| member | source | states |
|---|---|---|
| `WindowManagement.WindowManager.constructor` | src/scripts/window-manager.ts:14-28 | the stack starts empty and the stacking invariant holds |
| `WindowManagement.WindowManager.Restack` | src/scripts/window-manager.ts:19-27 | the set-trap's effect: afterwards every window's z is the last index at which it sits; only z fields are written |
| `WindowManagement.WindowManager.AddWindow` | src/scripts/window-manager.ts:30-40 | w is appended as the topmost element with z equal to the old length; earlier windows other than w keep their z, and all keep their place; for an absent w the z sequence is the old one plus the old length; w's top/left are the cascade position for the old length; the invariant is kept |
| `WindowManagement.WindowManager.RemoveWindow` | src/scripts/window-manager.ts:42-47 | the stack becomes `RemoveFirst(old, w)`; an absent w changes neither the stack nor any z; a removed w that no longer sits on the stack keeps its z, as `splice` never writes it; on a duplicate-free stack the result is duplicate-free, lacks w, and has z equal to the index everywhere |
| `WindowManagement.WindowManager.FocusWindow` | src/scripts/window-manager.ts:49-54 | the stack becomes `Focused(old, w)`; whenever the stack comes out unchanged, so do all z values; on a duplicate-free stack the result is duplicate-free with z equal to the index everywhere |
| `WindowManagement.StackingStrictlyIncreasing` | src/scripts/window-manager.ts:19-27 | on a duplicate-free valid stack, every z equals its index, so stacking values strictly increase along the stack |
| `WindowManagement.DuplicateAddStampsLastIndex` | src/scripts/window-manager.ts:36 | pushing the same window twice leaves it at index 0 with z = 1, because there is no duplicate check and the last stamp wins |
| `WindowManagement.CascadePosition` | src/scripts/window-manager.ts:31-32 | the position for a window added when n windows are stacked: centred on the desktop, then shifted by n·20 down and n·20 right |
| `WindowManagement.CascadeFirstCentred` | src/scripts/window-manager.ts:31-32 | with no window stacked, the new window's centre is the desktop's centre in both axes |
| `WindowManagement.CascadeStep` | src/scripts/window-manager.ts:3-6 | each further window is placed exactly 20 lower and 20 further right than the previous one |
| `StackOrder.IndexOf` | src/scripts/window-manager.ts:43 | -1 exactly when the window is absent, otherwise a position holding it with no earlier occurrence |
| `StackOrder.LastIndexOf` | src/scripts/window-manager.ts:22 | -1 exactly when absent, otherwise a position holding it with no later occurrence; this is the index last stamped onto it |
| `StackOrder.LastIndicesAppend` | src/scripts/window-manager.ts:36 | a push makes the pushed window's last index the old length and leaves every other window's last index unchanged |
| `StackOrder.SpliceStamps` | src/scripts/window-manager.ts:45 | the stacking values `splice(i, 1)` leaves through the set-trap: windows written at or above the removal point carry the last such position, all others keep their old value |
| `StackOrder.SpliceStampsAgree` | src/scripts/window-manager.ts:19-27 | those values are exactly the last indices in the spliced stack, so stamping every position (`Restack`) leaves the same z as the trap's writes |
| `StackOrder.DistinctLastIndices` | src/scripts/window-manager.ts:19-27 | without duplicates, every window's last index is its own index |
| `StackOrder.AppendDistinct` | src/scripts/window-manager.ts:36 | pushing an absent window onto a duplicate-free stack keeps it duplicate-free |
| `StackOrder.RemoveFirst` | src/scripts/window-manager.ts:43-45 | an absent window leaves the stack unchanged; a present one shortens it by exactly one |
| `StackOrder.RemoveFirstKeepsOthers` | src/scripts/window-manager.ts:43-45 | the windows other than w keep their relative order |
| `StackOrder.RemoveFirstDropsOne` | src/scripts/window-manager.ts:43-45 | exactly one occurrence of w is removed and nothing else |
| `StackOrder.RemoveFirstKeepsPrefix` | src/scripts/window-manager.ts:43-45 | the removed occurrence is the first one: everything before it stays in place, and everything after it moves down by one |
| `StackOrder.RemoveFirstDistinct` | src/scripts/window-manager.ts:42-47 | on a duplicate-free stack the result is duplicate-free and no longer contains w |
| `StackOrder.Focused` | src/scripts/window-manager.ts:50-53 | the length is unchanged; a present w ends up at the last index; an absent w leaves the stack unchanged |
| `StackOrder.FocusedKeepsOthers` | src/scripts/window-manager.ts:50-53 | focusing keeps the same windows (as a multiset) and the relative order of all windows but w |
| `StackOrder.FocusedDistinct` | src/scripts/window-manager.ts:50-53 | focusing keeps a duplicate-free stack duplicate-free |
| `StackOrder.FocusedTopIdempotent` | src/scripts/window-manager.ts:49-54 | focusing a window that is already the only topmost occurrence leaves the stack as it was |
| `Windows.Window.constructor` | src/scripts/windows.ts:19-31 | the window keeps its address and title, and its node, a clone of the template, starts with the id `original-window` |
| `Windows.WindowManager.constructor` | src/scripts/windows.ts:1-6 | the stack starts empty and the default window size is 900×600 |
| `Windows.WindowManager.CreateWindow` | src/scripts/windows.ts:8-13 | the returned window is fresh, carries the given address and title, and is appended as the last element; the length grows by exactly one; its id is `window-` followed by the new length in decimal; earlier windows keep their ids |
| `Windows.IdsPairwiseDistinct` | src/scripts/windows.ts:1-13 | no two windows on this stack share an id |
| `Windows.WindowId` | src/scripts/windows.ts:11 | every id starts with `window-` |
| `Windows.WindowIdInjective` | src/scripts/windows.ts:11 | different stack lengths give different ids |
| `Decimal.NatToString` | src/scripts/windows.ts:11 | the rendering of `${n}` is a non-empty string of decimal digits with no leading zero (except "0") |
| `Decimal.ParseNatToString` | src/scripts/windows.ts:11 | parsing the decimal rendering of n gives back n |
| `Decimal.NatToStringInjective` | src/scripts/windows.ts:11 | distinct numbers render as distinct strings |

## Left out

- DOM work is not modelled: `document.querySelector`, the `${top}px`/`${left}px` style strings, `attachTo`, `dettach`, `homebar.append`, node cloning and the iframe `src`/`title` writes. The model records the numeric top/left on the window and the address/title as fields.
- The `"Window not found"` and `"Window has no iframe"` throws in the `windows.ts` constructor depend on the page's DOM, so they are not modelled.
- The `Proxy`/`Reflect` mechanism is not modelled; only its effect is. `Restack` stamps every position, whereas `push` and `splice` write only the positions they store into. `SpliceStampsAgree` and `LastIndicesAppend` prove that, from a valid stack, both leave the same z values. The individual writes are not replayed in order.
- `WindowManagement.WindowManager.AddWindow`: cascade arithmetic uses exact reals, not IEEE doubles.
- The `Window` constructor of the `windows.ts` version that `window-manager.ts` imports is not part of this model. Windows in `WindowManagement` are allocated without one.
- The module-level singletons `export const wm = new WindowManager()` are just global construction, so they are not modelled.
- `src/content.config.ts` only declares content collections and has no logic, so it is not modelled.
- Drag, resize, maximize, minimize and the window event protocol do not appear in these source files, so they are not modelled.
