# arcade-machine-react, modelled in Dafny

arcade-machine-react moves focus between the elements of a web page in
response to gamepad and keyboard presses. A button press is turned into an
`ArcEvent`; the `FocusService` asks a chain of focus strategies (explicit
per-direction overrides, a raycast, a geometric search by distance) for the
next element, bubbles the event through the `onButton`, `onOutgoing` and
`onIncoming` handlers that components registered in the `StateContainer`, lets
those handlers veto or redirect the move (focus traps, focus areas, excluded
subtrees), then selects the element and scrolls it into view. Gamepad input
is debounced before it reaches the service.

This project models that core and proves what it promises:

- The page is an abstract document (`Dom.Document`). Nodes are numbers in
  document order, and a parent precedes its children. The parent map, the
  selector matcher, the bounding rectangles, `elementFromPoint`,
  focusability, tag names, input types and selections, and scroll metrics are
  function-valued fields of that document.
- Handlers are data (`Handlers.Handler`). Each callback is an `Action` value
  that `Callbacks.ApplyAction` interprets, so a chain of callbacks can be
  reasoned about like any other value.
- Everything the source updates in place is a class: `ArcEvent`,
  `ElementStateRecord`, `StateContainer`, `RootStore`, `ArcSingleton`,
  `VirtualElementStore`, `ScrollRegistry`, the two debouncers, the gamepad
  wrapper, the focus trap and `FocusService`. Each class keeps its fields in
  a `State()` value. Each method is proved to move that state exactly as a
  pure function of the old state says. The lemmas about those functions carry
  the properties.
- Loops in the source are methods with invariants. These are the
  `isForForm` parent walk, `getCommonAncestor`, the raycast probe, the
  minimum search in `ElementFinder`, the `setDefaultFocus` scan, the
  `FocusContext.find` strategy loop, the exclusion retry loop, the
  `callForEach` chain and the redirect loop of `sendButton`.
- Directional presses are dispatched with the corrected focus-event
  constructor (see Findings). The constructor as written, which starts with
  propagation stopped, is modelled beside it.
- A handler's `onButton` is a property that `bubbleEvent` reads through a
  cast (src/focus-service.ts:210-213). `IArcHandler` (src/model.ts:83-141)
  does not declare it. It is not one of the chained callbacks
  (src/state/element-state-record.ts:4-8),
  so when handlers are merged the last one declared wins.

## Model

| member | source | states |
|---|---|---|
| Buttons.ButtonSetsPartition | src/model.ts:26-55 | `directionalButtons` holds exactly the directional buttons, `nonDirectionalButtons` exactly the others, the two are disjoint and `buttons` holds every button |
| Buttons.ButtonSetSizes | src/model.ts:26-47 | four directional and ten non-directional buttons |
| Buttons.AllButtonsOrder | src/model.ts:52-55 | `buttons` lists 14 distinct codes, the ten non-directional first and then the four arrows |
| Buttons.AxesPartitionDirections | src/model.ts:60-81 | no button is both horizontal and vertical, and the directional buttons are exactly the horizontal ones plus the vertical ones |
| Buttons.CodesDistinct | src/model.ts:6-21 | the numeric codes are distinct, skip 10 and 11, stay at most 15, and the directional buttons are exactly the codes from 12 up |
| Events.NewArcEvent | src/arc-event.ts:44-54 | a new event carries the given directive, button, target and next, and starts neither prevented nor stopped |
| Events.NewFocusEvent | src/arc-focus-event.ts:31-41 | corrected constructor (see Findings): a new focus event carries the given fields and focus context, and starts neither prevented nor stopped |
| Events.FlagOperations | src/arc-event.ts:59-69 | `stopPropagation` and `preventDefault` each set one flag and change nothing else; both are idempotent and they commute |
| Events.AssignNext | src/arc-focus-event.ts:15-22 | assigning `next` sets it; on a focus event it also stops propagation, on a plain event it does not |
| Events.AssignNextTwice | src/arc-focus-event.ts:19-22 | two assignments of `next` leave the state of the second alone |
| Events.ResetKeepsNext | src/internal-types.ts:30-33 | `resetEvent` clears both flags and keeps `next`, the context and every other field |
| Events.ArcEvent.constructor | src/arc-event.ts:44-54 | the class starts in the state `NewArcEvent` describes |
| Events.ArcEvent.FocusEventAsWritten | src/arc-focus-event.ts:31-41 | the constructor as written: a new focus event starts with propagation stopped (see Findings) |
| Events.ArcEvent.FocusEvent | src/arc-focus-event.ts:31-41 | the corrected constructor: a new focus event starts in the state `NewFocusEvent` describes |
| Events.ArcEvent.StopPropagation | src/arc-event.ts:59-61 | the new state is the old one with propagation stopped |
| Events.ArcEvent.PreventDefault | src/arc-event.ts:67-69 | the new state is the old one with the default prevented |
| Events.ArcEvent.SetNext | src/arc-focus-event.ts:19-22 | the new state is the old one with `next` assigned, as `AssignNext` describes |
| Events.PropagationStopped | src/internal-types.ts:23-25 | `propogationStoped` reads the event's stopped flag |
| Events.ResetEvent | src/internal-types.ts:30-33 | the event's new state is the old one with both flags cleared |
| Dom.Document.ParentElement | src/focus/dom-utils.ts:30-31 | a node has a parent exactly when the parent map holds it, and the parent comes earlier in document order |
| Dom.Document.QuerySelector | src/internal-types.ts:9 | `querySelector` returns the first match in document order, or nothing when no node matches |
| Dom.Document.QuerySelectorAll | src/focus/focus-by-distance.ts:66 | `querySelectorAll` returns exactly the matching nodes, in strictly increasing document order |
| Dom.ContainedHasParent | src/focus/dom-utils.ts:43-48 | a node contained in another node and distinct from it has a parent and comes later in document order |
| Dom.ContainsTransitive | src/focus/dom-utils.ts:43-48 | containment is transitive |
| Dom.RoundRect | src/focus/dom-utils.ts:1-15 | every field is a whole number: top, left, width and height lie within one unit below the originals, and bottom and right within one unit below top plus height and left plus width |
| Dom.CommonAncestorIsNearest | src/focus/dom-utils.ts:21-38 | the answer properly contains both nodes, and every node that properly contains both contains the answer |
| Dom.GetCommonAncestor | src/focus/dom-utils.ts:21-38 | the loop returns nothing when either node is missing, and otherwise the nearest common proper ancestor |
| FiredDebouncers.FiredRun | src/core/fired-debouncer.ts:12-18 | polling the debouncer over a run of readings gives one answer per reading |
| FiredDebouncers.FiresOnRisingEdge | src/core/fired-debouncer.ts:12-18 | a poll fires exactly when the button is pressed now and was not pressed at the previous poll |
| FiredDebouncers.HeldFiresOnce | src/core/fired-debouncer.ts:12-18 | a button held over many polls fires at most once, on the first poll |
| FiredDebouncers.FiredDebouncer.constructor | src/core/fired-debouncer.ts:5-7 | a new debouncer has not fired |
| FiredDebouncers.FiredDebouncer.Attempt | src/core/fired-debouncer.ts:12-18 | `attempt` answers and updates its flag as one step of `FiredRun` |
| DirectionalDebouncers.Step | src/core/directional-debouncer.ts:40-71 | releasing goes idle without firing; the first press fires and becomes held; a held or fast press fires exactly when 500 or 150 ms have passed, then becomes fast; the timestamp moves only when a press fires |
| DirectionalDebouncers.HeldSchedule | src/core/directional-debouncer.ts:40-71 | a press held from time 0 and polled every millisecond fires at 0, at 500 and then every 150 ms |
| DirectionalDebouncers.DirectionalDebouncer.constructor | src/core/directional-debouncer.ts:28-35 | a new debouncer is idle, with its timestamp at 0 |
| DirectionalDebouncers.DirectionalDebouncer.Attempt | src/core/directional-debouncer.ts:40-71 | `attempt` answers and moves its stage and timestamp as `Step` says |
| Callbacks.RunChain | src/state/element-state-record.ts:49-64 | running a chain of callbacks makes at most one call per callback |
| Callbacks.ActionEvolves | src/model.ts:125-135 | a single callback never clears a flag and never changes the event's button, target, directive or context |
| Callbacks.ChainEvolves | src/state/element-state-record.ts:49-64 | the same holds for a whole chain of callbacks |
| Callbacks.ChainAppend | src/state/element-state-record.ts:51-62 | running `a + b` runs `a`, then runs `b` on the result unless `a` failed or stopped propagation |
| Callbacks.StopEndsChain | src/state/element-state-record.ts:59-61 | a first callback that stops propagation is the only one called |
| Callbacks.ThirdStopSkipsFourth | src/state/element-state-record.ts:51-62 | a third callback that stops propagation is the last one called |
| Callbacks.Apply | src/state/element-state-record.ts:57 | calling a callback updates the event as `ApplyAction` says, or returns its error |
| Callbacks.CallForEach | src/state/element-state-record.ts:49-64 | the loop calls the callbacks in order and updates the event as `RunChain` says, or returns the first error |
| Handlers.FocusOverride | src/model.ts:101-123 | a directional button selects its own `arcFocus*` field and a non-directional button has no override |
| Targets.FindElement | src/internal-types.ts:6-11 | no target or an empty selector gives nothing, an element is returned as it is, and a selector gives the first match in the container in document order, or nothing when none matches |
| Targets.FindFocusable | src/internal-types.ts:17-18 | the target when it resolves, otherwise the first `[tabIndex]` element of the container |
| JsArrays.FindIndex | src/state/element-state-record.ts:32 | `Array.findIndex`: the first index that satisfies the test, or -1 exactly when none does |
| JsArrays.LastIndexOf | src/root-store.ts:26 | `Array.lastIndexOf`: the last index holding the value, or -1 exactly when it is absent |
| JsArrays.Splice1 | src/root-store.ts:32 | `splice(start, 1)` with JavaScript's start clamping removes the one entry at the clamped start, or nothing when the start is past the end |
| JsArrays.SpliceMinusOne | src/scroll/scroll-registry.ts:33 | `splice(-1, 1)` removes the last entry of a non-empty array |
| RootStores.Top | src/root-store.ts:11-13 | the `element` getter is the last root, and nothing exactly when the stack is empty |
| RootStores.RestoreRemovesLastOccurrence | src/root-store.ts:25-33 | `restore` removes the last occurrence of the root and shrinks the stack by one; it warns exactly when no occurrence sits above index 0; an absent root removes the top of the stack |
| RootStores.NarrowThenRestore | src/root-store.ts:18-33 | `narrow(r)` then `restore(r)` gives the stack back, warning only when the stack was empty before |
| RootStores.RootStore.constructor | src/root-store.ts:7-9 | a new store holds the given root alone, and it is the current root |
| RootStores.RootStore.Narrow | src/root-store.ts:18-20 | pushes the root, which becomes the current root |
| RootStores.RootStore.Restore | src/root-store.ts:25-33 | updates the stack and warns as `Restored` describes |
| ElementStateRecords.IndexOfKey | src/state/element-state-record.ts:32 | the first record with the key, or -1 exactly when no record has it |
| ElementStateRecords.LastDeclaredIsLast | src/state/element-state-record.ts:76-79 | the last declared value is absent exactly when nothing is declared, and otherwise it is a declared value with nothing declared after it |
| ElementStateRecords.Column | src/state/element-state-record.ts:76-79 | one field of every record's handler, in registration order |
| ElementStateRecords.OverridingIsLastDeclared | src/state/element-state-record.ts:76-79 | `Object.assign` over the records leaves each plain field at the value of the last record that declares it |
| ElementStateRecords.ChainingIsFlatten | src/state/element-state-record.ts:81-85 | each chained callback field of the merge runs every record's callbacks in registration order |
| ElementStateRecords.MergeIsLastWriteWins | src/state/element-state-record.ts:76-87 | the merged handler has the last record's element, every override and exclusion field from the last record declaring it, and `onOutgoing`, `onIncoming` and `onFocus` chained over all records |
| ElementStateRecords.ResolveByCount | src/state/element-state-record.ts:66-74 | no records resolve to nothing, and one record resolves to its own handler |
| ElementStateRecords.AddPlacesEntry | src/state/element-state-record.ts:31-39 | adding under a present key replaces that record in place and keeps the others; adding under a new key appends |
| ElementStateRecords.AddKeepsKeysUnique | src/state/element-state-record.ts:31-39 | keys stay unique and the new record is present |
| ElementStateRecords.RemoveDeletesEntry | src/state/element-state-record.ts:41-47 | removing an absent key changes nothing; removing a present key deletes that record and shifts the later ones down |
| ElementStateRecords.RemoveKeepsKeysUnique | src/state/element-state-record.ts:41-47 | keys stay unique and no record with the key remains |
| ElementStateRecords.ElementStateRecord.constructor | src/state/element-state-record.ts:26-29 | a new record holds the one handler, and it is the resolved handler |
| ElementStateRecords.ElementStateRecord.Add | src/state/element-state-record.ts:31-39 | the records become `AddEntry` of the old ones and the resolved handler is recomputed |
| ElementStateRecords.ElementStateRecord.Remove | src/state/element-state-record.ts:41-47 | the records become `RemoveEntry` of the old ones and the resolved handler is recomputed |
| ElementStateRecords.ElementStateRecord.RecreateResolved | src/state/element-state-record.ts:66-88 | keeps the records and sets the resolved handler to their merge |
| ElementStateRecords.FindIndex | src/state/element-state-record.ts:32 | the loop returns the first index holding the key, or -1 |
| ElementStateRecords.MergeRecords | src/state/element-state-record.ts:76-85 | the spread-then-assign loop over two or more records builds the merge |
| StateContainers.ExcludedCountUpdate | src/state/state-container.ts:17-21 | replacing or deleting one element's records moves the number of excluding elements by the change of that one element alone |
| StateContainers.AddKeepsWellFormed | src/state/state-container.ts:26-41 | `add` keeps every element's record list non-empty with unique keys and registered for that element, and the element is registered afterwards |
| StateContainers.RemoveKeepsWellFormed | src/state/state-container.ts:46-62 | `remove` keeps the registry well formed |
| StateContainers.AddKeepsCount | src/state/state-container.ts:26-41 | the corrected counter update of `add` keeps `excludedDeepCount` equal to the number of elements whose resolved handler excludes |
| StateContainers.RemoveKeepsCount | src/state/state-container.ts:46-62 | the corrected counter update of `remove` keeps the same equality |
| StateContainers.AddAsWrittenStaleCount | src/state/state-container.ts:36-40 | as written, overriding `exclude: true` with `exclude: false` leaves the counter at 1 while no element excludes (see Findings) |
| StateContainers.RemoveAsWrittenStaleCount | src/state/state-container.ts:52-61 | as written, removing the record that overrode `exclude: true` with `exclude: false` leaves the counter at 0 while one element excludes (see Findings) |
| StateContainers.LookupAfterAddRemove | src/state/state-container.ts:26-74 | after `add` the element is found; a first registration is found as given and `remove` of it forgets the element; other elements are unaffected |
| StateContainers.HasExcludedIffSomeExcludes | src/state/state-container.ts:79-81 | with an accurate counter, `hasExcludedDeepElements` holds exactly when some element's resolved handler excludes |
| StateContainers.StateContainer.constructor | src/state/state-container.ts:14-21 | a new container is empty, valid and its counter is accurate |
| StateContainers.StateContainer.Add | src/state/state-container.ts:26-41 | the registry becomes `AddRegistration` of the old one, the counter moves as the corrected `AddCount` says, and an accurate counter stays accurate |
| StateContainers.StateContainer.AddNew | src/state/state-container.ts:27-34 | the branch for an element without a record: a fresh record, and one more on the counter when the handler excludes |
| StateContainers.StateContainer.AddExisting | src/state/state-container.ts:36-40 | the branch for an element with a record: the record is updated and the counter moves as `AddCount` says |
| StateContainers.StateContainer.AddRecord | src/state/state-container.ts:36-37 | reads the old exclusion, adds to the element's record, and reports the new exclusion |
| StateContainers.StateContainer.Remove | src/state/state-container.ts:46-62 | the registry becomes `RemoveRegistration` of the old one, the counter moves as the corrected `RemoveCount` says, and an accurate counter stays accurate |
| StateContainers.StateContainer.RemoveExisting | src/state/state-container.ts:52-61 | the branch for an element with a record |
| StateContainers.StateContainer.RemoveRecord | src/state/state-container.ts:52-57 | removes from the element's record, forgets the element when no record remains, and reports the old and new exclusion |
| StateContainers.StateContainer.Settle | src/state/state-container.ts:55-57 | an element whose record list is empty is deleted, otherwise its list is stored |
| StateContainers.StateContainer.Find | src/state/state-container.ts:68-74 | `find` returns the resolved handler of the element's record, or nothing for an unregistered element |
| StateContainers.StateContainer.HasExcludedDeepElements | src/state/state-container.ts:79-81 | with an accurate counter, the answer holds exactly when some element's resolved handler excludes |
| Singletons.ArcSingleton.constructor | src/singleton.ts:62 | the module-level instance starts with no services |
| Singletons.ArcSingleton.SetServices | src/singleton.ts:29-48 | a second root while one is live fails with the error message and keeps the old services; `undefined` clears them; otherwise the given services are spread over a fresh empty state container and a fresh default scroll registry |
| Singletons.ArcSingleton.GetServices | src/singleton.ts:53-59 | returns the services when set, and otherwise the "no ArcRoot" error |
| VirtualElementStores.Initial | src/focus/virtual-element-store.ts:33-37 | a new store holds the active element, has given no native focus and is consistent |
| VirtualElementStores.AssignKeepsConsistent | src/focus/virtual-element-store.ts:18-31 | the setter marks only the new element, calls `focus` on it when it needs native focus, `blur` on the old element when the store had focused it and the new one does not need focus, and nothing else |
| VirtualElementStores.BlurUndoesOwnFocus | src/focus/virtual-element-store.ts:23-27 | every `blur` the store issues undoes its own last `focus` call |
| VirtualElementStores.ReadAfterAssign | src/focus/virtual-element-store.ts:12-16 | the getter returns the assigned element while it is in the body, and the active element otherwise |
| VirtualElementStores.VirtualElementStore.constructor | src/focus/virtual-element-store.ts:33-37 | a new store is in the initial state with the given test for native focus |
| VirtualElementStores.VirtualElementStore.Default | src/focus/virtual-element-store.ts:3-5 | without a test, native focus goes to TEXTAREA, INPUT and content-editable elements |
| VirtualElementStores.VirtualElementStore.SetElement | src/focus/virtual-element-store.ts:18-31 | the setter moves the state as `Assign` describes and keeps it consistent |
| ScrollRegistries.DefaultContainers | src/scroll/scroll-registry.ts:12-20 | the default registry holds one vertical, non-horizontal container: the scrolling element, or the body when there is none |
| ScrollRegistries.RemoveUnknownDropsLast | src/scroll/scroll-registry.ts:32-34 | as written, removing an element that was never added drops the last container (see Findings) |
| ScrollRegistries.RemoveUnknownFromDefault | src/scroll/scroll-registry.ts:12-34 | as written, removing an unknown element from the default registry empties it; the corrected removal keeps it |
| ScrollRegistries.RemoveDropsFirstEntry | src/scroll/scroll-registry.ts:32-34 | the corrected removal deletes the first container of the element and keeps the registry when the element is absent |
| ScrollRegistries.ScrollRegistry.constructor | src/scroll/scroll-registry.ts:12-20 | the registry holds the given containers |
| ScrollRegistries.ScrollRegistry.Default | src/scroll/scroll-registry.ts:12-20 | the registry holds the default container |
| ScrollRegistries.ScrollRegistry.Add | src/scroll/scroll-registry.ts:25-27 | appends the container |
| ScrollRegistries.ScrollRegistry.RemoveAsWritten | src/scroll/scroll-registry.ts:32-34 | the removal as written, `splice(findIndex(...), 1)` |
| ScrollRegistries.ScrollRegistry.Remove | src/scroll/scroll-registry.ts:32-34 | the corrected removal, which does nothing for an unknown element |
| ScrollRegistries.ScrollRegistry.GetScrollContainers | src/scroll/scroll-registry.ts:39-41 | returns the registered containers |
| ScrollUtil.AxisDelta | src/scroll/util.ts:5-23 | the delta is negative exactly when the rectangle starts before the viewport and then brings its start to 0; positive exactly when it ends past the viewport and then brings its end to the viewport's edge; zero otherwise |
| ScrollExecutors.ScrollToFirstContainer | src/scroll/index.ts:29-43 | the algorithm is called exactly when the rectangle is out of view and some registered container holds the target, and then with the first such container |
| ScrollExecutors.DefaultRegistryUsesScrollingElement | src/scroll/index.ts:29-43 | with the default registry, an out-of-view target inside the scrolling element scrolls that element vertically |
| SmoothScrolling.QuadSmoothingEndpoints | src/scroll/smooth-scrolling-algorithm.ts:15-23 | the curve starts at `start`, passes the midpoint at half progress and ends at `end` |
| SmoothScrolling.QuadSmoothingMonotone | src/scroll/smooth-scrolling-algorithm.ts:15-23 | the curve never decreases over progress from 0 to 1 and stays between `start` and `end` |
| SmoothScrolling.Animate | src/scroll/smooth-scrolling-algorithm.ts:43-60 | a zero delta starts no animation; otherwise the animation runs from the original offset to original plus delta, over a duration in milliseconds of the distance over the speed times 1000 |
| SmoothScrolling.SmoothScrollToAxes | src/scroll/smooth-scrolling-algorithm.ts:62-77 | a horizontal animation starts exactly when the container scrolls horizontally and the rectangle is out of view horizontally, the same for vertical, and each moves by its axis delta |
| SmoothScrolling.FrameReachesTarget | src/scroll/smooth-scrolling-algorithm.ts:50-57 | for any easing function, a frame at or past the duration writes the easing value at progress 1 and requests no further frame; an earlier frame writes the value at elapsed over duration and requests another |
| SmoothScrolling.QuadFrameReachesTarget | src/scroll/smooth-scrolling-algorithm.ts:50-57 | with the default `quadSmoothing`, the last frame writes exactly the target, and every frame of a forward scroll stays between the original and the target |
| Rescroll.QuadIsQuadSmoothing | src/focus/rescroll.ts:11-19 | `quad` is the same curve as `quadSmoothing`, from `start` to `end` |
| Rescroll.Animate | src/focus/rescroll.ts:34-57 | an `Infinity` speed jumps the element of the round to the target; a finite speed animates from the original to the target at that rate, with frames that write to the round's element when corrected, and as written to the loop's final `parent`, or throw when it is `null` |
| Rescroll.AxisTarget | src/focus/rescroll.ts:93-116 | an axis scrolls exactly when the box is not already shown, to its near edge when that lies before the offset, and to its far edge otherwise |
| Rescroll.WritesAtTargets | src/focus/rescroll.ts:92-116 | corrected, every scroll of a round goes to that round's ancestor; as written, only a jump does, and an animation writes to the loop's final `parent`, or throws when it is `null` |
| Rescroll.WalkStaysInContainer | src/focus/rescroll.ts:64-118 | corrected, every scroll of the walk goes to an element that lies inside the container and contains the parent the walk starts from |
| Rescroll.WalkEndsAtContainer | src/focus/rescroll.ts:64-118 | in both versions, the walk ends with the scrolls started in the container's own round |
| Rescroll.RescrollScope | src/focus/rescroll.ts:21-118 | a `null` speed scrolls nothing; corrected, every scroll goes to an ancestor of the element inside the container, and the container's own scrolls come last |
| Rescroll.ContainsOrder | src/focus/rescroll.ts:64-65 | an ancestor comes before its descendants in document order, so the walk terminates |
| Rescroll.WalkStep | src/focus/rescroll.ts:64-118 | one loop round: the writes at the parent, then the walk from the parent's parent |
| Rescroll.LoopExitInside | src/focus/rescroll.ts:64-65 | a walk starting inside the container leaves `parent` at the container's parent once the loop ends |
| Rescroll.AsWrittenWalkTargets | src/focus/rescroll.ts:64-118 | as written, with a finite speed, every scroll of the walk is an animation writing to the loop's final `parent`, or throwing when it is `null` |
| Rescroll.AsWrittenFramesLeaveContainer | src/focus/rescroll.ts:64-118 | as written, for an element inside the container and a finite speed, every animation writes to the container's parent, outside the container, or throws when there is none (see Findings) |
| Rescroll.AnimatedScrollMissesInnerScroller | src/focus/rescroll.ts:64-118 | at speed 1000, a scrolling element inside the container is animated when corrected, while as written the frames write to the container's parent (see Findings) |
| Rescroll.AsWrittenVersusCorrected | src/focus/rescroll.ts:21-118 | as written, `rescroll` starts the corrected scrolls in the same order, each with its jump axis or frame target changed as `AsWrittenOf` says |
| Rescroll.InstantHorizontalScrollHitsScrollTop | src/focus/rescroll.ts:40-42 | a container that scrolls only horizontally, with speed `Infinity`, gets the horizontal target written into `scrollTop` as written, and into `scrollLeft` when corrected |
| Rescroll.CorrectedKeepsAxis | src/focus/rescroll.ts:34-57 | the corrected `animate` scrolls on its own axis and never throws; the version as written differs exactly as `AsWrittenOf` says: a jump goes to the vertical axis, an animation writes to the loop's final `parent` |
| Rescroll.Rescroll | src/focus/rescroll.ts:21-118 | the parent loop produces the corrected writes, as `RescrollSpec` describes |
| FocusByRegistry.RegistryLookup | src/focus/focus-by-registry.ts:11-41 | without a directive or for a non-directional button nothing is found; otherwise the answer is the override of that direction resolved under the body, nothing when there is no override, and the `ignore` set plays no part |
| FocusByRaycast.MaxDistance | src/focus/focus-by-raycast.ts:19-24 | the search reaches at least the minimum distance and at least the reference box's extent times the maximum search size, and is one of the two |
| FocusByRaycast.SearchPointDistance | src/focus/focus-by-raycast.ts:27-30 | probes are at least the minimum spacing apart, and no more than the maximum number of probes fit into the search distance |
| FocusByRaycast.ProbeCount | src/focus/focus-by-raycast.ts:61 | probe k is made exactly when k times the spacing lies below the search distance |
| FocusByRaycast.OffsetIsProduct | src/focus/focus-by-raycast.ts:61-62 | the loop's running offset after k steps is k times the spacing |
| FocusByRaycast.ProbeCountBounds | src/focus/focus-by-raycast.ts:26-30 | between 1 and 30 points are probed |
| FocusByRaycast.RaycastSpec | src/focus/focus-by-raycast.ts:18-22 | a non-directional button throws 'Invalid direction'; a directional one never throws |
| FocusByRaycast.FindNextFocus | src/focus/focus-by-raycast.ts:18-76 | the strategy answers as `RaycastSpec` describes |
| FocusByRaycast.Scan | src/focus/focus-by-raycast.ts:61-75 | the probe loop returns the first accepted hit along the ray, or nothing after the last probe |
| FocusByRaycast.ScanFromFirstAccepted | src/focus/focus-by-raycast.ts:61-73 | a hit is the first accepted sample and every earlier sample was rejected; no hit means every sample was rejected |
| FocusByRaycast.ScanStep | src/focus/focus-by-raycast.ts:63-72 | one probe: an accepted sample ends the scan, a rejected one moves to the next probe |
| FocusByRaycast.RaycastAnswerAccepted | src/focus/focus-by-raycast.ts:64-72 | an answer is a focusable element inside the root, other than the active element |
| FocusIndex.Options | src/focus/index.ts:75-81 | every strategy gets this call's direction, root and ignore set, the source's fields, and the previous element defaulting to the active one |
| FocusIndex.Answers | src/focus/index.ts:83-90 | one answer per strategy, each that strategy's answer under the same options |
| FocusIndex.FirstHitIsFirstNonNull | src/focus/index.ts:83-90 | a non-null answer is some strategy's answer with every strategy before it answering null; a null answer means every strategy answered null |
| FocusIndex.LaterStrategiesIgnored | src/focus/index.ts:83-90 | strategies after the first non-null answer or the first throw do not change the answer |
| FocusIndex.FindIsFirstNonNull | src/focus/index.ts:83-90 | an element found by `find` is the answer of some strategy under this call's options, and every earlier strategy answered null |
| FocusIndex.FirstHitStep | src/focus/index.ts:84-88 | one round of the loop: a non-null answer or a throw ends the search, a null answer moves on |
| FocusIndex.FindFirst | src/focus/index.ts:83-90 | the strategy loop returns what `Find` describes |
| FocusIndex.NoStrategiesFindNothing | src/focus/index.ts:83-90 | an empty strategy list finds nothing |
| FormGuard.IsForForm | src/focus/is-for-form.ts:7-74 | the parent walk and the text-entry checks answer as `IsForFormSpec` describes |
| FormGuard.InFormControlIffContained | src/focus/is-for-form.ts:13-30 | the parent walk finds a form control exactly when the element or one of its ancestors is one |
| FormGuard.SubmitInForm | src/focus/is-for-form.ts:8-30 | Submit is left to the form exactly when the element lies in a form control, and with no selected element no button is |
| FormGuard.OtherButtonsInTextEntry | src/focus/is-for-form.ts:34-73 | another button is left to the form only in a text INPUT or TEXTAREA, never for Up or Down, and then exactly when text is selected or the caret can still move in the button's direction |
| ArcFocusTrap.TrapVetoesExactly | src/components/arc-focus-trap.tsx:72-76 | the trap's `onOutgoing` prevents the default exactly when `next` lies outside the trap, and changes nothing else |
| ArcFocusTrap.OnOutgoing | src/components/arc-focus-trap.tsx:72-76 | the handler updates the event as `TrapOutgoing` describes |
| ArcFocusTrap.MountFocus | src/components/arc-focus-trap.tsx:61-68 | on mount nothing is focused when focus is already inside the trap; otherwise the `focusIn` target found in the trap, or the first `[tabIndex]` element of the trap when there is no `focusIn` |
| ArcFocusTrap.UnmountFocus | src/components/arc-focus-trap.tsx:83-91 | on unmount focus goes to the `focusOut` target, or back to the element focused before mounting when there is none or it resolves to nothing |
| ArcFocusTrap.FocusTrap.constructor | src/components/arc-focus-trap.tsx:40-54 | the trap keeps its props and the element focused when it was created |
| ArcFocusTrap.FocusTrap.WillMount | src/components/arc-focus-trap.tsx:52-54 | records the active element as the element to restore |
| ArcFocusTrap.FocusTrap.DidMount | src/components/arc-focus-trap.tsx:56-78 | registers the trap handler in the state container, keeping it valid and its counter accurate, and focuses what `MountFocus` describes |
| ArcFocusTrap.FocusTrap.WillUnmount | src/components/arc-focus-trap.tsx:80-92 | removes the trap's registration, keeping the container valid and its counter accurate, and focuses what `UnmountFocus` describes |
| ArcFocusArea.FocusInTarget | src/components/arc-focus-area.tsx:65 | the area's target is never the empty selector: a missing or empty `focusIn` means `[tabIndex]` |
| ArcFocusArea.OnIncoming | src/components/arc-focus-area.tsx:60-75 | the handler updates the event as `AreaIncoming` describes |
| ArcFocusArea.AreaRedirects | src/components/arc-focus-area.tsx:60-75 | focus coming from inside the area passes unchanged; focus entering the area goes to the `focusIn` element, or, whenever a descendant of the area matches its selector, to the first such descendant, and stays where it was when nothing matches; the default flag and the context never change |
| ArcFocusArea.DefaultFocusIn | src/components/arc-focus-area.tsx:65 | no `focusIn` and an empty `focusIn` both behave like the `[tabIndex]` selector |
| ArcExclude.ExcludedIsExcludable | src/components/arc-exclude.tsx:67-77 | every element the wrapper excludes lies in the wrapper's subtree |
| ArcExclude.ExcludeLoopFixedPoint | src/components/arc-exclude.tsx:49-52 | as written, a pass that gets back a `next` it already ignores leaves the loop state unchanged |
| ArcExclude.RegistryOverrideHangsExclusion | src/components/arc-exclude.tsx:49-52 | with the registry strategy first and an override to an excluded element, `find` answers that element whatever is ignored, so the loop as written repeats one state for ever (see Findings) |
| ArcExclude.ExcludeFromResult | src/components/arc-exclude.tsx:43-53 | the corrected loop ends with no `next` or a `next` that is not excluded, and a changed `next` is an answer of the context under a larger ignore set |
| ArcExclude.ExcludeIncomingResult | src/components/arc-exclude.tsx:43-53 | an event without `next` passes unchanged; afterwards `next` is never an excluded element and the default flag is unchanged |
| ArcExclude.OnIncoming | src/components/arc-exclude.tsx:43-53 | the handler updates the event as `ExcludeIncoming` describes, or returns the error the context threw |
| ArcExclude.RetryExcluded | src/components/arc-exclude.tsx:48-52 | the retry loop sets `next` as `ExcludeFrom` describes, or returns the context's error |
| FocusByDistance.Filter | src/focus/focus-by-distance.ts:88-92 | keeps exactly the candidates that pass the test, in order |
| FocusByDistance.WithShadow | src/focus/focus-by-distance.ts:125 | scores every candidate with its share in the reference box's shadow and changes nothing else |
| FocusByDistance.WithPrimary | src/focus/focus-by-distance.ts:113-126 | scores every candidate with its primary distance and changes nothing else |
| FocusByDistance.WithSecondary | src/focus/focus-by-distance.ts:114 | scores every candidate with its secondary distance and changes nothing else |
| FocusByDistance.MinOf | src/focus/focus-by-distance.ts:186-194 | the minimum is one of the keys and no key is smaller |
| FocusByDistance.LastMinIndex | src/focus/focus-by-distance.ts:120-122 | an index of a minimal key with every later key strictly larger, as a `reduce` that keeps the later one on ties |
| FocusByDistance.FirstMinIndex | src/focus/focus-by-distance.ts:157-166 | an index of a minimal key with every earlier key strictly larger |
| FocusByDistance.Eligible | src/focus/focus-by-distance.ts:88-104 | keeps exactly the candidates that lie in the direction of travel and have an area |
| FocusByDistance.Nearest | src/focus/focus-by-distance.ts:126-129 | keeps exactly the candidates at the shortest primary distance, and at least one |
| FocusByDistance.NearestInShadow | src/focus/focus-by-distance.ts:125-129 | the candidates in the shadow narrowed to the nearest ones, never empty |
| FocusByDistance.TieBreakIndex | src/focus/focus-by-distance.ts:157-166 | the topmost candidate when moving Left or Right and the leftmost when moving Up or Down, the first one on a tie |
| FocusByDistance.FindSpec | src/focus/focus-by-distance.ts:87-167 | the search throws exactly for a non-directional button and a non-empty shortlist |
| FocusByDistance.Shortlist | src/focus/focus-by-distance.ts:84 | one scored candidate per element, in order |
| FocusByDistance.FocusableCandidates | src/focus/focus-by-distance.ts:66-68 | exactly the `[tabIndex]` elements under the root that are not ignored and are focusable |
| FocusByDistance.FilterNodes | src/focus/focus-by-distance.ts:66-68 | keeps exactly the elements that are not ignored and pass the focusability test |
| FocusByDistance.ElementFinder.constructor | src/focus/focus-by-distance.ts:78-85 | the finder keeps its direction, reference box and previous element and shortlists every candidate |
| FocusByDistance.ElementFinder.Find | src/focus/focus-by-distance.ts:87-167 | `find` answers as `FindSpec` describes over the initial shortlist |
| FocusByDistance.ElementFinder.Select | src/focus/focus-by-distance.ts:94-166 | the choice after the filters, as `Choose` describes |
| FocusByDistance.ElementFinder.SelectWithoutShadow | src/focus/focus-by-distance.ts:108-123 | with nothing in the shadow, the closest candidate as `ClosestWithoutShadow` describes |
| FocusByDistance.ElementFinder.SelectInShadow | src/focus/focus-by-distance.ts:125-166 | the tie-break among the nearest candidates in the shadow |
| FocusByDistance.ElementFinder.NarrowToNearest | src/focus/focus-by-distance.ts:126-129 | the shortlist becomes the candidates at the shortest primary distance |
| FocusByDistance.GetShortestPrimaryDist | src/focus/focus-by-distance.ts:186-194 | the loop returns a primary distance of the list that no candidate undercuts |
| FocusByDistanceProofs.FindResultIsEligible | src/focus/focus-by-distance.ts:87-167 | an element found belongs to a shortlisted candidate that lies in the direction of travel and has an area, and the button is directional |
| FocusByDistanceProofs.FindNothingEligible | src/focus/focus-by-distance.ts:88-92 | with no eligible candidate nothing is found |
| FocusByDistanceProofs.FindHorizontalWithoutShadow | src/focus/focus-by-distance.ts:108-111 | moving Left or Right with no eligible candidate in the shadow finds nothing |
| FocusByDistanceProofs.ClosestWithoutShadowMinimises | src/focus/focus-by-distance.ts:113-122 | the closest candidate has the shortest primary distance, and among those the shortest secondary distance |
| FocusByDistanceProofs.NearestInShadowSound | src/focus/focus-by-distance.ts:125-129 | every candidate kept is in the shadow at the shortest primary distance among those in the shadow |
| FocusByDistanceProofs.NearestInShadowComplete | src/focus/focus-by-distance.ts:125-129 | every candidate in the shadow at that shortest distance is kept |
| FocusByDistanceProofs.TieBreakOrder | src/focus/focus-by-distance.ts:141-166 | the previous element wins when it is among the candidates; otherwise, among several, the topmost or leftmost one |
| FocusByDistanceProofs.FindWithShadow | src/focus/focus-by-distance.ts:125-166 | when some eligible candidate is in the shadow, the answer is an eligible candidate in the shadow at the shortest primary distance |
| FocusByDistanceProofs.FindPrefersTieBreakElement | src/focus/focus-by-distance.ts:153-155 | a previous element that is a nearest eligible candidate in the shadow is chosen again |
| FocusByDistanceProofs.FindNextFocusCandidate | src/focus/focus-by-distance.ts:65-71 | an element the strategy finds is a `[tabIndex]` element under the root that is focusable and not ignored, and the button is directional |
| Dispatch.BubbleStopped | src/focus-service.ts:190-218 | an event whose propagation is stopped bubbles through nothing |
| Dispatch.BubbleEvolves | src/focus-service.ts:190-218 | bubbling never clears a flag and never changes the button, target, directive or context |
| Dispatch.BubbleWithoutCallbacks | src/focus-service.ts:190-218 | when no element on the way up registers a callback for the trigger, the event comes back unchanged |
| Dispatch.BubbleStaysBelowRoot | src/focus-service.ts:190-218 | bubbling depends only on the registrations of elements strictly below the root |
| Dispatch.RootHandlerNeverCalled | src/focus-service.ts:195 | whatever is registered on the root itself changes nothing, since the walk stops before the root |
| Dispatch.FormGuardFirst | src/focus-service.ts:85-89 | a button the form control handles itself is not handled and changes nothing |
| Dispatch.ButtonPreventedIsHandled | src/focus-service.ts:92-95 | an `onButton` handler that prevents the default ends the press as handled, with nothing else changed |
| Dispatch.NonDirectionalDefault | src/focus-service.ts:96-98 | an unprevented non-directional press clicks the selected element for Submit and is not handled for any other button |
| Dispatch.DefaultFiresOnNext | src/focus-service.ts:170-184 | with a `next` the press is handled, and a `next` outside the root selects nothing; with no `next` a directional press is not handled |
| Dispatch.SelectNodeEffect | src/focus-service.ts:52-78 | selecting an element under the root, other than the selected one, makes it the selection, remembers the old one, takes its rectangle as reference and asks for one scroll; anything else changes nothing |
| Dispatch.PingPongExceedsIterations | src/focus-service.ts:100-113 | two areas that redirect incoming focus to each other exhaust the iteration limit and end with 'Max iterations exceeded' |
| Dispatch.PingPongRedirects | src/focus-service.ts:151-168 | one round between those areas swaps `next` to the other one |
| Dispatch.AsWrittenSkipsHandlers | src/arc-focus-event.ts:19-22 | a focus event that starts stopped, as the constructor as written makes it, skips every `onButton`, `onOutgoing` and `onIncoming` handler and goes straight to the default (see Findings) |
| Dispatch.TrapHoldsFocus | src/components/arc-focus-trap.tsx:72-76 | with the corrected constructor, a trap on the selected element keeps focus when `next` lies outside it; with the constructor as written focus leaves the trap |
| Dispatch.FirstEligible | src/focus-service.ts:223-241 | the first element of the list that may take default focus, every earlier one being unfit, or nothing when none is fit |
| Dispatch.FirstEligibleIsLeast | src/focus-service.ts:223-241 | over a list in document order, the element picked comes before every other fit element |
| Dispatch.DefaultFocusIsFirstEligible | src/focus-service.ts:223-241 | default focus goes to the first `[tabIndex]` element under the root that is not the current element, is focusable and has a width and a height, or nowhere when there is none |
| Dispatch.FocusService.constructor | src/focus-service.ts:22-47 | a new service keeps its registry, root and strategies, scrolls at 1000 pixels per second, and starts from the default focus |
| Dispatch.FocusService.SelectNodeWithoutEvent | src/focus-service.ts:65-78 | the view moves as `SelectNodeWithoutEventSpec` describes |
| Dispatch.FocusService.SelectNode | src/focus-service.ts:52-58 | the view moves as `SelectNodeSpec` describes: nothing happens outside the root |
| Dispatch.FocusService.SetDefaultFocus | src/focus-service.ts:223-241 | the scan selects what `DefaultFocusTarget` picks, or keeps the view |
| Dispatch.FocusService.BubbleEvent | src/focus-service.ts:190-218 | the walk updates the event as `Bubble` describes, or returns the handler's error |
| Dispatch.FocusService.BubbleInOut | src/focus-service.ts:151-168 | `onOutgoing` from the selected element, then `onIncoming` into `next` unless stopped, as `BubbleInOutSpec` describes |
| Dispatch.FocusService.DefaultFires | src/focus-service.ts:170-184 | the default action updates the view and answers as `DefaultFiresSpec` describes |
| Dispatch.FocusService.CreateArcEvent | src/focus-service.ts:120-145 | a non-directional press gets a plain event; a directional one a focus event, built with the corrected constructor (see Findings), whose `next` the strategies found, or their error |
| Dispatch.FocusService.SendButton | src/focus-service.ts:85-114 | a press is answered, and the view moved, as `SendButtonSpec` describes; focus events come from the corrected constructor (see Findings) |
| Dispatch.FocusService.DispatchEvent | src/focus-service.ts:91-114 | the event is dispatched as `Dispatch` describes |
| Dispatch.FocusService.RedirectLoop | src/focus-service.ts:100-113 | the loop of at most `maxFocusIterations` rounds answers as `RedirectLoopSpec` describes |
| Dispatch.FocusService.RedirectRound | src/focus-service.ts:101-111 | one round either ends the loop with its answer or leaves the view alone and hands the redirected event to the next round |
| XboxGamepad.ReadingAtRest | src/input/xbox-gamepad.ts:23-50 | with the stick at rest, or for a non-directional button, a button reads as its pressed flag |
| XboxGamepad.OppositeDirectionsExclusive | src/input/xbox-gamepad.ts:23-50 | without the pad buttons, Left and Right never read together, nor Up and Down |
| XboxGamepad.WiringCombines | src/input/xbox-gamepad.ts:52-60 | the four arrows get their own repeating debouncers and every other button its own edge debouncer, all distinct |
| XboxGamepad.XboxGamepadWrapper.constructor | src/input/xbox-gamepad.ts:22-61 | a new wrapper is wired that way, with every debouncer in its initial state |
| XboxGamepad.XboxGamepadWrapper.Fire | src/input/xbox-gamepad.ts:52-59 | polling a button steps its own debouncer on that button's reading |
| XboxGamepad.EdgeEvents | src/input/xbox-gamepad.ts:57-60 | the loop gives every non-directional button a distinct, unfired edge debouncer |

Notes on behaviour:

- Scrolling picks the first registered container that holds the target
  (src/scroll/index.ts:35-42). It does not pick the innermost one.
- `FocusContext.find` asks its strategies once, in list order
  (src/focus/index.ts:83-90). It does not recurse into focus areas.
- The distance strategy breaks ties with the active element
  (src/focus/focus-by-distance.ts:70 and :153-155). It does not use the previously
  selected element.

## Left out

- React rendering, component lifecycles beyond the mount and unmount hooks
  modelled here, and the higher-order components: they only wire props
  into the registry.
- The `setTimeout` in `ArcFocusTrap.componentDidMount` is left out. The
  focus it defers is returned as a value instead.
- Time and animation frames are parameters. `performance.now` and
  `requestAnimationFrame` are replaced by an elapsed time and a
  "request another frame" flag.
- Native calls are recorded as data, never performed. This covers
  `element.focus()`, `blur()`, `click()` and the scroll writes.
- DOM primitives are uninterpreted functions of the document. These are
  selector matching, layout rectangles, `elementFromPoint`, `isFocusable`,
  the computed padding of a scroll container, `isConnected` and
  `isContentEditable`.
- Floating-point arithmetic is modelled as real arithmetic. Rounding error
  and `Infinity` arithmetic are not captured. An infinite scroll speed is
  its own case (`Instant`).
- The keyboard and gamepad polling loops of src/input are left out, as is
  the browser gamepad API. The wrapper is given one pad reading per poll.
- The `console.warn` inside `bubbleEvent` is left out. The loop condition
  already excludes the case it guards.
- The `arc-selected` CSS class is the set of marked elements, not a class
  list.
- `IElementStore` is abstracted. The singleton keeps only which services
  it holds, and the native element store is left out.
- SmoothScrolling.Animate: requires a positive scroll speed. The constructor
  accepts any speed; a speed of 0 makes the duration Infinity and the
  animation never ends, and a negative speed makes the duration negative.
  Neither case is modelled, since it needs IEEE floating point. The easing
  function is a parameter of `Frame`, so custom easings are covered there.
- The smooth scrolling algorithm calls `horizontalDelta` with two
  arguments. The model passes the viewport width, as its vertical
  counterpart does.
- Rescroll.Animate: its contract does not state the axis of a jump. That is
  stated by `Rescroll.CorrectedKeepsAxis`. The frames themselves, and their
  interleaving when several animations write to the same element, are not
  modelled: an animation is recorded with the element its frames write to.
- FocusByRaycast.SearchPointDistance: its contract states only the bounds
  the probe loop relies on, not the exact quotient.
- ArcExclude.ExcludeFrom: the corrected loop stops when the context
  answers an element it already ignores. The loop as written never stops
  in that case (see Findings).

## Findings

| source | as written | input that shows it | evidently intended | confidence | as-written member | corrected member |
|---|---|---|---|---|---|---|
| src/arc-focus-event.ts:19-22 | `ArcEvent`'s constructor assigns `this.next`, which runs `ArcFocusEvent`'s setter and stops propagation, so every new focus event starts stopped and `sendButton` skips every `onButton`, `onOutgoing` and `onIncoming` handler | a focus trap on the selected element, Right pressed with `next` outside the trap: the trap's veto never runs and focus leaves the trap | a new focus event starts with propagation running, as a plain `ArcEvent` does | not executed; assumes TypeScript's emit without `useDefineForClassFields`, under which the base constructor's assignment reaches the subclass setter | Events.ArcEvent.FocusEventAsWritten, Dispatch.AsWrittenSkipsHandlers | Events.ArcEvent.FocusEvent, Dispatch.TrapHoldsFocus |
| src/state/state-container.ts:36-40 | `add` on an element that already has records only ever increments `excludedDeepCount` | register `{exclude: true}` for an element, then register `{exclude: false}` for it under the same key: the counter stays 1 while no element excludes | the counter moves down as well as up and always equals the number of excluding elements | not executed | StateContainers.AddAsWrittenStaleCount | StateContainers.AddKeepsCount, StateContainers.StateContainer.Add |
| src/state/state-container.ts:52-61 | `remove` only ever decrements `excludedDeepCount` | with `{exclude: true}` under key 0 and `{exclude: false}` under key 1, remove key 1: the element excludes again but the counter stays 0 | the counter moves up as well as down | not executed | StateContainers.RemoveAsWrittenStaleCount | StateContainers.RemoveKeepsCount, StateContainers.StateContainer.Remove |
| src/scroll/scroll-registry.ts:32-34 | `remove` splices at `findIndex`, which is -1 for an element never added, and `splice(-1, 1)` drops the last container | the default registry and any element other than the scrolling element: the registry becomes empty | removing an unknown element leaves the registry alone | not executed | ScrollRegistries.RemoveUnknownDropsLast, ScrollRegistries.RemoveUnknownFromDefault | ScrollRegistries.RemoveDropsFirstEntry, ScrollRegistries.ScrollRegistry.Remove |
| src/focus/rescroll.ts:40-43 | with an infinite speed, `animate` assigns `scrollTop` whatever the axis | a container that scrolls only horizontally, an element to its left: the horizontal target lands in `scrollTop` | the instant jump writes the property of its own axis | not executed | Rescroll.InstantHorizontalScrollHitsScrollTop, Rescroll.AsWrittenVersusCorrected | Rescroll.CorrectedKeepsAxis, Rescroll.Rescroll |
| src/focus/rescroll.ts:64-117 | the setters passed to `animate` read the single `let parent`, and their frames run from `requestAnimationFrame` after the loop has ended, when `parent` is the container's parent or `null` | speed 1000, the focus root as container, the element below the visible box of a scrolling element inside the root: every frame writes the root's parent's `scrollTop`, the inner element never moves, and with no parent the first frame throws a `TypeError` | each animation scrolls the ancestor it was computed for | not executed | Rescroll.AnimatedScrollMissesInnerScroller, Rescroll.AsWrittenFramesLeaveContainer | Rescroll.RescrollScope, Rescroll.Rescroll |
| src/components/arc-exclude.tsx:49-52 | the exclusion loop asks `find` again with the excluded element ignored, but the registry and raycast strategies do not honour `ignore` | the registry strategy first and an `arcFocusRight` override naming an excluded element, Right pressed: `find` keeps answering that element and the loop never ends | the loop ends, leaving no `next`, once the context answers an element it already ignores | not executed | ArcExclude.RegistryOverrideHangsExclusion | ArcExclude.ExcludeFromResult, ArcExclude.RetryExcluded |
