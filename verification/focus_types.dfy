/** `IFocusOptions` and the built-in focus strategies (src/focus/index.ts). */
module FocusTypes {
  import opened Wrappers
  import opened Dom
  import opened Buttons
  import opened Handlers

  /** The options every strategy receives. */
  datatype FocusOptions = FocusOptions(
    direction: Button,
    root: Node,
    activeElement: Node,
    previousElement: Node,
    referenceRect: Rect,
    ignore: set<Node>,
    directive: Option<Handler>)

  /** The strategies a FocusContext can chain. */
  datatype Strategy = ByRegistry | ByDistance | ByRaycast
}
