/**
 * The handler declaration a component registers for an element
 * (`IArcHandler`, src/model.ts), with its callbacks written as data: each
 * callback is an `Action`, an effect on the event it receives.
 */
module Handlers {
  import opened Wrappers
  import opened Dom
  import opened Buttons

  /** An element given directly, or a selector to resolve. */
  datatype Target = Element(node: Node) | Selector(sel: Selector)

  /**
   * What a callback does to the event passed to it. The last three are the
   * closures that ArcFocusTrap, ArcFocusArea and ArcExclude register.
   */
  datatype Action =
    | Noop                                               // a callback with no effect on the event
    | Stop                                               // ev.stopPropagation()
    | Prevent                                            // ev.preventDefault()
    | Redirect(to: Option<Node>)                         // ev.next = to
    | TrapVeto(trap: Node)                               // ArcFocusTrap's onOutgoing
    | AreaRedirect(area: Node, focusIn: Option<Target>)  // ArcFocusArea's onIncoming
    | ExcludeRetry(wrapper: Node, deep: Option<bool>)    // ArcExclude's onIncoming

  /**
   * `IArcHandler`. An absent optional field is `None`; the three chained
   * callbacks hold the list of actions they run, empty when absent.
   */
  datatype Handler = Handler(
    element: Node,
    excludeThis: Option<bool>,
    exclude: Option<bool>,
    arcFocusLeft: Option<Target>,
    arcFocusRight: Option<Target>,
    arcFocusUp: Option<Target>,
    arcFocusDown: Option<Target>,
    onOutgoing: seq<Action>,
    onIncoming: seq<Action>,
    onFocus: seq<Action>,
    onButton: Option<Action>)

  /** A handler for `element` that declares nothing. */
  function EmptyHandler(element: Node): Handler
  {
    Handler(element, None, None, None, None, None, None, [], [], [], None)
  }

  /** JavaScript truthiness of an optional boolean field. */
  predicate Truthy(b: Option<bool>)
  {
    b == Some(true)
  }

  /** The `arcFocus*` override a handler declares for a button. */
  function FocusOverride(h: Handler, b: Button): (t: Option<Target>)
    ensures !b.IsDirectional() ==> t.None?
    ensures b == Left ==> t == h.arcFocusLeft
    ensures b == Right ==> t == h.arcFocusRight
    ensures b == Up ==> t == h.arcFocusUp
    ensures b == Down ==> t == h.arcFocusDown
  {
    match b
    case Left => h.arcFocusLeft
    case Right => h.arcFocusRight
    case Up => h.arcFocusUp
    case Down => h.arcFocusDown
    case _ => None
  }
}
