/**
 * ArcFocusTrap (src/components/arc-focus-trap.tsx): the `onOutgoing` veto
 * it registers, and where focus goes when it mounts and unmounts.
 */
module ArcFocusTrap {
  import opened Wrappers
  import opened Dom
  import opened Handlers
  import opened Targets
  import opened Events
  import opened ElementStateRecords
  import opened StateContainers

  /** The veto: a non-null `next` outside the trap element prevents the default. */
  function TrapOutgoing(doc: Document, trap: Node, e: EventState): EventState
  {
    if e.next.Some? && !doc.Contains(trap, e.next.value) then Prevented(e) else e
  }

  /**
   * The veto fires exactly when `next` is non-null and outside the trap;
   * it never moves `next` and touches no other flag.
   */
  lemma TrapVetoesExactly(doc: Document, trap: Node, e: EventState)
    ensures var r := TrapOutgoing(doc, trap, e);
      r.next == e.next && r.propagationStopped == e.propagationStopped &&
      r.focusContext == e.focusContext &&
      (r.defaultPrevented <==> e.defaultPrevented || (e.next.Some? && !doc.Contains(trap, e.next.value)))
    ensures e.next.None? ==> TrapOutgoing(doc, trap, e) == e
  {
  }

  /** The closure, acting on the event object. */
  method OnOutgoing(doc: Document, trap: Node, ev: ArcEvent)
    modifies ev
    ensures ev.State() == TrapOutgoing(doc, trap, old(ev.State()))
  {
    if ev.next.Some? && !doc.Contains(trap, ev.next.value) {
      ev.PreventDefault();
    }
  }

  /**
   * Where focus goes on mount: nowhere when the active element is already
   * inside the trap, otherwise `findFocusable(trap, focusIn)`.
   */
  function MountFocusTarget(doc: Document, trap: Node, focusIn: Option<Target>): Option<Node>
  {
    if doc.Contains(trap, doc.activeElement) then None else FindFocusable(doc, trap, focusIn)
  }

  /**
   * Where focus goes on unmount: the `focusOut` target when it resolves
   * under the body, otherwise the element active before mount.
   */
  function UnmountFocusTarget(doc: Document, focusOut: Option<Target>, previouslyFocused: Node): Node
  {
    match FindElement(doc, doc.body, focusOut)
    case Some(t) => t
    case None => previouslyFocused
  }

  /**
   * The mount choice leaves focus alone when it is already trapped; from
   * outside it prefers `focusIn`, then the first `[tabIndex]` descendant.
   */
  lemma MountFocus(doc: Document, trap: Node, focusIn: Option<Target>)
    ensures doc.Contains(trap, doc.activeElement) ==> MountFocusTarget(doc, trap, focusIn).None?
    ensures !doc.Contains(trap, doc.activeElement) && FindElement(doc, trap, focusIn).Some? ==>
      MountFocusTarget(doc, trap, focusIn) == FindElement(doc, trap, focusIn)
    ensures !doc.Contains(trap, doc.activeElement) && focusIn.None? ==>
      MountFocusTarget(doc, trap, focusIn) == doc.QuerySelector(trap, TabIndexSelector)
  {
  }

  /** The unmount choice: a resolving `focusOut` wins, and an absent one restores the previous element. */
  lemma UnmountFocus(doc: Document, focusOut: Option<Target>, previouslyFocused: Node)
    ensures focusOut.None? ==> UnmountFocusTarget(doc, focusOut, previouslyFocused) == previouslyFocused
    ensures focusOut.Some? && focusOut.value.Element? ==>
      UnmountFocusTarget(doc, focusOut, previouslyFocused) == focusOut.value.node
    ensures FindElement(doc, doc.body, focusOut).None? ==>
      UnmountFocusTarget(doc, focusOut, previouslyFocused) == previouslyFocused
  {
  }

  /** The handler the trap registers for its element. */
  function TrapHandler(trap: Node): Handler
  {
    EmptyHandler(trap).(onOutgoing := [TrapVeto(trap)])
  }

  /** The component: its key in the registry, its element and props, and the element active before mount. */
  class FocusTrap {
    const key: Key
    const element: Node
    const focusIn: Option<Target>
    const focusOut: Option<Target>
    var previouslyFocusedElement: Node

    constructor (key: Key, element: Node, focusIn: Option<Target>, focusOut: Option<Target>, activeElement: Node)
      ensures this.key == key && this.element == element
      ensures this.focusIn == focusIn && this.focusOut == focusOut
      ensures previouslyFocusedElement == activeElement
    {
      this.key := key;
      this.element := element;
      this.focusIn := focusIn;
      this.focusOut := focusOut;
      this.previouslyFocusedElement := activeElement;
    }

    /** `componentWillMount`: remembers the active element. */
    method WillMount(doc: Document)
      modifies this
      ensures previouslyFocusedElement == doc.activeElement
    {
      previouslyFocusedElement := doc.activeElement;
    }

    /**
     * `componentDidMount`: registers the veto and answers the element to
     * focus once the deferred check runs (`doc` is the document then).
     */
    method DidMount(doc: Document, state: StateContainer) returns (focus: Option<Node>)
      requires state.Valid()
      modifies state, state.Repr
      ensures state.Valid() && fresh(state.Repr - old(state.Repr))
      ensures state.registrations == AddRegistration(old(state.registrations), key, TrapHandler(element))
      ensures old(state.CountAccurate()) ==> state.CountAccurate()
      ensures focus == MountFocusTarget(doc, element, focusIn)
    {
      focus := None;
      if !doc.Contains(element, doc.activeElement) {
        focus := FindFocusable(doc, element, focusIn);
      }
      state.Add(key, TrapHandler(element));
    }

    /**
     * `componentWillUnmount`: removes the registration first, then answers
     * the element to focus.
     */
    method WillUnmount(doc: Document, state: StateContainer) returns (focus: Node)
      requires state.Valid()
      modifies state, state.Repr
      ensures state.Valid()
      ensures state.registrations == RemoveRegistration(old(state.registrations), key, element)
      ensures old(state.CountAccurate()) ==> state.CountAccurate()
      ensures focus == UnmountFocusTarget(doc, focusOut, previouslyFocusedElement)
    {
      state.Remove(key, element);
      var target := FindElement(doc, doc.body, focusOut);
      if target.Some? {
        return target.value;
      }
      return previouslyFocusedElement;
    }
  }
}
