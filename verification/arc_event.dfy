/**
 * `ArcEvent` (src/arc-event.ts), `ArcFocusEvent` (src/arc-focus-event.ts)
 * and the flag helpers `propogationStoped` / `resetEvent`
 * (src/internal-types.ts).
 *
 * `EventState` is the value of an event's fields; the `ArcEvent` class is
 * the mutable object, whose methods are proved against the functions on
 * `EventState`.
 */
module Events {
  import opened Wrappers
  import opened Dom
  import opened Buttons
  import opened Handlers
  import opened FocusIndex

  /**
   * The fields of an event. `focusContext` is present exactly for an
   * `ArcFocusEvent`.
   */
  datatype EventState = EventState(
    directive: Option<Handler>,
    event: Button,
    target: Option<Node>,
    next: Option<Node>,
    defaultPrevented: bool,
    propagationStopped: bool,
    focusContext: Option<FocusContext>)
  {
    predicate IsFocusEvent() { focusContext.Some? }
  }

  /** `new ArcEvent(options)`: both flags start false. */
  function NewArcEvent(directive: Option<Handler>, event: Button, target: Option<Node>, next: Option<Node>): (e: EventState)
    ensures e.directive == directive && e.event == event && e.target == target && e.next == next
    ensures !e.defaultPrevented && !e.propagationStopped && !e.IsFocusEvent()
  {
    EventState(directive, event, target, next, false, false, None)
  }

  /**
   * `new ArcFocusEvent(options)` as it evidently should behave: the options
   * are copied and both flags start false.
   */
  function NewFocusEvent(directive: Option<Handler>, event: Button, target: Node, next: Option<Node>, ctx: FocusContext): (e: EventState)
    ensures e.directive == directive && e.event == event && e.target == Some(target) && e.next == next
    ensures !e.defaultPrevented && !e.propagationStopped && e.focusContext == Some(ctx)
  {
    EventState(directive, event, Some(target), next, false, false, Some(ctx))
  }

  /** `stopPropagation()`. */
  function Stopped(e: EventState): (r: EventState)
    ensures r.propagationStopped
  {
    e.(propagationStopped := true)
  }

  /** `preventDefault()`. */
  function Prevented(e: EventState): (r: EventState)
    ensures r.defaultPrevented
  {
    e.(defaultPrevented := true)
  }

  /** Assigning `next`: a plain field on `ArcEvent`; the `ArcFocusEvent` setter also stops propagation. */
  function WithNext(e: EventState, n: Option<Node>): (r: EventState)
    ensures r.next == n
  {
    if e.IsFocusEvent() then e.(next := n, propagationStopped := true) else e.(next := n)
  }

  /** `resetEvent(ev)`: clears both flags. */
  function Cleared(e: EventState): (r: EventState)
    ensures !r.defaultPrevented && !r.propagationStopped
  {
    e.(defaultPrevented := false, propagationStopped := false)
  }

  /**
   * `stopPropagation` and `preventDefault` each set their own flag and
   * nothing else, are idempotent, and commute.
   */
  lemma FlagOperations(e: EventState)
    ensures Stopped(e).propagationStopped && Stopped(e).defaultPrevented == e.defaultPrevented
    ensures Stopped(e).next == e.next && Stopped(e).(propagationStopped := e.propagationStopped) == e
    ensures Prevented(e).defaultPrevented && Prevented(e).propagationStopped == e.propagationStopped
    ensures Prevented(e).next == e.next && Prevented(e).(defaultPrevented := e.defaultPrevented) == e
    ensures Stopped(Stopped(e)) == Stopped(e) && Prevented(Prevented(e)) == Prevented(e)
    ensures Stopped(Prevented(e)) == Prevented(Stopped(e))
  {
  }

  /**
   * Assigning `next` stores it and leaves `defaultPrevented` alone; on a
   * focus event it also stops propagation, on a plain event it does not.
   */
  lemma AssignNext(e: EventState, n: Option<Node>)
    ensures WithNext(e, n).next == n && WithNext(e, n).defaultPrevented == e.defaultPrevented
    ensures WithNext(e, n).propagationStopped <==> e.propagationStopped || e.IsFocusEvent()
    ensures WithNext(e, n).IsFocusEvent() == e.IsFocusEvent()
  {
  }

  /** A second assignment of `next` overwrites the first. */
  lemma AssignNextTwice(e: EventState, a: Option<Node>, b: Option<Node>)
    ensures WithNext(WithNext(e, a), b) == WithNext(e, b)
  {
  }

  /** `resetEvent` clears both flags and keeps `next` (and everything else). */
  lemma ResetKeepsNext(e: EventState)
    ensures Cleared(e).next == e.next && Cleared(e).focusContext == e.focusContext
    ensures Cleared(e).(defaultPrevented := e.defaultPrevented, propagationStopped := e.propagationStopped) == e
    ensures Cleared(Stopped(Prevented(e))) == Cleared(e)
  {
  }

  /** The event object. */
  class ArcEvent {
    const directive: Option<Handler>
    const event: Button
    const target: Option<Node>
    const focusContext: Option<FocusContext>
    var next: Option<Node>
    var defaultPrevented: bool
    var propagationStopped: bool

    function State(): EventState
      reads this
    {
      EventState(directive, event, target, next, defaultPrevented, propagationStopped, focusContext)
    }

    /** `new ArcEvent(options)`. */
    constructor (directive: Option<Handler>, event: Button, target: Option<Node>, next: Option<Node>)
      ensures State() == NewArcEvent(directive, event, target, next)
    {
      this.directive := directive;
      this.event := event;
      this.target := target;
      this.focusContext := None;
      this.defaultPrevented := false;
      this.propagationStopped := false;
      this.next := next;
    }

    /**
     * `new ArcFocusEvent(options)` as written: the base constructor's
     * `this.next = options.next` runs while the object is already an
     * `ArcFocusEvent`, so it goes through the stopping setter, and the new
     * event starts with propagation stopped.
     */
    constructor FocusEventAsWritten(directive: Option<Handler>, event: Button, target: Node, next: Option<Node>, ctx: FocusContext)
      ensures State() == Stopped(NewFocusEvent(directive, event, target, next, ctx))
    {
      this.directive := directive;
      this.event := event;
      this.target := Some(target);
      this.focusContext := Some(ctx);
      this.defaultPrevented := false;
      this.propagationStopped := false;
      new;
      SetNext(next);
    }

    /** `new ArcFocusEvent(options)` with both flags false, as the class's documentation intends. */
    constructor FocusEvent(directive: Option<Handler>, event: Button, target: Node, next: Option<Node>, ctx: FocusContext)
      ensures State() == NewFocusEvent(directive, event, target, next, ctx)
    {
      this.directive := directive;
      this.event := event;
      this.target := Some(target);
      this.focusContext := Some(ctx);
      this.defaultPrevented := false;
      this.propagationStopped := false;
      this.next := next;
    }

    /** `stopPropagation()`. */
    method StopPropagation()
      modifies this
      ensures State() == Stopped(old(State()))
    {
      propagationStopped := true;
    }

    /** `preventDefault()`. */
    method PreventDefault()
      modifies this
      ensures State() == Prevented(old(State()))
    {
      defaultPrevented := true;
    }

    /** `ev.next = n`; on an `ArcFocusEvent` the setter also calls `stopPropagation()`. */
    method SetNext(n: Option<Node>)
      modifies this
      ensures State() == WithNext(old(State()), n)
    {
      next := n;
      if focusContext.Some? {
        StopPropagation();
      }
    }
  }

  /** `propogationStoped(ev)`: reads the flag. */
  function PropagationStopped(ev: ArcEvent): (b: bool)
    reads ev
    ensures b == ev.State().propagationStopped
  {
    ev.propagationStopped
  }

  /** `resetEvent(ev)`. */
  method ResetEvent(ev: ArcEvent)
    modifies ev
    ensures ev.State() == Cleared(old(ev.State()))
  {
    ev.propagationStopped := false;
    ev.defaultPrevented := false;
  }
}
