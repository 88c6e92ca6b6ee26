/**
 * `FocusService` (src/focus-service.ts): how a button press is dispatched
 * through the registered handlers and turned into a focus change, a click,
 * or nothing.
 *
 * The functions describe one press on a `View` of the service's fields;
 * the `FocusService` class is proved against them.
 */
module Dispatch {
  import opened Wrappers
  import opened Dom
  import opened Buttons
  import opened Handlers
  import opened FocusTypes
  import opened FocusIndex
  import opened Events
  import opened ElementStateRecords
  import opened StateContainers
  import opened Callbacks
  import opened FormGuard
  import opened Rescroll
  import ArcFocusTrap

  /** `maxFocusInterations`. */
  const MaxFocusIterations: nat := 10

  /** The reference rect before anything was selected. */
  const InitialReferenceRect: Rect := Rect(top := -1.0, left := -1.0, width := 0.0, height := 0.0, bottom := -1.0, right := -1.0)

  /** The handler field an event bubbles to. */
  datatype Trigger = OnButton | OnOutgoing | OnIncoming

  /** The callbacks a resolved handler holds for a trigger, in calling order. */
  function CallbacksOf(h: Handler, t: Trigger): seq<Action>
  {
    match t
    case OnButton => if h.onButton.Some? then [h.onButton.value] else []
    case OnOutgoing => h.onOutgoing
    case OnIncoming => h.onIncoming
  }

  /** A call to `rescroll(el, rect, speed, root)`. */
  datatype ScrollRequest = ScrollRequest(el: Node, rect: Rect, speed: Speed)

  /**
   * The service's fields: the selected element (the element store's
   * `element`), the previously selected one, the cached reference rect,
   * and the clicks and rescrolls it has issued.
   */
  datatype View = View(
    selected: Node,
    previousSelected: Node,
    referenceRect: Rect,
    clicks: seq<Node>,
    scrolls: seq<ScrollRequest>)

  /** What `sendButton` returns, and the fields afterwards. */
  datatype Outcome = Outcome(handled: bool, view: View)

  /**
   * `bubbleEvent(ev, trigger, source)`: from the source up through its
   * ancestors, calling each registered handler's callbacks, until the
   * root (whose handler is not called), the top of the tree, or a stopped
   * propagation.
   */
  function Bubble(doc: Document, regs: Registrations, root: Node, t: Trigger, e: EventState, el: Option<Node>): Result<EventState, string>
    decreases if el.Some? then el.value + 1 else 0
  {
    if e.propagationStopped || el == Some(root) || el.None? then Ok(e)
    else
      var up := doc.ParentElement(el.value);
      match Lookup(regs, el.value)
      case None => Bubble(doc, regs, root, t, e, up)
      case Some(h) =>
        match RunChain(doc, CallbacksOf(h, t), e).result
        case Err(m) => Err(m)
        case Ok(e1) => Bubble(doc, regs, root, t, e1, up)
  }

  /**
   * `bubbleInOut(ev, selected)`: `onOutgoing` from the selected element
   * when it is under the root; unless that prevented the default or moved
   * `next`, `onIncoming` from `next`. The answer is the event's
   * `defaultPrevented` afterwards.
   */
  function BubbleInOutSpec(doc: Document, regs: Registrations, root: Node, e: EventState, selected: Node): Result<EventState, string>
  {
    var out := if IsNodeAttached(doc, Some(selected), Some(root)) then Bubble(doc, regs, root, OnOutgoing, e, Some(selected)) else Ok(e);
    match out
    case Err(m) => Err(m)
    case Ok(e1) =>
      if e1.defaultPrevented || e.next != e1.next then Ok(e1)
      else if e1.next.Some? then Bubble(doc, regs, root, OnIncoming, e1, e1.next)
      else Ok(e1)
  }

  /** `selectNodeWithoutEvent(next, speed)`. */
  function SelectNodeWithoutEventSpec(doc: Document, v: View, next: Node, speed: Speed): View
  {
    if v.selected == next then v
    else v.(referenceRect := doc.rect(next),
            scrolls := v.scrolls + [ScrollRequest(next, doc.rect(next), speed)],
            previousSelected := v.selected,
            selected := next)
  }

  /** `selectNode(next, speed)`: ignored for a node outside the root. */
  function SelectNodeSpec(doc: Document, root: Node, v: View, next: Node, speed: Speed): View
  {
    if !doc.Contains(root, next) then v else SelectNodeWithoutEventSpec(doc, v, next, speed)
  }

  /**
   * `defaultFires(ev)`: a prevented event is handled; a focus event with a
   * `next` selects it; Submit clicks the selected element; anything else
   * is not handled.
   */
  function DefaultFiresSpec(doc: Document, root: Node, v: View, e: EventState, speed: Speed): Outcome
  {
    if e.defaultPrevented then Outcome(true, v)
    else if e.IsFocusEvent() && e.next.Some? then Outcome(true, SelectNodeSpec(doc, root, v, e.next.value, speed))
    else if e.event == Submit then Outcome(true, v.(clicks := v.clicks + [v.selected]))
    else Outcome(false, v)
  }

  /**
   * The `for` loop of `sendButton` from iteration `i`: bubble out and in;
   * a prevented event is handled; an unchanged `next` fires the default;
   * a moved `next` becomes the new baseline, the flags are cleared, and the
   * loop goes round, at most `MaxFocusIterations` times in all.
   */
  function RedirectLoopSpec(doc: Document, regs: Registrations, root: Node, v: View, speed: Speed,
                        e: EventState, originalNext: Option<Node>, i: nat): Result<Outcome, string>
    decreases MaxFocusIterations - i
  {
    if i >= MaxFocusIterations then Err("Max iterations exceeded")
    else
      match BubbleInOutSpec(doc, regs, root, e, v.selected)
      case Err(m) => Err(m)
      case Ok(e1) =>
        if e1.defaultPrevented then Ok(Outcome(true, v))
        else if originalNext == e1.next then Ok(DefaultFiresSpec(doc, root, v, e1, speed))
        else RedirectLoopSpec(doc, regs, root, v, speed, Cleared(e1), e1.next, i + 1)
  }

  /** Everything `sendButton` does once the event `e0` exists. */
  function Dispatch(doc: Document, regs: Registrations, root: Node, v: View, speed: Speed, e0: EventState): Result<Outcome, string>
  {
    match Bubble(doc, regs, root, OnButton, e0, Some(v.selected))
    case Err(m) => Err(m)
    case Ok(e) =>
      if e.defaultPrevented then Ok(Outcome(true, v))
      else if !e.IsFocusEvent() then Ok(DefaultFiresSpec(doc, root, v, e, speed))
      else RedirectLoopSpec(doc, regs, root, v, speed, e, e.next, 0)
  }

  /**
   * What the focus context of a directional press knows: the selected
   * element and its handler, the previously selected element, and the
   * selected element's rect when it is under the root, else the cached one.
   */
  function PressSource(doc: Document, regs: Registrations, root: Node, v: View): Source
  {
    Source(
      activeElement := v.selected,
      directive := Lookup(regs, v.selected),
      referenceRect := if doc.Contains(root, v.selected) then doc.rect(v.selected) else v.referenceRect,
      previousElement := Some(v.previousSelected))
  }

  /**
   * `createArcEvent(direction, selected)`: a plain event for a
   * non-directional button; otherwise a focus event whose `next` is the
   * context's answer under the root.
   */
  function CreateEvent(doc: Document, regs: Registrations, root: Node, strategies: seq<Strategy>, v: View, b: Button): Result<EventState, string>
  {
    if !b.IsDirectional() then Ok(NewArcEvent(Lookup(regs, v.selected), b, Some(v.selected), None))
    else
      var ctx := FocusContext(root, b, strategies, PressSource(doc, regs, root, v));
      match Find(doc, ctx, Some(root), {})
      case Err(m) => Err(m)
      case Ok(next) => Ok(NewFocusEvent(Lookup(regs, v.selected), b, v.selected, next, ctx))
  }

  /** `sendButton(direction)`; an `Err` is a thrown error. */
  function SendButtonSpec(doc: Document, regs: Registrations, root: Node, strategies: seq<Strategy>,
                          v: View, b: Button, speed: Speed): Result<Outcome, string>
  {
    if IsForFormSpec(doc, b, Some(v.selected)) then Ok(Outcome(false, v))
    else
      match CreateEvent(doc, regs, root, strategies, v, b)
      case Err(m) => Err(m)
      case Ok(e0) => Dispatch(doc, regs, root, v, speed, e0)
  }

  /** A stopped event reaches no handler. */
  lemma BubbleStopped(doc: Document, regs: Registrations, root: Node, t: Trigger, e: EventState, el: Option<Node>)
    requires e.propagationStopped
    ensures Bubble(doc, regs, root, t, e, el) == Ok(e)
  {
  }

  /** Bubbling keeps the event's identity and never clears a flag. */
  lemma {:induction false} BubbleEvolves(doc: Document, regs: Registrations, root: Node, t: Trigger, e: EventState, el: Option<Node>)
    ensures Bubble(doc, regs, root, t, e, el).Ok? ==> Evolves(e, Bubble(doc, regs, root, t, e, el).value)
    decreases if el.Some? then el.value + 1 else 0
  {
    if !(e.propagationStopped || el == Some(root) || el.None?) {
      var up := doc.ParentElement(el.value);
      match Lookup(regs, el.value)
      case None => BubbleEvolves(doc, regs, root, t, e, up);
      case Some(h) =>
        ChainEvolves(doc, CallbacksOf(h, t), e);
        var r := RunChain(doc, CallbacksOf(h, t), e).result;
        if r.Ok? {
          BubbleEvolves(doc, regs, root, t, r.value, up);
        }
    }
  }

  /**
   * Where no handler at or above the source (every ancestor precedes it
   * in document order) has a callback for the trigger, bubbling changes
   * nothing.
   */
  lemma {:induction false} BubbleWithoutCallbacks(doc: Document, regs: Registrations, root: Node, t: Trigger, e: EventState, el: Option<Node>)
    requires forall n: Node :: el.Some? && n <= el.value ==> Lookup(regs, n).None? || CallbacksOf(Lookup(regs, n).value, t) == []
    ensures Bubble(doc, regs, root, t, e, el) == Ok(e)
    decreases if el.Some? then el.value + 1 else 0
  {
    if !(e.propagationStopped || el == Some(root) || el.None?) {
      BubbleWithoutCallbacks(doc, regs, root, t, e, doc.ParentElement(el.value));
    }
  }

  /**
   * From a source under the root, bubbling consults only the handlers of
   * nodes strictly inside the root: the root's own handler, and anything
   * above it, is never called.
   */
  lemma {:induction false} BubbleStaysBelowRoot(doc: Document, regs: Registrations, regs': Registrations, root: Node,
                                               t: Trigger, e: EventState, el: Option<Node>)
    requires el.Some? ==> doc.Contains(root, el.value)
    requires forall n :: doc.ProperlyContains(root, n) ==> Lookup(regs, n) == Lookup(regs', n)
    ensures Bubble(doc, regs, root, t, e, el) == Bubble(doc, regs', root, t, e, el)
    decreases if el.Some? then el.value + 1 else 0
  {
    if !(e.propagationStopped || el == Some(root) || el.None?) {
      var n := el.value;
      assert doc.ProperlyContains(root, n);
      var up := doc.ParentElement(n);
      assert up.Some? && doc.Contains(root, up.value);
      match Lookup(regs, n)
      case None => BubbleStaysBelowRoot(doc, regs, regs', root, t, e, up);
      case Some(h) =>
        var r := RunChain(doc, CallbacksOf(h, t), e).result;
        if r.Ok? {
          BubbleStaysBelowRoot(doc, regs, regs', root, t, r.value, up);
        }
    }
  }

  /** In particular, whatever the root registers does not change a bubble from under it. */
  lemma RootHandlerNeverCalled(doc: Document, regs: Registrations, root: Node, records: seq<Entry>,
                               t: Trigger, e: EventState, el: Option<Node>)
    requires el.Some? ==> doc.Contains(root, el.value)
    ensures Bubble(doc, regs[root := records], root, t, e, el) == Bubble(doc, regs, root, t, e, el)
  {
    BubbleStaysBelowRoot(doc, regs[root := records], regs, root, t, e, el);
  }

  /**
   * The form guard comes first: a press that belongs to a form control is
   * not handled and nothing happens.
   */
  lemma FormGuardFirst(doc: Document, regs: Registrations, root: Node, strategies: seq<Strategy>, v: View, b: Button, speed: Speed)
    requires IsForFormSpec(doc, b, Some(v.selected))
    ensures SendButtonSpec(doc, regs, root, strategies, v, b, speed) == Ok(Outcome(false, v))
  {
  }

  /**
   * An event whose default was prevented by an `onButton` handler is
   * handled and changes nothing.
   */
  lemma ButtonPreventedIsHandled(doc: Document, regs: Registrations, root: Node, v: View, speed: Speed, e0: EventState)
    requires Bubble(doc, regs, root, OnButton, e0, Some(v.selected)).Ok?
    requires Bubble(doc, regs, root, OnButton, e0, Some(v.selected)).value.defaultPrevented
    ensures Dispatch(doc, regs, root, v, speed, e0) == Ok(Outcome(true, v))
  {
  }

  /**
   * A non-directional press that reaches the default action: Submit
   * clicks the selected element and is handled; every other button is
   * not handled; neither moves the focus.
   */
  lemma NonDirectionalDefault(doc: Document, regs: Registrations, root: Node, strategies: seq<Strategy>, v: View, b: Button, speed: Speed)
    requires !b.IsDirectional() && !IsForFormSpec(doc, b, Some(v.selected))
    requires var e := Bubble(doc, regs, root, OnButton, NewArcEvent(Lookup(regs, v.selected), b, Some(v.selected), None), Some(v.selected));
      e.Ok? && !e.value.defaultPrevented
    ensures b == Submit ==> SendButtonSpec(doc, regs, root, strategies, v, b, speed) == Ok(Outcome(true, v.(clicks := v.clicks + [v.selected])))
    ensures b != Submit ==> SendButtonSpec(doc, regs, root, strategies, v, b, speed) == Ok(Outcome(false, v))
  {
    var e0 := NewArcEvent(Lookup(regs, v.selected), b, Some(v.selected), None);
    BubbleEvolves(doc, regs, root, OnButton, e0, Some(v.selected));
  }

  /**
   * The default action of a focus event with a `next` is handled even when
   * `selectNode` ignores a node outside the root; one without a `next`, for
   * a directional button, is not handled.
   */
  lemma DefaultFiresOnNext(doc: Document, root: Node, v: View, e: EventState, speed: Speed)
    requires !e.defaultPrevented && e.IsFocusEvent()
    ensures e.next.Some? ==> DefaultFiresSpec(doc, root, v, e, speed).handled
    ensures e.next.Some? && !doc.Contains(root, e.next.value) ==> DefaultFiresSpec(doc, root, v, e, speed) == Outcome(true, v)
    ensures e.next.None? && e.event.IsDirectional() ==> DefaultFiresSpec(doc, root, v, e, speed) == Outcome(false, v)
  {
  }

  /**
   * `selectNode` of a new node under the root selects it, remembers the
   * old selection, caches the node's rect and asks for one rescroll; the
   * selected node itself, or a node outside the root, changes nothing.
   */
  lemma SelectNodeEffect(doc: Document, root: Node, v: View, next: Node, speed: Speed)
    ensures var w := SelectNodeSpec(doc, root, v, next, speed);
      (doc.Contains(root, next) && next != v.selected ==>
        w.selected == next && w.previousSelected == v.selected && w.referenceRect == doc.rect(next) &&
        w.clicks == v.clicks && w.scrolls == v.scrolls + [ScrollRequest(next, doc.rect(next), speed)]) &&
      (!doc.Contains(root, next) || next == v.selected ==> w == v)
  {
  }

  /** Registrations where `a` redirects incoming focus to `b`, and `b` back to `a`. */
  function PingPong(a: Node, b: Node): Registrations
  {
    map[a := [Entry(0, EmptyHandler(a).(onIncoming := [Redirect(Some(b))]))],
        b := [Entry(1, EmptyHandler(b).(onIncoming := [Redirect(Some(a))]))]]
  }

  /**
   * Two elements that keep redirecting focus to each other make `next`
   * change on every pass, and the loop gives up with 'Max iterations
   * exceeded' after `MaxFocusIterations` passes.
   */
  lemma {:induction false} PingPongExceedsIterations(doc: Document, root: Node, v: View, speed: Speed,
                                                    a: Node, b: Node, e: EventState, i: nat)
    requires a != b && a != root && b != root
    requires e.IsFocusEvent() && !e.defaultPrevented && !e.propagationStopped
    requires e.next == Some(a) || e.next == Some(b)
    ensures RedirectLoopSpec(doc, PingPong(a, b), root, v, speed, e, e.next, i) == Err("Max iterations exceeded")
    decreases MaxFocusIterations - i
  {
    if i < MaxFocusIterations {
      var other := if e.next == Some(a) then b else a;
      PingPongRedirects(doc, root, v, a, b, e);
      PingPongExceedsIterations(doc, root, v, speed, a, b, Cleared(WithNext(e, Some(other))), i + 1);
    }
  }

  /** One pass of the ping-pong: the incoming handler of `next` sends focus to the other element. */
  lemma PingPongRedirects(doc: Document, root: Node, v: View, a: Node, b: Node, e: EventState)
    requires a != b && a != root && b != root
    requires e.IsFocusEvent() && !e.defaultPrevented && !e.propagationStopped
    requires e.next == Some(a) || e.next == Some(b)
    ensures BubbleInOutSpec(doc, PingPong(a, b), root, e, v.selected) ==
      Ok(WithNext(e, Some(if e.next == Some(a) then b else a)))
  {
    var regs := PingPong(a, b);
    var x := e.next.value;
    var other := if x == a then b else a;
    assert Lookup(regs, x) == Some(regs[x][0].handler);
    BubbleWithoutCallbacks(doc, regs, root, OnOutgoing, e, Some(v.selected));
    var e1 := WithNext(e, Some(other));
    assert RunChain(doc, [Redirect(Some(other))], e) == Run(Ok(e1), 1);
    assert Bubble(doc, regs, root, OnIncoming, e, Some(x)) == Ok(e1);
  }

  /**
   * With the `ArcFocusEvent` constructor as written, the event starts with
   * propagation stopped, so no `onButton`, `onOutgoing` or `onIncoming`
   * handler is ever called and the press goes straight to the default
   * action, whatever is registered.
   */
  lemma AsWrittenSkipsHandlers(doc: Document, regs: Registrations, root: Node, v: View, speed: Speed, e0: EventState)
    requires e0.IsFocusEvent() && !e0.defaultPrevented
    ensures Dispatch(doc, regs, root, v, speed, Stopped(e0)) == Ok(DefaultFiresSpec(doc, root, v, Stopped(e0), speed))
  {
    var e := Stopped(e0);
    BubbleStopped(doc, regs, root, OnButton, e, Some(v.selected));
    BubbleStopped(doc, regs, root, OnOutgoing, e, Some(v.selected));
    BubbleStopped(doc, regs, root, OnIncoming, e, e.next);
    assert BubbleInOutSpec(doc, regs, root, e, v.selected) == Ok(e);
  }

  /**
   * A focus trap around the selected element holds the focus when the
   * event starts with both flags clear: the veto prevents the move and the
   * press is handled without selecting anything. With the constructor as
   * written the same press leaves the trap.
   */
  lemma TrapHoldsFocus(doc: Document, root: Node, v: View, speed: Speed, key: Key, e0: EventState)
    requires doc.ProperlyContains(root, v.selected)
    requires e0.IsFocusEvent() && !e0.defaultPrevented && !e0.propagationStopped
    requires e0.next.Some? && !doc.Contains(v.selected, e0.next.value)
    ensures var regs := map[v.selected := [Entry(key, ArcFocusTrap.TrapHandler(v.selected))]];
      Dispatch(doc, regs, root, v, speed, e0) == Ok(Outcome(true, v)) &&
      Dispatch(doc, regs, root, v, speed, Stopped(e0)) == Ok(Outcome(true, SelectNodeSpec(doc, root, v, e0.next.value, speed)))
  {
    var t := v.selected;
    var regs := map[t := [Entry(key, ArcFocusTrap.TrapHandler(t))]];
    assert Lookup(regs, t) == Some(ArcFocusTrap.TrapHandler(t));
    BubbleWithoutCallbacks(doc, regs, root, OnButton, e0, Some(t));
    var vetoed := Prevented(e0);
    assert RunChain(doc, [TrapVeto(t)], e0) == Run(Ok(vetoed), 1);
    var up := doc.ParentElement(t);
    assert Bubble(doc, regs, root, OnOutgoing, e0, Some(t)) == Bubble(doc, regs, root, OnOutgoing, vetoed, up);
    BubbleWithoutCallbacks(doc, regs, root, OnOutgoing, vetoed, up);
    assert BubbleInOutSpec(doc, regs, root, e0, t) == Ok(vetoed);
    AsWrittenSkipsHandlers(doc, regs, root, v, speed, e0);
  }

  /**
   * Whether `setDefaultFocus` may pick a `[tabIndex]` element: it is not
   * the current element, it is focusable, and its rounded rect has both a
   * width and a height.
   */
  predicate DefaultFocusEligible(doc: Document, current: Node, n: Node)
  {
    n != current && doc.isFocusable(n) &&
    RoundRect(doc.rect(n)).width != 0.0 && RoundRect(doc.rect(n)).height != 0.0
  }

  /** The first eligible element of a list. */
  function FirstEligible(doc: Document, current: Node, elems: seq<Node>): (r: Option<Node>)
    ensures r.Some? ==> exists i :: 0 <= i < |elems| && elems[i] == r.value && DefaultFocusEligible(doc, current, elems[i]) &&
                          forall j :: 0 <= j < i ==> !DefaultFocusEligible(doc, current, elems[j])
    ensures r.None? ==> forall j :: 0 <= j < |elems| ==> !DefaultFocusEligible(doc, current, elems[j])
  {
    if |elems| == 0 then None
    else if DefaultFocusEligible(doc, current, elems[0]) then Some(elems[0])
    else
      var r := FirstEligible(doc, current, elems[1..]);
      assert forall j :: 1 <= j < |elems| ==> elems[j] == elems[1..][j - 1];
      r
  }

  /** The element `setDefaultFocus` selects, if any. */
  function DefaultFocusTarget(doc: Document, root: Node, current: Node): Option<Node>
  {
    FirstEligible(doc, current, doc.QuerySelectorAll(root, TabIndexSelector))
  }

  /** In a strictly increasing list, the first eligible entry is also the least eligible one. */
  lemma {:induction false} FirstEligibleIsLeast(doc: Document, current: Node, elems: seq<Node>, x: Node)
    requires forall a, b :: 0 <= a < b < |elems| ==> elems[a] < elems[b]
    requires FirstEligible(doc, current, elems) == Some(x)
    ensures x in elems
    ensures forall m :: m in elems && m < x ==> !DefaultFocusEligible(doc, current, m)
  {
    var i :| 0 <= i < |elems| && elems[i] == x && DefaultFocusEligible(doc, current, elems[i]) &&
             forall j :: 0 <= j < i ==> !DefaultFocusEligible(doc, current, elems[j]);
    forall m | m in elems && m < x
      ensures !DefaultFocusEligible(doc, current, m)
    {
      var j :| 0 <= j < |elems| && elems[j] == m;
      assert j < i;
    }
  }

  /**
   * `setDefaultFocus` picks, in document order, the first `[tabIndex]`
   * descendant of the root that is eligible; when it picks nothing, no
   * such descendant is eligible.
   */
  lemma DefaultFocusIsFirstEligible(doc: Document, root: Node, current: Node)
    ensures var r := DefaultFocusTarget(doc, root, current);
      (r.Some? ==>
        doc.IsMatch(root, TabIndexSelector, r.value) && DefaultFocusEligible(doc, current, r.value) &&
        forall m: Node :: m < r.value && doc.IsMatch(root, TabIndexSelector, m) ==> !DefaultFocusEligible(doc, current, m)) &&
      (r.None? ==>
        forall m: Node :: m < doc.size && doc.IsMatch(root, TabIndexSelector, m) ==> !DefaultFocusEligible(doc, current, m))
  {
    var elems := doc.QuerySelectorAll(root, TabIndexSelector);
    var r := DefaultFocusTarget(doc, root, current);
    if r.Some? {
      FirstEligibleIsLeast(doc, current, elems, r.value);
      forall m: Node | m < r.value && doc.IsMatch(root, TabIndexSelector, m)
        ensures !DefaultFocusEligible(doc, current, m)
      {
        assert m in elems;
      }
    } else {
      forall m: Node | m < doc.size && doc.IsMatch(root, TabIndexSelector, m)
        ensures !DefaultFocusEligible(doc, current, m)
      {
        assert m in elems;
      }
    }
  }

  /** The view after `setDefaultFocus`. */
  function SetDefaultFocusSpec(doc: Document, root: Node, v: View, speed: Speed): View
  {
    match DefaultFocusTarget(doc, root, v.selected)
    case Some(n) => SelectNodeSpec(doc, root, v, n, speed)
    case None => v
  }

  /** The service object. `selected` stands for the element store's `element`. */
  class FocusService {
    const registry: StateContainer
    const root: Node
    const strategies: seq<Strategy>
    var selected: Node
    var previousSelectedElement: Node
    var referenceRect: Rect
    var scrollSpeed: Speed
    var clicks: seq<Node>
    var scrolls: seq<ScrollRequest>

    function CurrentView(): View
      reads this
    {
      View.View(selected, previousSelectedElement, referenceRect, clicks, scrolls)
    }

    /**
     * `new FocusService(registry, root, strategies, elementStore)`: the
     * previous element starts as the store's element, then the default
     * focus is set.
     */
    constructor (doc: Document, registry: StateContainer, root: Node, strategies: seq<Strategy>, element: Node)
      ensures this.registry == registry && this.root == root && this.strategies == strategies
      ensures scrollSpeed == PixelsPerSecond(1000.0)
      ensures CurrentView() == SetDefaultFocusSpec(doc, root, View.View(element, element, InitialReferenceRect, [], []), PixelsPerSecond(1000.0))
    {
      this.registry := registry;
      this.root := root;
      this.strategies := strategies;
      this.selected := element;
      this.previousSelectedElement := element;
      this.referenceRect := InitialReferenceRect;
      this.scrollSpeed := PixelsPerSecond(1000.0);
      this.clicks := [];
      this.scrolls := [];
      new;
      SetDefaultFocus(doc, scrollSpeed);
    }

    /** `selectNodeWithoutEvent(next, speed)`. */
    method SelectNodeWithoutEvent(doc: Document, next: Node, speed: Speed)
      modifies this
      ensures CurrentView() == SelectNodeWithoutEventSpec(doc, old(CurrentView()), next, speed)
      ensures scrollSpeed == old(scrollSpeed)
    {
      var previous := selected;
      if previous == next {
        return;
      }
      referenceRect := doc.rect(next);
      scrolls := scrolls + [ScrollRequest(next, referenceRect, speed)];
      previousSelectedElement := previous;
      selected := next;
    }

    /** `selectNode(next, speed)`. */
    method SelectNode(doc: Document, next: Node, speed: Speed)
      modifies this
      ensures CurrentView() == SelectNodeSpec(doc, root, old(CurrentView()), next, speed)
      ensures scrollSpeed == old(scrollSpeed)
    {
      if !doc.Contains(root, next) {
        return;
      }
      SelectNodeWithoutEvent(doc, next, speed);
    }

    /** `setDefaultFocus(speed)`: the loop over the root's `[tabIndex]` descendants. */
    method SetDefaultFocus(doc: Document, speed: Speed)
      modifies this
      ensures CurrentView() == SetDefaultFocusSpec(doc, root, old(CurrentView()), speed)
      ensures scrollSpeed == old(scrollSpeed)
    {
      var focusableElems := doc.QuerySelectorAll(root, TabIndexSelector);
      var i := 0;
      while i < |focusableElems|
        invariant 0 <= i <= |focusableElems|
        invariant FirstEligible(doc, selected, focusableElems[i..]) == DefaultFocusTarget(doc, root, selected)
        invariant CurrentView() == old(CurrentView())
      {
        var potentialElement := focusableElems[i];
        assert focusableElems[i..][1..] == focusableElems[i + 1..];
        if selected == potentialElement || !doc.isFocusable(potentialElement) {
          i := i + 1;
          continue;
        }
        var potentialRect := RoundRect(doc.rect(potentialElement));
        if potentialRect.width == 0.0 || potentialRect.height == 0.0 {
          i := i + 1;
          continue;
        }
        SelectNode(doc, potentialElement, speed);
        return;
      }
    }

    /** `bubbleEvent(ev, trigger, source)`: the walk up from the source. */
    method BubbleEvent(doc: Document, ev: ArcEvent, t: Trigger, source: Option<Node>) returns (err: Option<string>)
      requires registry.Valid()
      modifies ev
      ensures match Bubble(doc, registry.registrations, root, t, old(ev.State()), source)
        case Ok(e) => err.None? && ev.State() == e
        case Err(m) => err == Some(m)
    {
      ghost var goal := Bubble(doc, registry.registrations, root, t, ev.State(), source);
      var el := source;
      while !ev.propagationStopped && el != Some(root) && el.Some?
        invariant Bubble(doc, registry.registrations, root, t, ev.State(), el) == goal
        decreases if el.Some? then el.value + 1 else 0
      {
        var directive := registry.Find(el.value);
        if directive.Some? {
          err := CallForEach(doc, CallbacksOf(directive.value, t), ev);
          if err.Some? {
            return;
          }
        }
        el := doc.ParentElement(el.value);
      }
      return None;
    }

    /** `bubbleInOut(ev, selected)`; the answer is `ev.defaultPrevented`. */
    method BubbleInOut(doc: Document, ev: ArcEvent, selected: Node) returns (err: Option<string>)
      requires registry.Valid()
      modifies ev
      ensures registry.Valid()
      ensures match BubbleInOutSpec(doc, registry.registrations, root, old(ev.State()), selected)
        case Ok(e) => err.None? && ev.State() == e
        case Err(m) => err == Some(m)
    {
      var originalNext := ev.next;
      if IsNodeAttached(doc, Some(selected), Some(root)) {
        err := BubbleEvent(doc, ev, OnOutgoing, Some(selected));
        if err.Some? {
          return;
        }
      }
      if ev.defaultPrevented || originalNext != ev.next {
        return None;
      }
      if ev.next.Some? {
        err := BubbleEvent(doc, ev, OnIncoming, ev.next);
        return;
      }
      return None;
    }

    /** `defaultFires(ev, speed)`. */
    method DefaultFires(doc: Document, ev: ArcEvent, speed: Speed) returns (handled: bool)
      modifies this
      ensures DefaultFiresSpec(doc, root, old(CurrentView()), ev.State(), speed) == Outcome(handled, CurrentView())
      ensures scrollSpeed == old(scrollSpeed)
    {
      if ev.defaultPrevented {
        return true;
      }
      if ev.focusContext.Some? && ev.next.Some? {
        SelectNode(doc, ev.next.value, speed);
        return true;
      } else if ev.event == Submit {
        clicks := clicks + [selected];
        return true;
      }
      return false;
    }

    /** `createArcEvent(direction, selected)`. */
    method CreateArcEvent(doc: Document, b: Button) returns (ev: ArcEvent?, err: Option<string>)
      requires registry.Valid()
      ensures match CreateEvent(doc, registry.registrations, root, strategies, CurrentView(), b)
        case Ok(e) => err.None? && ev != null && fresh(ev) && ev.State() == e
        case Err(m) => err == Some(m)
    {
      var directive := registry.Find(selected);
      if !b.IsDirectional() {
        ev := new ArcEvent(directive, b, Some(selected), None);
        return ev, None;
      }
      var rect := if doc.Contains(root, selected) then doc.rect(selected) else referenceRect;
      var ctx := FocusContext(root, b, strategies, Source(selected, directive, rect, Some(previousSelectedElement)));
      assert ctx == FocusContext(root, b, strategies, PressSource(doc, registry.registrations, root, CurrentView()));
      var next := Find(doc, ctx, Some(root), {});
      if next.Err? {
        return null, Some(next.error);
      }
      ev := new ArcEvent.FocusEvent(directive, b, selected, next.value, ctx);
      return ev, None;
    }

    /** `sendButton(direction)`; an `Err` is a thrown error. */
    method SendButton(doc: Document, b: Button) returns (r: Result<bool, string>)
      requires registry.Valid()
      modifies this
      ensures match SendButtonSpec(doc, registry.registrations, root, strategies, old(CurrentView()), b, old(scrollSpeed))
        case Ok(o) => r == Ok(o.handled) && CurrentView() == o.view
        case Err(m) => r == Err(m)
      ensures scrollSpeed == old(scrollSpeed)
    {
      var form := IsForForm(doc, b, Some(selected));
      if form {
        return Ok(false);
      }
      var ev, err := CreateArcEvent(doc, b);
      if err.Some? {
        return Err(err.value);
      }
      r := DispatchEvent(doc, ev);
    }

    /** The part of `sendButton` after the event is created: `onButton`, then the default action or the redirect loop. */
    method DispatchEvent(doc: Document, ev: ArcEvent) returns (r: Result<bool, string>)
      requires registry.Valid()
      modifies this, ev
      ensures match Dispatch(doc, registry.registrations, root, old(CurrentView()), old(scrollSpeed), old(ev.State()))
        case Ok(o) => r == Ok(o.handled) && CurrentView() == o.view
        case Err(m) => r == Err(m)
      ensures scrollSpeed == old(scrollSpeed)
    {
      var err := BubbleEvent(doc, ev, OnButton, Some(selected));
      if err.Some? {
        return Err(err.value);
      }
      if ev.defaultPrevented {
        return Ok(true);
      }
      if ev.focusContext.None? {
        var handled := DefaultFires(doc, ev, scrollSpeed);
        return Ok(handled);
      }
      r := RedirectLoop(doc, ev);
    }

    /** The bounded redirect loop of `sendButton`. */
    method RedirectLoop(doc: Document, ev: ArcEvent) returns (r: Result<bool, string>)
      requires registry.Valid() && ev.focusContext.Some?
      modifies this, ev
      ensures match RedirectLoopSpec(doc, registry.registrations, root, old(CurrentView()), old(scrollSpeed), old(ev.State()), old(ev.next), 0)
        case Ok(o) => r == Ok(o.handled) && CurrentView() == o.view
        case Err(m) => r == Err(m)
      ensures scrollSpeed == old(scrollSpeed)
    {
      ghost var goal := RedirectLoopSpec(doc, registry.registrations, root, CurrentView(), scrollSpeed, ev.State(), ev.next, 0);
      ghost var v0 := CurrentView();
      var originalNext := ev.next;
      var i := 0;
      var stop := false;
      r := Err("Max iterations exceeded");
      while i < MaxFocusIterations && !stop
        invariant 0 <= i <= MaxFocusIterations && registry.Valid()
        invariant !stop ==> RedirectLoopSpec(doc, registry.registrations, root, v0, scrollSpeed, ev.State(), originalNext, i) == goal
        invariant !stop ==> CurrentView() == v0 && r == Err("Max iterations exceeded")
        invariant stop ==> match goal
          case Ok(o) => r == Ok(o.handled) && CurrentView() == o.view
          case Err(m) => r == Err(m)
        invariant scrollSpeed == old(scrollSpeed)
      {
        stop, r := RedirectRound(doc, ev, originalNext, i);
        originalNext := ev.next;
        i := i + 1;
      }
    }

    /**
     * One round of the redirect loop. When it `stop`s, `r` is the loop's
     * answer; otherwise the event is reset and the loop goes on from the
     * moved `next`.
     */
    method RedirectRound(doc: Document, ev: ArcEvent, originalNext: Option<Node>, ghost i: nat) returns (stop: bool, r: Result<bool, string>)
      requires registry.Valid() && i < MaxFocusIterations
      modifies this, ev
      ensures scrollSpeed == old(scrollSpeed) && registry.Valid()
      ensures stop ==> match RedirectLoopSpec(doc, registry.registrations, root, old(CurrentView()), old(scrollSpeed), old(ev.State()), originalNext, i)
        case Ok(o) => r == Ok(o.handled) && CurrentView() == o.view
        case Err(m) => r == Err(m)
      ensures !stop ==> CurrentView() == old(CurrentView()) && r == Err("Max iterations exceeded")
      ensures !stop ==>
        RedirectLoopSpec(doc, registry.registrations, root, old(CurrentView()), old(scrollSpeed), old(ev.State()), originalNext, i) ==
        RedirectLoopSpec(doc, registry.registrations, root, old(CurrentView()), old(scrollSpeed), ev.State(), ev.next, i + 1)
    {
      var err := BubbleInOut(doc, ev, selected);
      if err.Some? {
        return true, Err(err.value);
      }
      if ev.defaultPrevented {
        return true, Ok(true);
      }
      if originalNext == ev.next {
        var handled := DefaultFires(doc, ev, scrollSpeed);
        return true, Ok(handled);
      }
      ResetEvent(ev);
      return false, Err("Max iterations exceeded");
    }
  }
}
