/** The `onIncoming` closure ArcFocusArea registers (src/components/arc-focus-area.tsx). */
module ArcFocusArea {
  import opened Wrappers
  import opened Dom
  import opened Handlers
  import opened Events

  /** `this.props.focusIn || '[tabIndex]'`: an absent or empty selector falls back to `[tabIndex]`. */
  function FocusInTarget(focusIn: Option<Target>): (t: Target)
    ensures t.Selector? ==> t.sel != ""
  {
    match focusIn
    case Some(Element(n)) => Element(n)
    case Some(Selector(s)) => if s == "" then Selector(TabIndexSelector) else Selector(s)
    case None => Selector(TabIndexSelector)
  }

  /**
   * The redirect: an event whose target lies inside the area is left
   * alone; otherwise `next` becomes the `focusIn` element, or the area's
   * first descendant matching the selector when there is one.
   */
  function AreaIncoming(doc: Document, area: Node, focusIn: Option<Target>, e: EventState): EventState
  {
    if e.target.Some? && doc.Contains(area, e.target.value) then e
    else
      match FocusInTarget(focusIn)
      case Element(n) => WithNext(e, Some(n))
      case Selector(s) =>
        match doc.QuerySelector(area, s)
        case Some(child) => WithNext(e, Some(child))
        case None => e
  }

  /** The closure, acting on the event object. */
  method OnIncoming(doc: Document, area: Node, focusIn: Option<Target>, ev: ArcEvent)
    modifies ev
    ensures ev.State() == AreaIncoming(doc, area, focusIn, old(ev.State()))
  {
    if ev.target.Some? && doc.Contains(area, ev.target.value) {
      return;
    }
    var target := FocusInTarget(focusIn);
    if target.Element? {
      ev.SetNext(Some(target.node));
      return;
    }
    var child := doc.QuerySelector(area, target.sel);
    if child.Some? {
      ev.SetNext(child);
    }
  }

  /**
   * What the redirect promises: inside targets are untouched; from
   * outside (a missing target counts as outside), `next` becomes the given
   * element, or, whenever some descendant of the area matches the selector,
   * the first such descendant, and stays when nothing matches; no flag other than the setter's propagation stop moves.
   */
  lemma AreaRedirects(doc: Document, area: Node, focusIn: Option<Target>, e: EventState)
    ensures var r := AreaIncoming(doc, area, focusIn, e);
      r.defaultPrevented == e.defaultPrevented && r.focusContext == e.focusContext &&
      (e.target.Some? && doc.Contains(area, e.target.value) ==> r == e) &&
      (!(e.target.Some? && doc.Contains(area, e.target.value)) ==>
        (focusIn.Some? && focusIn.value.Element? ==> r == WithNext(e, Some(focusIn.value.node))) &&
        (focusIn.None? || focusIn.value.Selector? ==>
          var sel := FocusInTarget(focusIn).sel;
          (doc.QuerySelector(area, sel).Some? ==> r == WithNext(e, doc.QuerySelector(area, sel))) &&
          (doc.QuerySelector(area, sel).None? ==> r == e) &&
          (r.next != e.next ==> r.next.Some? && doc.IsMatch(area, sel, r.next.value) &&
                                 forall m: Node :: m < r.next.value ==> !doc.IsMatch(area, sel, m)) &&
          (r == e <== forall m: Node :: m < doc.size ==> !doc.IsMatch(area, sel, m))))
  {
  }

  /** The default `focusIn` is `[tabIndex]`, and an empty selector behaves like the default. */
  lemma DefaultFocusIn(doc: Document, area: Node, e: EventState)
    ensures AreaIncoming(doc, area, None, e) == AreaIncoming(doc, area, Some(Selector(TabIndexSelector)), e)
    ensures AreaIncoming(doc, area, Some(Selector("")), e) == AreaIncoming(doc, area, None, e)
  {
  }
}
