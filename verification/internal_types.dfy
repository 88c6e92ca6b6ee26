/** `findElement` and `findFocusable` (src/internal-types.ts). */
module Targets {
  import opened Wrappers
  import opened Dom
  import opened Handlers

  /**
   * `findElement(container, target)`: nothing for a missing or empty
   * target, the first selector match under the container, or the element
   * itself whatever the container.
   */
  function FindElement(doc: Document, container: Node, target: Option<Target>): (r: Option<Node>)
    ensures target.None? || target == Some(Selector("")) ==> r.None?
    ensures target.Some? && target.value.Element? ==> r == Some(target.value.node)
    ensures target.Some? && target.value.Selector? && r.Some? ==>
      doc.IsMatch(container, target.value.sel, r.value) &&
      forall m: Node :: m < r.value ==> !doc.IsMatch(container, target.value.sel, m)
    ensures target.Some? && target.value.Selector? && target.value.sel != "" && r.None? ==>
      forall m: Node :: m < doc.size ==> !doc.IsMatch(container, target.value.sel, m)
  {
    match target
    case None => None
    case Some(Element(n)) => Some(n)
    case Some(Selector(s)) => if s == "" then None else doc.QuerySelector(container, s)
  }

  /** `findFocusable(container, target)`: `findElement`, else the first `[tabIndex]` descendant. */
  function FindFocusable(doc: Document, container: Node, target: Option<Target>): (r: Option<Node>)
    ensures FindElement(doc, container, target).Some? ==> r == FindElement(doc, container, target)
    ensures FindElement(doc, container, target).None? ==> r == doc.QuerySelector(container, TabIndexSelector)
  {
    match FindElement(doc, container, target)
    case Some(n) => Some(n)
    case None => doc.QuerySelector(container, TabIndexSelector)
  }
}
