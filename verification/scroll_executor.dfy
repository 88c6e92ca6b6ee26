/**
 * `ScrollExecutor.scrollTo` (src/scroll/index.ts): when the selected
 * element's rect leaves the window, hand it to the scrolling algorithm
 * together with the first registered container that holds the element.
 */
module ScrollExecutors {
  import opened Wrappers
  import opened Dom
  import opened JsArrays
  import opened ScrollRegistries

  /** The one call `scrollTo` makes into the scrolling algorithm. */
  datatype AlgorithmCall = AlgorithmCall(parent: ScrollableContainer, target: Node, rect: Rect)

  /**
   * The guard of `scrollTo`: nothing to do when the rect is inside the
   * window horizontally and `top >= 0 && bottom < innerHeight` (the bottom
   * bound is strict).
   */
  predicate InView(doc: Document, rect: Rect)
  {
    !(rect.left < 0.0 || rect.right > doc.innerWidth) && rect.top >= 0.0 && rect.bottom < doc.innerHeight
  }

  /** Whether a container's element contains the target. */
  predicate Holds(doc: Document, target: Node, c: ScrollableContainer)
  {
    doc.Contains(c.element, target)
  }

  /** `scrollTo(targetElement, referenceRect)`: the algorithm call it makes, if any. */
  function ScrollTo(doc: Document, containers: seq<ScrollableContainer>, target: Node, rect: Rect): Option<AlgorithmCall>
  {
    if InView(doc, rect) then None
    else
      var i := FindIndex(containers, c => Holds(doc, target, c));
      if i < 0 then None else Some(AlgorithmCall(containers[i], target, rect))
  }

  /**
   * The algorithm is called exactly when the rect is out of view and some
   * registered container holds the target; it then gets the first such
   * container in registration order, the target and the unmodified rect.
   */
  lemma ScrollToFirstContainer(doc: Document, containers: seq<ScrollableContainer>, target: Node, rect: Rect)
    ensures var r := ScrollTo(doc, containers, target, rect);
      (r.Some? <==> !InView(doc, rect) && exists k :: 0 <= k < |containers| && doc.Contains(containers[k].element, target)) &&
      (r.Some? ==> exists i :: 0 <= i < |containers| && r.value == AlgorithmCall(containers[i], target, rect) &&
                     doc.Contains(containers[i].element, target) &&
                     forall k :: 0 <= k < i ==> !doc.Contains(containers[k].element, target))
  {
    var i := FindIndex(containers, c => Holds(doc, target, c));
    if i >= 0 {
      assert Holds(doc, target, containers[i]);
    } else {
      assert forall k :: 0 <= k < |containers| ==> !Holds(doc, target, containers[k]);
    }
  }

  /**
   * With the default registry, an out-of-view target under the document's
   * scrolling element is scrolled within that element.
   */
  lemma DefaultRegistryUsesScrollingElement(doc: Document, scrollingElement: Node, target: Node, rect: Rect)
    requires doc.Contains(scrollingElement, target) && !InView(doc, rect)
    ensures ScrollTo(doc, DefaultContainers(Some(scrollingElement), doc.body), target, rect)
              == Some(AlgorithmCall(ScrollableContainer(scrollingElement, false, true), target, rect))
  {
    var containers := DefaultContainers(Some(scrollingElement), doc.body);
    assert Holds(doc, target, containers[0]);
  }
}
