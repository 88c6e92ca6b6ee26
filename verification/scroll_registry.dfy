/**
 * `ScrollRegistry` (src/scroll/scroll-registry.ts): the list of elements
 * registered as scroll containers, in registration order.
 */
module ScrollRegistries {
  import opened Wrappers
  import opened Dom
  import opened JsArrays

  /** `IScrollableContainer`: an element and the axes it scrolls on. */
  datatype ScrollableContainer = ScrollableContainer(element: Node, horizontal: bool, vertical: bool)

  /**
   * The default list: the document's scrolling element (or the body when
   * there is none), scrolling vertically only.
   */
  function DefaultContainers(scrollingElement: Option<Node>, body: Node): (r: seq<ScrollableContainer>)
    ensures |r| == 1 && r[0].vertical && !r[0].horizontal
    ensures r[0].element == (if scrollingElement.Some? then scrollingElement.value else body)
  {
    [ScrollableContainer(if scrollingElement.Some? then scrollingElement.value else body, false, true)]
  }

  /** Whether an entry is registered for the element. */
  predicate IsFor(el: Node, c: ScrollableContainer)
  {
    c.element == el
  }

  /** `remove(el)` as written: splices at `findIndex`, which is -1 for an unknown element. */
  function RemovedAsWritten(containers: seq<ScrollableContainer>, el: Node): seq<ScrollableContainer>
  {
    Splice1(containers, FindIndex(containers, c => IsFor(el, c)))
  }

  /** `remove(el)` as intended: drops the first entry for el, and nothing when there is none. */
  function Removed(containers: seq<ScrollableContainer>, el: Node): seq<ScrollableContainer>
  {
    var i := FindIndex(containers, c => IsFor(el, c));
    if i < 0 then containers else Splice1(containers, i)
  }

  /**
   * Removing an element that has no entry drops the last registered
   * container instead (and does nothing to an empty list).
   */
  lemma RemoveUnknownDropsLast(containers: seq<ScrollableContainer>, el: Node)
    requires forall k :: 0 <= k < |containers| ==> containers[k].element != el
    ensures |containers| > 0 ==> RemovedAsWritten(containers, el) == containers[..|containers| - 1]
    ensures RemovedAsWritten(containers, el) == Removed(containers, el)[..if |containers| > 0 then |containers| - 1 else 0]
  {
    assert FindIndex(containers, c => IsFor(el, c)) == -1;
    SpliceMinusOne(containers);
  }

  /** The smallest case: with only the default container registered, removing another element empties the list. */
  lemma RemoveUnknownFromDefault(root: Node, other: Node)
    requires other != root
    ensures RemovedAsWritten(DefaultContainers(Some(root), root), other) == []
    ensures Removed(DefaultContainers(Some(root), root), other) == DefaultContainers(Some(root), root)
  {
    RemoveUnknownDropsLast(DefaultContainers(Some(root), root), other);
  }

  /**
   * The intended `remove` drops exactly the first entry for the element,
   * keeping the order of the rest, and leaves the list alone when the
   * element has no entry.
   */
  lemma RemoveDropsFirstEntry(containers: seq<ScrollableContainer>, el: Node)
    ensures (forall k :: 0 <= k < |containers| ==> containers[k].element != el) ==> Removed(containers, el) == containers
    ensures forall i :: 0 <= i < |containers| && containers[i].element == el &&
                        (forall k :: 0 <= k < i ==> containers[k].element != el) ==>
              Removed(containers, el) == containers[..i] + containers[i + 1..]
  {
    var i := FindIndex(containers, c => IsFor(el, c));
    if i >= 0 {
      assert SpliceStart(|containers|, i) == i;
      forall j | 0 <= j < |containers| && containers[j].element == el &&
                 (forall k :: 0 <= k < j ==> containers[k].element != el)
        ensures j == i
      {
        assert IsFor(el, containers[i]) && IsFor(el, containers[j]);
      }
    } else {
      assert forall k :: 0 <= k < |containers| ==> !IsFor(el, containers[k]);
    }
  }

  class ScrollRegistry {
    var containers: seq<ScrollableContainer>

    /** `new ScrollRegistry(containers)`. */
    constructor (containers: seq<ScrollableContainer>)
      ensures this.containers == containers
    {
      this.containers := containers;
    }

    /** `new ScrollRegistry()`: the default list. */
    constructor Default(scrollingElement: Option<Node>, body: Node)
      ensures containers == DefaultContainers(scrollingElement, body)
    {
      containers := DefaultContainers(scrollingElement, body);
    }

    /** `add(data)`: appends. */
    method Add(data: ScrollableContainer)
      modifies this
      ensures containers == old(containers) + [data]
    {
      containers := containers + [data];
    }

    /** `remove(el)` as written. */
    method RemoveAsWritten(el: Node)
      modifies this
      ensures containers == RemovedAsWritten(old(containers), el)
    {
      var index := FindIndex(containers, c => IsFor(el, c));
      containers := Splice1(containers, index);
    }

    /** `remove(el)` as intended. */
    method Remove(el: Node)
      modifies this
      ensures containers == Removed(old(containers), el)
    {
      var index := FindIndex(containers, c => IsFor(el, c));
      if index >= 0 {
        containers := Splice1(containers, index);
      }
    }

    /** `getScrollContainers()`: the list in registration order. */
    method GetScrollContainers() returns (r: seq<ScrollableContainer>)
      ensures r == containers
    {
      return containers;
    }
  }
}
