/**
 * The abstract DOM that the focus logic runs over, and the helpers of
 * src/focus/dom-utils.ts.
 *
 * A node is a natural number: its position in document order. Because a
 * parent always precedes its children in document order, every parent link
 * points to a smaller number, which makes every walk up the tree terminate.
 * The browser primitives (bounding rects, hit testing, selector matching,
 * `isFocusable`, form-control state, scroll metrics) are fields of the
 * `Document` value and stay uninterpreted.
 */
module Dom {
  import opened Wrappers

  type Node = nat

  type Selector = string

  /** Parent links; a parent precedes its child in document order. */
  type ParentMap = m: map<Node, Node> | forall n :: n in m ==> m[n] < n witness map[]

  /** A `ClientRect`: six independent numbers, as the browser reports them. */
  datatype Rect = Rect(top: real, left: real, width: real, height: real, bottom: real, right: real)

  /** The scroll state and computed padding of an element. */
  datatype ScrollMetrics = ScrollMetrics(
    scrollTop: real, scrollLeft: real,
    scrollHeight: real, clientHeight: real,
    scrollWidth: real, clientWidth: real,
    paddingTop: real, paddingBottom: real, paddingLeft: real, paddingRight: real)

  /** The selector that marks focusable elements. */
  const TabIndexSelector: Selector := "[tabIndex]"

  datatype Document = Document(
    size: nat,                                 // nodes 0 .. size-1 are in the document
    parent: ParentMap,
    body: Node,
    activeElement: Node,                       // document.activeElement
    tagName: Node -> string,
    inputType: Node -> string,                 // `type` of an INPUT or TEXTAREA
    selectionStart: Node -> Option<int>,
    selectionEnd: Node -> Option<int>,
    valueLength: Node -> nat,
    isContentEditable: Node -> bool,
    isFocusable: Node -> bool,
    rect: Node -> Rect,                        // getBoundingClientRect
    elementFromPoint: (real, real) -> Option<Node>,
    matches: (Selector, Node) -> bool,
    metrics: Node -> ScrollMetrics,
    innerWidth: real,
    innerHeight: real)
  {
    /** `parentElement`. */
    function ParentElement(n: Node): (p: Option<Node>)
      ensures p.Some? ==> p.value < n
      ensures p.Some? <==> n in parent
    {
      if n in parent then Some(parent[n]) else None
    }

    /** `a.contains(b)`: b is a itself or one of its descendants. */
    predicate Contains(a: Node, b: Node)
      decreases b
    {
      b == a || (b in parent && Contains(a, parent[b]))
    }

    /** b is a descendant of a other than a itself. */
    predicate ProperlyContains(a: Node, b: Node)
    {
      a != b && Contains(a, b)
    }

    /** `container.querySelector(sel)`: the first matching descendant in document order. */
    function QuerySelector(container: Node, sel: Selector): (r: Option<Node>)
      ensures r.Some? ==> IsMatch(container, sel, r.value) && r.value < size
      ensures r.Some? ==> forall m: Node :: m < r.value ==> !IsMatch(container, sel, m)
      ensures r.None? ==> forall m: Node :: m < size ==> !IsMatch(container, sel, m)
    {
      FirstMatchFrom(container, sel, 0)
    }

    /** Whether `n` is found by `container.querySelector(sel)`. */
    predicate IsMatch(container: Node, sel: Selector, n: Node)
    {
      ProperlyContains(container, n) && matches(sel, n)
    }

    function FirstMatchFrom(container: Node, sel: Selector, i: nat): (r: Option<Node>)
      ensures r.Some? ==> i <= r.value < size && IsMatch(container, sel, r.value)
      ensures r.Some? ==> forall m: Node :: i <= m < r.value ==> !IsMatch(container, sel, m)
      ensures r.None? ==> forall m: Node :: i <= m < size ==> !IsMatch(container, sel, m)
      decreases size - i
    {
      if i >= size then None
      else if IsMatch(container, sel, i) then Some(i)
      else FirstMatchFrom(container, sel, i + 1)
    }

    /** `container.querySelectorAll(sel)`, in document order. */
    function QuerySelectorAll(container: Node, sel: Selector): (r: seq<Node>)
      ensures forall n: Node :: n in r <==> n < size && IsMatch(container, sel, n)
      ensures forall i, j :: 0 <= i < j < |r| ==> r[i] < r[j]
    {
      AllMatchesFrom(container, sel, 0)
    }

    function AllMatchesFrom(container: Node, sel: Selector, i: nat): (r: seq<Node>)
      ensures forall n: Node :: n in r <==> i <= n < size && IsMatch(container, sel, n)
      ensures forall k, j :: 0 <= k < j < |r| ==> r[k] < r[j]
      decreases size - i
    {
      if i >= size then []
      else if IsMatch(container, sel, i) then
        var rest := AllMatchesFrom(container, sel, i + 1);
        assert forall k :: 0 <= k < |rest| ==> i < rest[k] by {
          forall k | 0 <= k < |rest| ensures i < rest[k] { assert rest[k] in rest; }
        }
        [i] + rest
      else AllMatchesFrom(container, sel, i + 1)
    }
  }

  /** Every node a contains, other than a, has a parent link. */
  lemma ContainedHasParent(doc: Document, a: Node, b: Node)
    requires doc.Contains(a, b) && b != a
    ensures b in doc.parent && a < b
  {
    if doc.parent[b] != a {
      ContainedHasParent(doc, a, doc.parent[b]);
    }
  }

  /** `contains` is reflexive and transitive. */
  lemma {:induction false} ContainsTransitive(doc: Document, a: Node, b: Node, c: Node)
    requires doc.Contains(a, b) && doc.Contains(b, c)
    ensures doc.Contains(a, c)
  {
    if c != b {
      ContainsTransitive(doc, a, b, doc.parent[c]);
    }
  }

  /** `roundRect`: floors top, left, width and height; bottom and right come from the unrounded sums. */
  function RoundRect(r: Rect): (q: Rect)
    ensures q.top <= r.top < q.top + 1.0 && q.left <= r.left < q.left + 1.0
    ensures q.width <= r.width < q.width + 1.0 && q.height <= r.height < q.height + 1.0
    ensures q.bottom <= r.top + r.height < q.bottom + 1.0 && q.right <= r.left + r.width < q.right + 1.0
    ensures q.top.Floor as real == q.top && q.left.Floor as real == q.left
    ensures q.width.Floor as real == q.width && q.height.Floor as real == q.height
    ensures q.bottom.Floor as real == q.bottom && q.right.Floor as real == q.right
    ensures q.bottom - q.top == q.height || q.bottom - q.top == q.height + 1.0
    ensures q.right - q.left == q.width || q.right - q.left == q.width + 1.0
  {
    var q := Rect(
      top := r.top.Floor as real,
      left := r.left.Floor as real,
      width := r.width.Floor as real,
      height := r.height.Floor as real,
      bottom := (r.top + r.height).Floor as real,
      right := (r.left + r.width).Floor as real);
    FloorOfSum(r.top, r.height);
    FloorOfSum(r.left, r.width);
    q
  }

  /** floor(a + b) is floor(a) + floor(b) or one more. */
  lemma FloorOfSum(a: real, b: real)
    ensures (a + b).Floor == a.Floor + b.Floor || (a + b).Floor == a.Floor + b.Floor + 1
  {
    var s := a.Floor + b.Floor;
    assert s as real <= a + b < (s + 2) as real;
  }

  /** `isNodeAttached`: both present and root contains node. */
  predicate IsNodeAttached(doc: Document, node: Option<Node>, root: Option<Node>)
  {
    node.Some? && root.Some? && doc.Contains(root.value, node.value)
  }

  /**
   * The answer `getCommonAncestor` gives for a start node `a`: the nearest
   * proper ancestor of `a` that properly contains `b`, or nothing.
   */
  function CommonAncestorAbove(doc: Document, a: Node, b: Node): (r: Option<Node>)
    decreases a
  {
    match doc.ParentElement(a)
    case None => None
    case Some(p) => if doc.ProperlyContains(p, b) then Some(p) else CommonAncestorAbove(doc, p, b)
  }

  /** The result of CommonAncestorAbove is a proper ancestor of `a` properly containing `b`, and the nearest one. */
  lemma {:induction false} CommonAncestorIsNearest(doc: Document, a: Node, b: Node)
    ensures CommonAncestorAbove(doc, a, b).Some? ==>
      var r := CommonAncestorAbove(doc, a, b).value;
      doc.ProperlyContains(r, a) && doc.ProperlyContains(r, b)
    ensures forall p :: doc.ProperlyContains(p, a) && doc.ProperlyContains(p, b) ==>
      CommonAncestorAbove(doc, a, b).Some? && doc.Contains(p, CommonAncestorAbove(doc, a, b).value)
    decreases a
  {
    match doc.ParentElement(a)
    case None =>
      forall p | doc.ProperlyContains(p, a) ensures false { }
    case Some(q) =>
      if !doc.ProperlyContains(q, b) {
        CommonAncestorIsNearest(doc, q, b);
        forall p | doc.ProperlyContains(p, a) && doc.ProperlyContains(p, b)
          ensures doc.ProperlyContains(p, q)
        {
          assert p != q;
        }
        var r := CommonAncestorAbove(doc, q, b);
        if r.Some? {
          ContainsTransitive(doc, r.value, q, a);
          ContainedHasParent(doc, r.value, q);
        }
      }
  }

  /**
   * `getCommonAncestor(nodeA, nodeB)`: walks up from nodeA and returns the
   * first ancestor that properly contains nodeB; never nodeA itself.
   */
  method GetCommonAncestor(doc: Document, nodeA: Option<Node>, nodeB: Option<Node>) returns (r: Option<Node>)
    ensures nodeA.None? || nodeB.None? ==> r.None?
    ensures nodeA.Some? && nodeB.Some? ==> r == CommonAncestorAbove(doc, nodeA.value, nodeB.value)
    ensures r.Some? ==> r != nodeA && doc.ProperlyContains(r.value, nodeB.value)
  {
    if nodeA.None? || nodeB.None? {
      return None;
    }
    var a: Node := nodeA.value;
    var b: Node := nodeB.value;
    while a in doc.parent
      invariant CommonAncestorAbove(doc, a, b) == CommonAncestorAbove(doc, nodeA.value, b)
      invariant a <= nodeA.value
      decreases a
    {
      a := doc.parent[a];
      if doc.ProperlyContains(a, b) {
        CommonAncestorIsNearest(doc, nodeA.value, b);
        return Some(a);
      }
    }
    CommonAncestorIsNearest(doc, nodeA.value, b);
    return None;
  }
}
