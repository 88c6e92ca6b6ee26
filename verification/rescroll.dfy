/**
 * `rescroll` and `quad` (src/focus/rescroll.ts): bringing a newly selected
 * element into view in every scrollable ancestor, from the element's parent
 * up to and including the focus root.
 *
 * The animation frames and the CSS padding parsing are outside the model:
 * a scroll is recorded as the write or animation `rescroll` starts, with the
 * element its frames write to, and the
 * container's paddings come from `Document.metrics`.
 */
module Rescroll {
  import opened Wrappers
  import opened Dom
  import opened SmoothScrolling

  /** `scrollSpeed`: `null` disables scrolling, `Infinity` jumps, otherwise pixels per second. */
  datatype Speed = Disabled | Instant | PixelsPerSecond(rate: real)

  /** `quad(start, end, progress)`. */
  function Quad(start: real, end: real, progress: real): real
  {
    var diff := end - start;
    if progress < 0.5 then diff * (2.0 * (progress * progress)) + start
    else
      var displaced := progress - 1.0;
      diff * (-2.0 * (displaced * displaced) + 1.0) + start
  }

  /** `quad` is the same curve as the smooth scroller's `quadSmoothing`, so it too starts at `start` and ends at `end`. */
  lemma QuadIsQuadSmoothing(start: real, end: real, progress: real)
    ensures Quad(start, end, progress) == QuadSmoothing(start, end, progress)
    ensures Quad(start, end, 0.0) == start && Quad(start, end, 1.0) == end
  {
    QuadSmoothingEndpoints(start, end);
  }

  /**
   * What one `animate(parentElement, target, original, setter)` call does.
   * `el` is the element whose scroll offset changes. `FramesThrow` is an
   * animation whose setter reads a `null` parent: its first frame throws a
   * `TypeError`, and no offset changes.
   */
  datatype ScrollWrite =
    | Jump(el: Node, axis: Axis, value: real)                                  // `scrollTop = target` / `scrollLeft = target`
    | Animated(el: Node, axis: Axis, original: real, target: real, rate: real) // `quad` frames over |target - original| / rate seconds
    | FramesThrow(axis: Axis, original: real, target: real, rate: real)        // frames whose setter writes to `null`

  /** The code as written, and the evidently intended reading of it. */
  datatype Version = AsWritten | Corrected

  /**
   * `animate(p, target, original, setter)` for a scroll along `axis`, called
   * in the loop round for the ancestor `p`. `last` is the value the loop
   * variable `parent` holds once the loop has ended.
   *
   * As written, an `Infinity` speed assigns `p.scrollTop` whatever the axis.
   * The setter reads the single `let parent` of the function, and the frames
   * run from `requestAnimationFrame`, after the loop has ended: every frame
   * writes to `last`, or throws when that is `null`. The corrected version
   * jumps along `axis`, and its frames write to `p`.
   */
  function Animate(version: Version, p: Node, last: Option<Node>, axis: Axis, target: real, original: real, speed: Speed): (w: ScrollWrite)
    requires speed != Disabled
    ensures w.Jump? <==> speed == Instant
    ensures w.Jump? ==> w.el == p && w.value == target
    ensures w.Animated? ==> Some(w.el) == (if version == Corrected then Some(p) else last)
    ensures w.Animated? ==> w.axis == axis && w.original == original && w.target == target && w.rate == speed.rate
    ensures w.FramesThrow? <==> speed.PixelsPerSecond? && version == AsWritten && last.None?
  {
    match speed
    case Instant => Jump(p, if version == AsWritten then Vertical else axis, target)
    case PixelsPerSecond(rate) =>
      match version
      case Corrected => Animated(p, axis, original, target, rate)
      case AsWritten => if last.Some? then Animated(last.value, axis, original, target, rate) else FramesThrow(axis, original, target, rate)
  }

  /**
   * The target along one axis: `shows0` (where the scroll offset would show
   * the element's start) when that is before the current offset, else
   * `shows1` (where it would show its end) when that is after it, else no
   * scroll. A target always differs from the current offset.
   */
  function AxisTarget(offset: real, shows0: real, shows1: real): (r: Option<real>)
    ensures r.None? <==> offset <= shows0 && shows1 <= offset
    ensures r.Some? ==> r.value != offset
    ensures r.Some? ==> (r.value == shows0 && shows0 < offset) || (r.value == shows1 && offset <= shows0 && offset < shows1)
  {
    if shows0 < offset then Some(shows0)
    else if shows1 > offset then Some(shows1)
    else None
  }

  /** The box `rescroll` measures an ancestor against. */
  datatype Box = Box(top: real, left: real, height: real, width: real)

  /**
   * For the container: its client area inside the paddings, at the padding
   * offsets. For any other ancestor: its bounding rect.
   */
  function ParentBox(doc: Document, container: Node, p: Node): Box
  {
    if p == container then
      var m := doc.metrics(container);
      Box(m.paddingTop, m.paddingLeft, m.clientHeight - m.paddingTop - m.paddingBottom, m.clientWidth - m.paddingLeft - m.paddingRight)
    else
      var r := doc.rect(p);
      Box(r.top, r.left, r.height, r.width)
  }

  /** The scroll started on one axis of an ancestor that has a scrollbar on it. */
  function AxisWrites(version: Version, p: Node, last: Option<Node>, axis: Axis, offset: real, shows0: real, shows1: real, speed: Speed): seq<ScrollWrite>
    requires speed != Disabled
  {
    match AxisTarget(offset, shows0, shows1)
    case Some(t) => [Animate(version, p, last, axis, t, offset, speed)]
    case None => []
  }

  /** The vertical scroll of an ancestor, considered only when it has a vertical scrollbar. */
  function VerticalWrites(version: Version, doc: Document, container: Node, last: Option<Node>, p: Node, rect: Rect, speed: Speed): seq<ScrollWrite>
    requires speed != Disabled
  {
    var m := doc.metrics(p);
    if m.scrollHeight > m.clientHeight then
      var showsTop := m.scrollTop + (rect.top - ParentBox(doc, container, p).top);
      var showsBottom := showsTop + (rect.height - ParentBox(doc, container, p).height);
      AxisWrites(version, p, last, Vertical, m.scrollTop, showsTop, showsBottom, speed)
    else []
  }

  /** The horizontal scroll of an ancestor, considered only when it has a horizontal scrollbar. */
  function HorizontalWrites(version: Version, doc: Document, container: Node, last: Option<Node>, p: Node, rect: Rect, speed: Speed): seq<ScrollWrite>
    requires speed != Disabled
  {
    var m := doc.metrics(p);
    if m.scrollWidth > m.clientWidth then
      var showsLeft := m.scrollLeft + (rect.left - ParentBox(doc, container, p).left);
      var showsRight := showsLeft + (rect.width - ParentBox(doc, container, p).width);
      AxisWrites(version, p, last, Horizontal, m.scrollLeft, showsLeft, showsRight, speed)
    else []
  }

  /** The scrolls started in the round for one ancestor: vertical, then horizontal. */
  function WritesAt(version: Version, doc: Document, container: Node, last: Option<Node>, p: Node, rect: Rect, speed: Speed): seq<ScrollWrite>
    requires speed != Disabled
  {
    VerticalWrites(version, doc, container, last, p, rect, speed) + HorizontalWrites(version, doc, container, last, p, rect, speed)
  }

  /**
   * Where the scrolls of the round for `p` land. Corrected, every one is a
   * scroll of `p`. As written, only a jump is: an animation writes to the
   * loop's final `parent`, or throws when that is `null`.
   */
  lemma WritesAtTargets(version: Version, doc: Document, container: Node, last: Option<Node>, p: Node, rect: Rect, speed: Speed)
    requires speed != Disabled
    ensures forall w :: w in WritesAt(version, doc, container, last, p, rect, speed) ==>
              (w.Jump? <==> speed == Instant) && (w.Jump? ==> w.el == p) &&
              (version == Corrected ==> !w.FramesThrow? && w.el == p) &&
              (version == AsWritten && w.Animated? ==> Some(w.el) == last) &&
              (w.FramesThrow? <==> version == AsWritten && speed.PixelsPerSecond? && last.None?)
  {
  }

  /**
   * The value of `parent` when the loop stops: the first node of the walk
   * that is `null` or the container's parent.
   */
  function LoopExit(doc: Document, container: Node, parent: Option<Node>): (r: Option<Node>)
    ensures r.None? || r == doc.ParentElement(container)
    decreases if parent.Some? then parent.value + 1 else 0
  {
    if parent.None? || parent == doc.ParentElement(container) then parent
    else LoopExit(doc, container, doc.ParentElement(parent.value))
  }

  /** A walk that starts inside the container stops at the container's parent. */
  lemma {:induction false} LoopExitInside(doc: Document, container: Node, x: Node)
    requires doc.Contains(container, x)
    ensures LoopExit(doc, container, Some(x)) == doc.ParentElement(container)
    decreases x
  {
    ContainsOrder(doc, container, x);
    assert Some(x) != doc.ParentElement(container);
    if x == container {
      assert LoopExit(doc, container, Some(x)) == LoopExit(doc, container, doc.ParentElement(container));
    } else {
      LoopExitInside(doc, container, doc.parent[x]);
    }
  }

  /** The scrolls started by the walk from `parent` up to, and including, the container. */
  function Walk(version: Version, doc: Document, container: Node, last: Option<Node>, rect: Rect, speed: Speed, parent: Option<Node>): seq<ScrollWrite>
    requires speed != Disabled
    decreases if parent.Some? then parent.value + 1 else 0
  {
    if parent.None? || parent == doc.ParentElement(container) then []
    else WritesAt(version, doc, container, last, parent.value, rect, speed) + Walk(version, doc, container, last, rect, speed, doc.ParentElement(parent.value))
  }

  /**
   * `rescroll(el, referenceRect, scrollSpeed, container)`: every scroll it
   * starts, in order, with the frames of each animation writing where the
   * version says.
   */
  function RescrollSpec(version: Version, doc: Document, el: Node, rect: Rect, speed: Speed, container: Node): seq<ScrollWrite>
  {
    if speed == Disabled then []
    else
      var start := doc.ParentElement(el);
      Walk(version, doc, container, LoopExit(doc, container, start), rect, speed, start)
  }

  /**
   * In the corrected walk, every element scrolled lies inside the container
   * and contains the node the walk started from.
   */
  lemma {:induction false} WalkStaysInContainer(doc: Document, container: Node, last: Option<Node>, rect: Rect, speed: Speed, parent: Option<Node>)
    requires speed != Disabled
    requires parent.Some? ==> doc.Contains(container, parent.value)
    ensures forall w :: w in Walk(Corrected, doc, container, last, rect, speed, parent) ==>
              !w.FramesThrow? && doc.Contains(container, w.el) && parent.Some? && doc.Contains(w.el, parent.value)
    decreases if parent.Some? then parent.value + 1 else 0
  {
    if parent.Some? && parent != doc.ParentElement(container) {
      var x := parent.value;
      var here := WritesAt(Corrected, doc, container, last, x, rect, speed);
      var next := doc.ParentElement(x);
      WritesAtTargets(Corrected, doc, container, last, x, rect, speed);
      if x == container {
        assert Walk(Corrected, doc, container, last, rect, speed, next) == [];
      } else {
        WalkStaysInContainer(doc, container, last, rect, speed, next);
        forall w | w in Walk(Corrected, doc, container, last, rect, speed, next)
          ensures doc.Contains(w.el, x)
        {
          assert doc.Contains(w.el, doc.parent[x]);
        }
      }
      assert Walk(Corrected, doc, container, last, rect, speed, parent) == here + Walk(Corrected, doc, container, last, rect, speed, next);
    }
  }

  /**
   * As written, with a finite speed, every scroll of the walk is an
   * animation whose frames write to `last`, or throw when `last` is `null`.
   */
  lemma {:induction false} AsWrittenWalkTargets(doc: Document, container: Node, last: Option<Node>, rect: Rect, rate: real, parent: Option<Node>)
    ensures forall w :: w in Walk(AsWritten, doc, container, last, rect, PixelsPerSecond(rate), parent) ==>
              if last.Some? then w.Animated? && Some(w.el) == last else w.FramesThrow?
    decreases if parent.Some? then parent.value + 1 else 0
  {
    if parent.Some? && parent != doc.ParentElement(container) {
      var x := parent.value;
      var next := doc.ParentElement(x);
      WritesAtTargets(AsWritten, doc, container, last, x, rect, PixelsPerSecond(rate));
      AsWrittenWalkTargets(doc, container, last, rect, rate, next);
    }
  }

  /**
   * Starting inside the container, the walk ends with the scrolls started
   * in the container's own round, and nothing above it.
   */
  lemma {:induction false} WalkEndsAtContainer(version: Version, doc: Document, container: Node, last: Option<Node>, rect: Rect, speed: Speed, x: Node)
    requires speed != Disabled && doc.Contains(container, x)
    ensures var w := Walk(version, doc, container, last, rect, speed, Some(x));
      var c := WritesAt(version, doc, container, last, container, rect, speed);
      |c| <= |w| && w[|w| - |c|..] == c
    decreases x
  {
    if x == container {
      assert doc.ParentElement(container) != Some(container);
      WalkStep(version, doc, container, last, rect, speed, x);
      assert WritesAt(version, doc, container, last, x, rect, speed) + [] == WritesAt(version, doc, container, last, x, rect, speed);
    } else {
      ContainedHasParent(doc, container, x);
      WalkEndsAtContainer(version, doc, container, last, rect, speed, doc.parent[x]);
      WalkKeepsSuffix(version, doc, container, last, rect, speed, x);
    }
  }

  /** One more step of the walk keeps the container's scrolls at the end. */
  lemma WalkKeepsSuffix(version: Version, doc: Document, container: Node, last: Option<Node>, rect: Rect, speed: Speed, x: Node)
    requires speed != Disabled && x in doc.parent && container < x
    requires var r := Walk(version, doc, container, last, rect, speed, Some(doc.parent[x]));
      var c := WritesAt(version, doc, container, last, container, rect, speed);
      |c| <= |r| && r[|r| - |c|..] == c
    ensures var w := Walk(version, doc, container, last, rect, speed, Some(x));
      var c := WritesAt(version, doc, container, last, container, rect, speed);
      |c| <= |w| && w[|w| - |c|..] == c
  {
    assert doc.ParentElement(x) == Some(doc.parent[x]);
    WalkStep(version, doc, container, last, rect, speed, x);
    SuffixOfAppend(WritesAt(version, doc, container, last, x, rect, speed),
                   Walk(version, doc, container, last, rect, speed, Some(doc.parent[x])),
                   WritesAt(version, doc, container, last, container, rect, speed));
  }

  /** A suffix of `b` is a suffix of `a + b`. */
  lemma SuffixOfAppend<T>(a: seq<T>, b: seq<T>, c: seq<T>)
    requires |c| <= |b| && b[|b| - |c|..] == c
    ensures |c| <= |a + b| && (a + b)[|a + b| - |c|..] == c
  {
    assert (a + b)[|a + b| - |c|..] == b[|b| - |c|..];
  }

  /**
   * Corrected, `rescroll` scrolls only proper ancestors of the element that
   * lie inside the container, and (when the element is strictly inside the
   * container) finishes with the container's own scrolls. A disabled speed
   * scrolls nothing.
   */
  lemma RescrollScope(doc: Document, el: Node, rect: Rect, speed: Speed, container: Node)
    requires doc.Contains(container, el) && el != container
    ensures speed == Disabled ==> RescrollSpec(Corrected, doc, el, rect, speed, container) == []
    ensures forall w :: w in RescrollSpec(Corrected, doc, el, rect, speed, container) ==>
              !w.FramesThrow? && doc.Contains(container, w.el) && doc.ProperlyContains(w.el, el)
    ensures speed != Disabled ==>
              var w := RescrollSpec(Corrected, doc, el, rect, speed, container);
              var last := LoopExit(doc, container, doc.ParentElement(el));
              var c := WritesAt(Corrected, doc, container, last, container, rect, speed);
              |c| <= |w| && w[|w| - |c|..] == c
  {
    if speed != Disabled {
      var p := doc.parent[el];
      assert doc.ParentElement(el) == Some(p);
      var last := LoopExit(doc, container, Some(p));
      WalkStaysInContainer(doc, container, last, rect, speed, Some(p));
      WalkEndsAtContainer(Corrected, doc, container, last, rect, speed, p);
      forall w | w in RescrollSpec(Corrected, doc, el, rect, speed, container)
        ensures doc.ProperlyContains(w.el, el)
      {
        assert doc.Contains(w.el, p);
        assert w.el <= p by { ContainsOrder(doc, w.el, p); }
      }
    }
  }

  /**
   * As written, for an element strictly inside the container and a finite
   * speed, every animation writes to the container's parent, which lies
   * outside the container; when the container has no parent, every
   * animation's first frame throws. No ancestor inside the container moves.
   */
  lemma AsWrittenFramesLeaveContainer(doc: Document, el: Node, rect: Rect, rate: real, container: Node)
    requires doc.Contains(container, el) && el != container
    ensures forall w :: w in RescrollSpec(AsWritten, doc, el, rect, PixelsPerSecond(rate), container) ==>
              if doc.ParentElement(container).Some? then
                w.Animated? && Some(w.el) == doc.ParentElement(container) && !doc.Contains(container, w.el)
              else w.FramesThrow?
  {
    var p := doc.parent[el];
    assert doc.ParentElement(el) == Some(p);
    LoopExitInside(doc, container, p);
    AsWrittenWalkTargets(doc, container, LoopExit(doc, container, Some(p)), rect, rate, Some(p));
    if doc.ParentElement(container).Some? {
      var q := doc.parent[container];
      if doc.Contains(container, q) {
        ContainsOrder(doc, container, q);
        assert false;
      }
    }
  }

  /**
   * The smallest case: the container `r` has a parent `q` and scrolls on
   * neither axis; `d`, between it and the element, scrolls vertically, and
   * the element lies below `d`'s visible box. At the default speed the
   * corrected code animates `d` down to show the element; as written, the
   * frames write `q.scrollTop` and `d` never moves.
   */
  lemma AnimatedScrollMissesInnerScroller(doc: Document, q: Node, r: Node, d: Node, el: Node, rect: Rect)
    requires doc.parent == map[el := d, d := r, r := q] && q < r < d < el
    requires var m := doc.metrics(r); m.scrollHeight <= m.clientHeight && m.scrollWidth <= m.clientWidth
    requires var m := doc.metrics(d);
      m.scrollHeight > m.clientHeight && m.scrollWidth <= m.clientWidth &&
      rect.top >= doc.rect(d).top && rect.top + rect.height > doc.rect(d).top + doc.rect(d).height
    ensures var m := doc.metrics(d);
      var t := m.scrollTop + (rect.top - doc.rect(d).top) + (rect.height - doc.rect(d).height);
      RescrollSpec(Corrected, doc, el, rect, PixelsPerSecond(1000.0), r) == [Animated(d, Vertical, m.scrollTop, t, 1000.0)] &&
      RescrollSpec(AsWritten, doc, el, rect, PixelsPerSecond(1000.0), r) == [Animated(q, Vertical, m.scrollTop, t, 1000.0)]
  {
    var speed := PixelsPerSecond(1000.0);
    assert doc.ParentElement(el) == Some(d);
    assert doc.ParentElement(d) == Some(r);
    assert doc.ParentElement(r) == Some(q);
    assert LoopExit(doc, r, Some(d)) == Some(q) by {
      assert LoopExit(doc, r, Some(q)) == Some(q);
      assert LoopExit(doc, r, Some(r)) == LoopExit(doc, r, Some(q));
      assert LoopExit(doc, r, Some(d)) == LoopExit(doc, r, Some(r));
    }
    var m := doc.metrics(d);
    var t := m.scrollTop + (rect.top - doc.rect(d).top) + (rect.height - doc.rect(d).height);
    forall version: Version
      ensures RescrollSpec(version, doc, el, rect, speed, r) ==
              [Animated(if version == AsWritten then q else d, Vertical, m.scrollTop, t, 1000.0)]
    {
      assert AxisTarget(m.scrollTop, m.scrollTop + (rect.top - doc.rect(d).top), t) == Some(t);
      assert WritesAt(version, doc, r, Some(q), d, rect, speed) == [Animated(if version == AsWritten then q else d, Vertical, m.scrollTop, t, 1000.0)];
      assert WritesAt(version, doc, r, Some(q), r, rect, speed) == [];
      assert Walk(version, doc, r, Some(q), rect, speed, Some(q)) == [];
      assert Walk(version, doc, r, Some(q), rect, speed, Some(r)) == [];
      assert Walk(version, doc, r, Some(q), rect, speed, Some(d)) ==
             WritesAt(version, doc, r, Some(q), d, rect, speed) + [];
    }
  }

  /** A node contains only nodes at or after it in document order. */
  lemma {:induction false} ContainsOrder(doc: Document, a: Node, b: Node)
    requires doc.Contains(a, b)
    ensures a <= b
    decreases b
  {
    if b != a {
      ContainsOrder(doc, a, doc.parent[b]);
    }
  }

  /**
   * What the code as written does in place of a corrected scroll: a jump
   * goes to the vertical offset, and an animation's frames write to `last`
   * (or throw when it is `null`).
   */
  function AsWrittenOf(w: ScrollWrite, last: Option<Node>): ScrollWrite
  {
    match w
    case Jump(el, _, value) => Jump(el, Vertical, value)
    case Animated(_, axis, original, target, rate) =>
      if last.Some? then Animated(last.value, axis, original, target, rate) else FramesThrow(axis, original, target, rate)
    case FramesThrow(_, _, _, _) => w
  }

  /** `a` is `c` with every scroll replaced as the code as written does it. */
  predicate AsWrittenOfAll(a: seq<ScrollWrite>, c: seq<ScrollWrite>, last: Option<Node>)
  {
    |a| == |c| && forall i :: 0 <= i < |c| ==> a[i] == AsWrittenOf(c[i], last)
  }

  lemma AsWrittenOfAllAppend(a1: seq<ScrollWrite>, c1: seq<ScrollWrite>, a2: seq<ScrollWrite>, c2: seq<ScrollWrite>, last: Option<Node>)
    requires AsWrittenOfAll(a1, c1, last) && AsWrittenOfAll(a2, c2, last)
    ensures AsWrittenOfAll(a1 + a2, c1 + c2, last)
  {
    forall i | 0 <= i < |c1 + c2| ensures (a1 + a2)[i] == AsWrittenOf((c1 + c2)[i], last) {
      if i < |c1| {
        assert (a1 + a2)[i] == a1[i] && (c1 + c2)[i] == c1[i];
      } else {
        assert (a1 + a2)[i] == a2[i - |a1|] && (c1 + c2)[i] == c2[i - |c1|];
      }
    }
  }

  /** In one round, the code as written starts the corrected scrolls, each replaced by `AsWrittenOf`. */
  lemma WritesAtAsWritten(doc: Document, container: Node, last: Option<Node>, x: Node, rect: Rect, speed: Speed)
    requires speed != Disabled
    ensures AsWrittenOfAll(WritesAt(AsWritten, doc, container, last, x, rect, speed), WritesAt(Corrected, doc, container, last, x, rect, speed), last)
  {
    var va := VerticalWrites(AsWritten, doc, container, last, x, rect, speed);
    var vc := VerticalWrites(Corrected, doc, container, last, x, rect, speed);
    var ha := HorizontalWrites(AsWritten, doc, container, last, x, rect, speed);
    var hc := HorizontalWrites(Corrected, doc, container, last, x, rect, speed);
    assert AsWrittenOfAll(va, vc, last);
    assert AsWrittenOfAll(ha, hc, last);
    AsWrittenOfAllAppend(va, vc, ha, hc, last);
  }

  /** The same over the whole walk. */
  lemma {:induction false} AsWrittenWalk(doc: Document, container: Node, last: Option<Node>, rect: Rect, speed: Speed, parent: Option<Node>)
    requires speed != Disabled
    ensures AsWrittenOfAll(Walk(AsWritten, doc, container, last, rect, speed, parent), Walk(Corrected, doc, container, last, rect, speed, parent), last)
    decreases if parent.Some? then parent.value + 1 else 0
  {
    if parent.Some? && parent != doc.ParentElement(container) {
      var x := parent.value;
      var next := doc.ParentElement(x);
      AsWrittenWalk(doc, container, last, rect, speed, next);
      WritesAtAsWritten(doc, container, last, x, rect, speed);
      AsWrittenOfAllAppend(WritesAt(AsWritten, doc, container, last, x, rect, speed), WritesAt(Corrected, doc, container, last, x, rect, speed),
                           Walk(AsWritten, doc, container, last, rect, speed, next), Walk(Corrected, doc, container, last, rect, speed, next), last);
    }
  }

  /**
   * As written, `rescroll` starts the same scrolls as the corrected code,
   * in the same order, except that every jump goes to `scrollTop` and every
   * animation writes to the loop's final `parent`.
   */
  lemma AsWrittenVersusCorrected(doc: Document, el: Node, rect: Rect, speed: Speed, container: Node)
    ensures AsWrittenOfAll(RescrollSpec(AsWritten, doc, el, rect, speed, container),
                           RescrollSpec(Corrected, doc, el, rect, speed, container),
                           LoopExit(doc, container, doc.ParentElement(el)))
  {
    if speed != Disabled {
      AsWrittenWalk(doc, container, LoopExit(doc, container, doc.ParentElement(el)), rect, speed, doc.ParentElement(el));
    }
  }

  /**
   * The smallest case: an `Infinity` speed on a container that scrolls
   * only horizontally and must move left. The corrected code sets its
   * `scrollLeft`; as written, the code sets `scrollTop` instead.
   */
  lemma InstantHorizontalScrollHitsScrollTop(doc: Document, el: Node, rect: Rect, container: Node)
    requires doc.parent == map[el := container] && container < el
    requires var m := doc.metrics(container);
      m.scrollHeight <= m.clientHeight && m.scrollWidth > m.clientWidth &&
      m.scrollLeft + (rect.left - m.paddingLeft) < m.scrollLeft
    ensures var t := doc.metrics(container).scrollLeft + (rect.left - doc.metrics(container).paddingLeft);
      RescrollSpec(Corrected, doc, el, rect, Instant, container) == [Jump(container, Horizontal, t)] &&
      RescrollSpec(AsWritten, doc, el, rect, Instant, container) == [Jump(container, Vertical, t)]
  {
    assert doc.ParentElement(container) == None;
    assert doc.ParentElement(el) == Some(container);
    assert LoopExit(doc, container, Some(container)) == None;
    var t := doc.metrics(container).scrollLeft + (rect.left - doc.metrics(container).paddingLeft);
    forall version: Version
      ensures RescrollSpec(version, doc, el, rect, Instant, container) ==
              [Jump(container, if version == AsWritten then Vertical else Horizontal, t)]
    {
      assert VerticalWrites(version, doc, container, None, container, rect, Instant) == [];
      assert AxisTarget(doc.metrics(container).scrollLeft, t, t + (rect.width - ParentBox(doc, container, container).width)) == Some(t);
      assert HorizontalWrites(version, doc, container, None, container, rect, Instant) ==
             [Jump(container, if version == AsWritten then Vertical else Horizontal, t)];
      assert Walk(version, doc, container, None, rect, Instant, None) == [];
      assert Walk(version, doc, container, None, rect, Instant, Some(container)) ==
             WritesAt(version, doc, container, None, container, rect, Instant) + [];
    }
  }

  /**
   * Every scroll of the corrected `animate` moves the axis it was computed
   * for; the version as written differs as `AsWrittenOf` says.
   */
  lemma CorrectedKeepsAxis(p: Node, last: Option<Node>, axis: Axis, target: real, original: real, speed: Speed)
    requires speed != Disabled
    ensures !Animate(Corrected, p, last, axis, target, original, speed).FramesThrow?
    ensures Animate(Corrected, p, last, axis, target, original, speed).axis == axis
    ensures Animate(AsWritten, p, last, axis, target, original, speed) == AsWrittenOf(Animate(Corrected, p, last, axis, target, original, speed), last)
  {
  }

  lemma WalkStep(version: Version, doc: Document, container: Node, last: Option<Node>, rect: Rect, speed: Speed, p: Node)
    requires speed != Disabled && Some(p) != doc.ParentElement(container)
    ensures Walk(version, doc, container, last, rect, speed, Some(p)) ==
            WritesAt(version, doc, container, last, p, rect, speed) + Walk(version, doc, container, last, rect, speed, doc.ParentElement(p))
  {
  }

  /** The corrected setters write their own round's ancestor, so they never read the loop's final `parent`. */
  lemma CorrectedIgnoresLast(doc: Document, container: Node, last: Option<Node>, p: Node, rect: Rect, speed: Speed)
    requires speed != Disabled
    ensures WritesAt(Corrected, doc, container, last, p, rect, speed) == WritesAt(Corrected, doc, container, None, p, rect, speed)
  {
  }

  lemma AppendAssociative<T>(a: seq<T>, b: seq<T>, c: seq<T>)
    ensures (a + b) + c == a + (b + c)
  {
  }

  /** The parent walk of `rescroll`, with the corrected setters. */
  method Rescroll(doc: Document, el: Node, rect: Rect, speed: Speed, container: Node) returns (writes: seq<ScrollWrite>)
    ensures writes == RescrollSpec(Corrected, doc, el, rect, speed, container)
  {
    if speed == Disabled {
      return [];
    }
    writes := [];
    var parent := doc.ParentElement(el);
    var stop := doc.ParentElement(container);
    ghost var last := LoopExit(doc, container, parent);
    ghost var goal := Walk(Corrected, doc, container, last, rect, speed, parent);
    while parent.Some? && parent != stop
      invariant writes + Walk(Corrected, doc, container, last, rect, speed, parent) == goal
      decreases if parent.Some? then parent.value + 1 else 0
    {
      var here := WritesAt(Corrected, doc, container, None, parent.value, rect, speed);
      CorrectedIgnoresLast(doc, container, last, parent.value, rect, speed);
      ghost var rest := Walk(Corrected, doc, container, last, rect, speed, doc.ParentElement(parent.value));
      WalkStep(Corrected, doc, container, last, rect, speed, parent.value);
      AppendAssociative(writes, here, rest);
      writes := writes + here;
      parent := doc.ParentElement(parent.value);
    }
    assert Walk(Corrected, doc, container, last, rect, speed, parent) == [];
    assert writes + [] == writes;
  }
}
