/**
 * `SmoothScrollingAlgorithm` (src/scroll/smooth-scrolling-algorithm.ts):
 * the easing curve and the per-axis animations `scrollTo` starts. The
 * frame loop itself runs on `requestAnimationFrame`; the model states what
 * each frame writes as a function of the elapsed time.
 */
module SmoothScrolling {
  import opened Wrappers
  import opened Dom
  import opened ScrollUtil
  import opened ScrollRegistries

  /**
   * `EasingFunction`: the offset between `start` and `end` at a progress
   * from 0 to 1. The algorithm's constructor takes one, `quadSmoothing` by
   * default.
   */
  type EasingFunction = (real, real, real) -> real

  /** `quadSmoothing(start, end, progress)`: quadratic ease-in, ease-out. */
  function QuadSmoothing(start: real, end: real, progress: real): real
  {
    var diff := end - start;
    if progress < 0.5 then diff * (2.0 * (progress * progress)) + start
    else
      var displaced := progress - 1.0;
      diff * (-2.0 * (displaced * displaced) + 1.0) + start
  }

  /** The curve starts at `start`, passes the midpoint halfway, and ends at `end`. */
  lemma QuadSmoothingEndpoints(start: real, end: real)
    ensures QuadSmoothing(start, end, 0.0) == start
    ensures QuadSmoothing(start, end, 0.5) == (start + end) / 2.0
    ensures QuadSmoothing(start, end, 1.0) == end
  {
  }

  lemma MulLeft(d: real, a: real, b: real)
    requires d >= 0.0 && a <= b
    ensures d * a <= d * b
  {
  }

  /** The shape of the curve: 2p² below one half, 1 - 2(p - 1)² from one half on. */
  function Shape(p: real): real
  {
    if p < 0.5 then 2.0 * (p * p) else -2.0 * ((p - 1.0) * (p - 1.0)) + 1.0
  }

  lemma SquareMonotone(x: real, y: real)
    requires 0.0 <= x <= y
    ensures x * x <= y * y
  {
    MulLeft(x, x, y);
    MulLeft(y, x, y);
  }

  lemma {:induction false} ShapeMonotone(p: real, q: real)
    requires 0.0 <= p <= q <= 1.0
    ensures Shape(p) <= Shape(q)
  {
    if q < 0.5 {
      SquareMonotone(p, q);
    } else if p >= 0.5 {
      var a := 1.0 - q;
      var b := 1.0 - p;
      SquareMonotone(a, b);
      assert (p - 1.0) * (p - 1.0) == b * b by { assert p - 1.0 == -b; }
      assert (q - 1.0) * (q - 1.0) == a * a by { assert q - 1.0 == -a; }
    } else {
      SquareMonotone(p, 0.5);
      var a := 1.0 - q;
      SquareMonotone(a, 0.5);
      assert (q - 1.0) * (q - 1.0) == a * a by { assert q - 1.0 == -a; }
    }
  }

  /**
   * Moving forward in time never moves the scroll position back: for
   * `end >= start` the curve is non-decreasing on [0, 1], and it stays
   * between `start` and `end`.
   */
  lemma {:induction false} QuadSmoothingMonotone(start: real, end: real, p: real, q: real)
    requires start <= end && 0.0 <= p <= q <= 1.0
    ensures QuadSmoothing(start, end, p) <= QuadSmoothing(start, end, q)
    ensures start <= QuadSmoothing(start, end, p) <= end
  {
    var diff := end - start;
    assert QuadSmoothing(start, end, p) == diff * Shape(p) + start;
    assert QuadSmoothing(start, end, q) == diff * Shape(q) + start;
    ShapeMonotone(p, q);
    MulLeft(diff, Shape(p), Shape(q));
    ShapeMonotone(0.0, p);
    ShapeMonotone(p, 1.0);
    MulLeft(diff, Shape(0.0), Shape(p));
    MulLeft(diff, Shape(p), Shape(1.0));
  }

  datatype Axis = Horizontal | Vertical

  /** One animation `animate` starts: the axis, the offsets it moves between, and how long it takes. */
  datatype Animation = Animation(axis: Axis, original: real, target: real, duration: real)

  /**
   * `animate(delta, original, setter)`: a zero delta starts nothing;
   * otherwise the target is `original + delta`, reached after
   * `|delta| / scrollSpeed` seconds: the duration, in milliseconds, is the
   * time to cover the distance at `scrollSpeed` pixels per second.
   */
  function Animate(axis: Axis, delta: real, original: real, scrollSpeed: real): (r: Option<Animation>)
    requires scrollSpeed > 0.0
    ensures r.None? <==> delta == 0.0
    ensures r.Some? ==> r.value.axis == axis && r.value.original == original &&
                        r.value.target == original + delta && r.value.duration > 0.0
    ensures r.Some? ==> r.value.duration == (if delta < 0.0 then -delta else delta) / scrollSpeed * 1000.0
    ensures r.Some? ==> r.value.duration * scrollSpeed == (if delta < 0.0 then -delta else delta) * 1000.0
  {
    if delta == 0.0 then None
    else
      var target := original + delta;
      var distance := if target - original < 0.0 then original - target else target - original;
      Some(Animation(axis, original, target, distance / scrollSpeed * 1000.0))
  }

  function Started(a: Option<Animation>): seq<Animation>
  {
    if a.Some? then [a.value] else []
  }

  /**
   * `scrollTo(parent, el, rect)`: the animations started, horizontal
   * first. Each axis runs only when the container scrolls on it, and its
   * delta is measured against the window.
   */
  function SmoothScrollTo(doc: Document, parent: ScrollableContainer, rect: Rect, scrollSpeed: real): seq<Animation>
    requires scrollSpeed > 0.0
  {
    var m := doc.metrics(parent.element);
    (if parent.horizontal then Started(Animate(Horizontal, HorizontalDelta(rect, doc.innerWidth), m.scrollLeft, scrollSpeed)) else []) +
    (if parent.vertical then Started(Animate(Vertical, VerticalDelta(rect, doc.innerHeight), m.scrollTop, scrollSpeed)) else [])
  }

  /**
   * An axis is animated exactly when the container scrolls on it and the
   * rect overflows the window along it, towards `offset + delta`.
   */
  lemma SmoothScrollToAxes(doc: Document, parent: ScrollableContainer, rect: Rect, scrollSpeed: real)
    requires scrollSpeed > 0.0
    ensures var r := SmoothScrollTo(doc, parent, rect, scrollSpeed);
      var m := doc.metrics(parent.element);
      (exists a :: a in r && a.axis == Horizontal) <==>
        parent.horizontal && !(0.0 <= rect.left && rect.right <= doc.innerWidth)
    ensures var r := SmoothScrollTo(doc, parent, rect, scrollSpeed);
      var m := doc.metrics(parent.element);
      (exists a :: a in r && a.axis == Vertical) <==>
        parent.vertical && !(0.0 <= rect.top && rect.bottom <= doc.innerHeight)
    ensures forall a :: a in SmoothScrollTo(doc, parent, rect, scrollSpeed) ==>
      a.target == a.original + (if a.axis == Horizontal then HorizontalDelta(rect, doc.innerWidth) else VerticalDelta(rect, doc.innerHeight))
  {
  }

  /**
   * What a frame `elapsed` milliseconds after the start writes with the
   * given easing function, and whether it asks for another frame.
   */
  function Frame(a: Animation, elapsed: real, smoothing: EasingFunction): (real, bool)
    requires a.duration > 0.0
  {
    var progress := if elapsed / a.duration < 1.0 then elapsed / a.duration else 1.0;
    (smoothing(a.original, a.target, progress), progress < 1.0)
  }

  /**
   * Progress is clamped at 1: once the duration has passed, the frame
   * writes the easing function's value at progress 1 and the animation
   * stops; before that it writes the value at `elapsed / duration` and
   * asks for another frame.
   */
  lemma FrameReachesTarget(a: Animation, elapsed: real, smoothing: EasingFunction)
    requires a.duration > 0.0
    ensures elapsed >= a.duration ==> Frame(a, elapsed, smoothing) == (smoothing(a.original, a.target, 1.0), false)
    ensures elapsed < a.duration ==> Frame(a, elapsed, smoothing) == (smoothing(a.original, a.target, elapsed / a.duration), true)
  {
    if elapsed >= a.duration {
      assert elapsed / a.duration >= 1.0;
    } else {
      assert elapsed / a.duration < 1.0;
    }
  }

  /**
   * With the default easing the last frame writes exactly the target, and
   * every frame of an upward scroll stays between the original offset and
   * the target.
   */
  lemma {:induction false} QuadFrameReachesTarget(a: Animation, elapsed: real)
    requires a.duration > 0.0
    ensures elapsed >= a.duration ==> Frame(a, elapsed, QuadSmoothing) == (a.target, false)
    ensures elapsed >= 0.0 && a.original <= a.target ==>
      a.original <= Frame(a, elapsed, QuadSmoothing).0 <= a.target
  {
    FrameReachesTarget(a, elapsed, QuadSmoothing);
    QuadSmoothingEndpoints(a.original, a.target);
    if elapsed >= 0.0 && a.original <= a.target {
      var progress := if elapsed / a.duration < 1.0 then elapsed / a.duration else 1.0;
      assert 0.0 <= progress <= 1.0;
      QuadSmoothingMonotone(a.original, a.target, progress, progress);
    }
  }
}
