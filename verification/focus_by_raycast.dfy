/**
 * `FocusByRaycastStrategy` (src/focus/focus-by-raycast.ts): probes a
 * bounded row of points beyond the reference rect with the browser's hit
 * test and takes the first acceptable element.
 */
module FocusByRaycast {
  import opened Wrappers
  import opened Dom
  import opened Buttons
  import opened FocusTypes

  const FastSearchMaxPointChecks: real := 30.0
  const FastSearchMinimumDistance: real := 40.0
  const FastSearchPointDistance: real := 10.0
  const MaxFastSearchSize: real := 0.5

  /** The reference extent along the axis of movement. */
  function Extent(ref: Rect, dir: Button): real
  {
    if dir.IsHorizontal() then ref.width else ref.height
  }

  /** How far the ray reaches: half the extent, but at least 40. */
  function MaxDistance(ref: Rect, dir: Button): (d: real)
    ensures d >= FastSearchMinimumDistance && d >= MaxFastSearchSize * Extent(ref, dir)
    ensures d == FastSearchMinimumDistance || d == MaxFastSearchSize * Extent(ref, dir)
  {
    var d := MaxFastSearchSize * Extent(ref, dir);
    if d < FastSearchMinimumDistance then FastSearchMinimumDistance else d
  }

  /** The gap between probes: 10, or maxDistance / 30 when 10 would need more than 30 probes. */
  function SearchPointDistance(maxDistance: real): (step: real)
    requires maxDistance >= FastSearchMinimumDistance
    ensures step >= FastSearchPointDistance
    ensures maxDistance / step <= FastSearchMaxPointChecks
  {
    if maxDistance / FastSearchPointDistance > FastSearchMaxPointChecks
    then maxDistance / FastSearchMaxPointChecks
    else FastSearchPointDistance
  }

  /** The first probe: one pixel beyond the moving edge, centred on the other axis. */
  function BasePoint(ref: Rect, dir: Direction): (real, real)
  {
    match dir
    case Left => (ref.left - 1.0, ref.top + ref.height / 2.0)
    case Right => (ref.left + ref.width + 1.0, ref.top + ref.height / 2.0)
    case Up => (ref.left + ref.width / 2.0, ref.top - 1.0)
    case Down => (ref.left + ref.width / 2.0, ref.top + ref.height + 1.0)
  }

  /** The unit vector of movement. */
  function Seek(dir: Direction): (real, real)
  {
    match dir
    case Left => (-1.0, 0.0)
    case Right => (1.0, 0.0)
    case Up => (0.0, -1.0)
    case Down => (0.0, 1.0)
  }

  /** The point probed at distance `i` along the ray. */
  function ProbePoint(ref: Rect, dir: Direction, i: real): (real, real)
  {
    var (baseX, baseY) := BasePoint(ref, dir);
    var (seekX, seekY) := Seek(dir);
    (baseX + seekX * i, baseY + seekY * i)
  }

  /** A hit is taken unless it is missing, the active element, outside the root, or not focusable. */
  predicate Accepts(doc: Document, opts: FocusOptions, hit: Option<Node>)
  {
    hit.Some? && hit.value != opts.activeElement &&
    IsNodeAttached(doc, hit, Some(opts.root)) && doc.isFocusable(hit.value)
  }

  /** The number of probes `for (i = 0; i < maxDistance; i += step)` makes: k is probed iff k * step < maxDistance. */
  function ProbeCount(maxDistance: real, step: real): (n: nat)
    requires maxDistance > 0.0 && step > 0.0
    ensures forall k: nat :: k < n <==> Probed(k, step, maxDistance)
  {
    var q := maxDistance / step;
    BelowQuotient(0.0, maxDistance, step);
    var n: nat := if q.Floor as real == q then q.Floor else q.Floor + 1;
    forall k: nat
      ensures k < n <==> Probed(k, step, maxDistance)
    {
      OffsetIsProduct(k, step);
      BelowQuotient(k as real, maxDistance, step);
    }
    n
  }

  /** The loop variable `i` after k rounds of `i += step`. */
  function Offset(k: nat, step: real): real
  {
    if k == 0 then 0.0 else Offset(k - 1, step) + step
  }

  /** Adding the step k times lands on k * step. */
  lemma {:induction false} OffsetIsProduct(k: nat, step: real)
    ensures Offset(k, step) == (k as real) * step
  {
    if k > 0 {
      OffsetIsProduct(k - 1, step);
      assert ((k - 1) as real) * step + step == (k as real) * step;
    }
  }

  /** The loop condition `i < maxDistance` at the k-th probe. */
  predicate Probed(k: nat, step: real, maxDistance: real)
  {
    Offset(k, step) < maxDistance
  }

  lemma BelowQuotient(a: real, maxDistance: real, step: real)
    requires step > 0.0
    ensures a * step < maxDistance <==> a < maxDistance / step
  {
    var q := maxDistance / step;
    assert q * step == maxDistance;
    ScaleByPositive(a, q, step);
  }

  lemma ScaleByPositive(a: real, q: real, step: real)
    requires step > 0.0
    ensures a * step < q * step <==> a < q
  {
    if a < q {
      assert (q - a) * step > 0.0;
    } else {
      assert (a - q) * step >= 0.0;
    }
  }

  /** At least one and at most 30 points are ever probed. */
  lemma {:induction false} ProbeCountBounds(ref: Rect, dir: Button)
    ensures var d := MaxDistance(ref, dir);
      1 <= ProbeCount(d, SearchPointDistance(d)) <= 30
  {
    var d := MaxDistance(ref, dir);
    var step := SearchPointDistance(d);
    var n := ProbeCount(d, step);
    assert Probed(0, step, d);
    if n > 30 {
      assert false;
    }
  }

  /** The first accepted hit among probes k, k+1, ..., n-1. */
  function ScanFrom(doc: Document, opts: FocusOptions, dir: Direction, step: real, k: nat, n: nat): (r: Option<Node>)
    decreases n - k
  {
    if k >= n then None
    else
      var hit := Sample(doc, opts, dir, step, k);
      if Accepts(doc, opts, hit) then hit else ScanFrom(doc, opts, dir, step, k + 1, n)
  }

  /** `findNextFocus`: the first accepted hit along the ray; a non-directional button throws. */
  function RaycastSpec(doc: Document, opts: FocusOptions): (r: Result<Option<Node>, string>)
    ensures r.Err? <==> !opts.direction.IsDirectional()
  {
    if !opts.direction.IsDirectional() then Err("Invalid direction")
    else
      var d := MaxDistance(opts.referenceRect, opts.direction);
      var step := SearchPointDistance(d);
      Ok(ScanFrom(doc, opts, opts.direction, step, 0, ProbeCount(d, step)))
  }

  /** The sampling loop of `findNextFocus`. */
  method FindNextFocus(doc: Document, opts: FocusOptions) returns (r: Result<Option<Node>, string>)
    ensures r == RaycastSpec(doc, opts)
  {
    var maxDistance := MaxFastSearchSize * Extent(opts.referenceRect, opts.direction);
    if maxDistance < FastSearchMinimumDistance {
      maxDistance := FastSearchMinimumDistance;
    }
    var searchPointDistance := FastSearchPointDistance;
    if maxDistance / searchPointDistance > FastSearchMaxPointChecks {
      searchPointDistance := maxDistance / FastSearchMaxPointChecks;
    }
    if !opts.direction.IsDirectional() {
      return Err("Invalid direction");
    }
    assert maxDistance == MaxDistance(opts.referenceRect, opts.direction);
    assert searchPointDistance == SearchPointDistance(maxDistance);
    var el := Scan(doc, opts, opts.direction, maxDistance, searchPointDistance);
    return Ok(el);
  }

  /** The `for (let i = 0; i < maxDistance; i += searchPointDistance)` loop. */
  method Scan(doc: Document, opts: FocusOptions, dir: Direction, maxDistance: real, searchPointDistance: real)
    returns (r: Option<Node>)
    requires maxDistance > 0.0 && searchPointDistance > 0.0
    ensures r == ScanFrom(doc, opts, dir, searchPointDistance, 0, ProbeCount(maxDistance, searchPointDistance))
  {
    ghost var n := ProbeCount(maxDistance, searchPointDistance);
    var i := 0.0;
    ghost var k: nat := 0;
    while i < maxDistance
      invariant i == Offset(k, searchPointDistance)
      invariant k <= n
      invariant ScanFrom(doc, opts, dir, searchPointDistance, 0, n) == ScanFrom(doc, opts, dir, searchPointDistance, k, n)
      decreases n - k
    {
      assert Probed(k, searchPointDistance, maxDistance);
      var el := ProbeHit(doc, opts, dir, i);
      assert el == Sample(doc, opts, dir, searchPointDistance, k);
      ScanStep(doc, opts, dir, searchPointDistance, k, n);
      if Accepts(doc, opts, el) {
        return el;
      }
      i := i + searchPointDistance;
      k := k + 1;
    }
    assert !Probed(k, searchPointDistance, maxDistance);
    return None;
  }

  /**
   * The answer is the hit at some probe k within the schedule, accepted,
   * and no earlier probe's hit was accepted; a null answer means no probe's
   * hit was accepted.
   */
  lemma {:induction false} ScanFromFirstAccepted(doc: Document, opts: FocusOptions, dir: Direction, step: real, k: nat, n: nat)
    ensures var r := ScanFrom(doc, opts, dir, step, k, n);
      (r.Some? ==> exists j: nat :: k <= j < n && r == Sample(doc, opts, dir, step, j) && Accepts(doc, opts, r) &&
                     forall i: nat :: k <= i < j ==> !Accepts(doc, opts, Sample(doc, opts, dir, step, i))) &&
      (r.None? ==> forall i: nat :: k <= i < n ==> !Accepts(doc, opts, Sample(doc, opts, dir, step, i)))
    decreases n - k
  {
    if k < n && !Accepts(doc, opts, Sample(doc, opts, dir, step, k)) {
      ScanFromFirstAccepted(doc, opts, dir, step, k + 1, n);
      var r := ScanFrom(doc, opts, dir, step, k, n);
      if r.Some? {
        var j: nat :| k + 1 <= j < n && r == Sample(doc, opts, dir, step, j) && Accepts(doc, opts, r) &&
                     forall i: nat :: k + 1 <= i < j ==> !Accepts(doc, opts, Sample(doc, opts, dir, step, i));
        assert forall i: nat :: k <= i < j ==> !Accepts(doc, opts, Sample(doc, opts, dir, step, i));
      }
    }
  }

  /** One step of the scan. */
  lemma ScanStep(doc: Document, opts: FocusOptions, dir: Direction, step: real, k: nat, n: nat)
    requires k < n
    ensures ScanFrom(doc, opts, dir, step, k, n) ==
      if Accepts(doc, opts, Sample(doc, opts, dir, step, k)) then Sample(doc, opts, dir, step, k)
      else ScanFrom(doc, opts, dir, step, k + 1, n)
  {
  }

  /** The hit at the k-th probe. */
  function Sample(doc: Document, opts: FocusOptions, dir: Direction, step: real, k: nat): Option<Node>
  {
    ProbeHit(doc, opts, dir, Offset(k, step))
  }

  /** `document.elementFromPoint` at distance `i` along the ray. */
  function ProbeHit(doc: Document, opts: FocusOptions, dir: Direction, i: real): Option<Node>
  {
    var p := ProbePoint(opts.referenceRect, dir, i);
    doc.elementFromPoint(p.0, p.1)
  }

  /** A raycast answer is never the active element, lies under the root and is focusable. */
  lemma RaycastAnswerAccepted(doc: Document, opts: FocusOptions, n: Node)
    requires RaycastSpec(doc, opts) == Ok(Some(n))
    ensures n != opts.activeElement && doc.Contains(opts.root, n) && doc.isFocusable(n)
  {
    var d := MaxDistance(opts.referenceRect, opts.direction);
    var step := SearchPointDistance(d);
    ScanFromFirstAccepted(doc, opts, opts.direction, step, 0, ProbeCount(d, step));
  }
}
