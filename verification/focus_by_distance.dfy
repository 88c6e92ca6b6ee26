/**
 * The geometric focus search (src/focus/focus-by-distance.ts):
 * `PotentialElement` scoring, `ElementFinder.find` and the
 * `FocusByDistance` candidate filter.
 */
module FocusByDistance {
  import opened Wrappers
  import opened Dom
  import opened Buttons
  import opened FocusTypes

  /**
   * A `PotentialElement`: a candidate, its rect and its three scores. The
   * scores start at 0 here (Infinity in the source); every score is
   * computed before it is read.
   */
  datatype Potential = Potential(
    el: Node, rect: Rect,
    percentInShadow: real, primaryDistance: real, secondaryDistance: real)

  function NewPotential(doc: Document, el: Node): Potential
  {
    Potential(el, doc.rect(el), 0.0, 0.0, 0.0)
  }

  function Min(a: real, b: real): real { if a <= b then a else b }

  function Max(a: real, b: real): real { if a >= b then a else b }

  /** `calcPercentInShadow`: the cross-axis overlap with the reference rect. */
  function Shadow(r: Rect, ref: Rect, dir: Button): real
  {
    if dir.IsHorizontal() then Min(r.bottom, ref.bottom) - Max(r.top, ref.top)
    else Min(r.right, ref.right) - Max(r.left, ref.left)
  }

  /** `calcPrimaryDistance`: the gap along the movement axis. */
  function PrimaryDistance(r: Rect, ref: Rect, dir: Direction): real
  {
    match dir
    case Left => ref.left - r.right
    case Right => r.left - ref.right
    case Up => ref.top - r.bottom
    case Down => r.top - ref.bottom
  }

  /** `calcSecondaryDistance`: the cross-axis distance from the reference rect's centre line. */
  function SecondaryDistance(r: Rect, ref: Rect, dir: Button): real
  {
    if dir.IsHorizontal() then
      var refCenter := ref.top + ref.height / 2.0;
      if r.bottom < refCenter then refCenter - r.bottom else r.top - refCenter
    else
      var refCenter := ref.left + ref.width / 2.0;
      if r.right < refCenter then refCenter - r.right else r.left - refCenter
  }

  /** The direction filter of `getElementsInDirection`; touching edges pass. */
  predicate InDirection(r: Rect, ref: Rect, dir: Direction)
  {
    match dir
    case Left => r.right <= ref.left
    case Right => r.left >= ref.right
    case Up => r.bottom <= ref.top
    case Down => r.top >= ref.bottom
  }

  /** The truthiness test `el.rect.width && el.rect.height`. */
  predicate HasArea(r: Rect)
  {
    r.width != 0.0 && r.height != 0.0
  }

  /** `Array.prototype.filter`. */
  function Filter(s: seq<Potential>, keep: Potential -> bool): (r: seq<Potential>)
    ensures forall x :: x in r <==> x in s && keep(x)
    ensures |r| <= |s|
  {
    if s == [] then []
    else if keep(s[0]) then [s[0]] + Filter(s[1..], keep)
    else Filter(s[1..], keep)
  }

  function WithShadow(s: seq<Potential>, ref: Rect, dir: Button): (r: seq<Potential>)
    ensures |r| == |s|
    ensures forall i :: 0 <= i < |s| ==> r[i] == s[i].(percentInShadow := Shadow(s[i].rect, ref, dir))
  {
    seq(|s|, i requires 0 <= i < |s| => s[i].(percentInShadow := Shadow(s[i].rect, ref, dir)))
  }

  function WithPrimary(s: seq<Potential>, ref: Rect, dir: Direction): (r: seq<Potential>)
    ensures |r| == |s|
    ensures forall i :: 0 <= i < |s| ==> r[i] == s[i].(primaryDistance := PrimaryDistance(s[i].rect, ref, dir))
  {
    seq(|s|, i requires 0 <= i < |s| => s[i].(primaryDistance := PrimaryDistance(s[i].rect, ref, dir)))
  }

  function WithSecondary(s: seq<Potential>, ref: Rect, dir: Button): (r: seq<Potential>)
    ensures |r| == |s|
    ensures forall i :: 0 <= i < |s| ==> r[i] == s[i].(secondaryDistance := SecondaryDistance(s[i].rect, ref, dir))
  {
    seq(|s|, i requires 0 <= i < |s| => s[i].(secondaryDistance := SecondaryDistance(s[i].rect, ref, dir)))
  }

  function Primaries(s: seq<Potential>): (r: seq<real>)
    ensures |r| == |s| && forall i :: 0 <= i < |s| ==> r[i] == s[i].primaryDistance
  {
    seq(|s|, i requires 0 <= i < |s| => s[i].primaryDistance)
  }

  function Secondaries(s: seq<Potential>): (r: seq<real>)
    ensures |r| == |s| && forall i :: 0 <= i < |s| ==> r[i] == s[i].secondaryDistance
  {
    seq(|s|, i requires 0 <= i < |s| => s[i].secondaryDistance)
  }

  function Tops(s: seq<Potential>): (r: seq<real>)
    ensures |r| == |s| && forall i :: 0 <= i < |s| ==> r[i] == s[i].rect.top
  {
    seq(|s|, i requires 0 <= i < |s| => s[i].rect.top)
  }

  function Lefts(s: seq<Potential>): (r: seq<real>)
    ensures |r| == |s| && forall i :: 0 <= i < |s| ==> r[i] == s[i].rect.left
  {
    seq(|s|, i requires 0 <= i < |s| => s[i].rect.left)
  }

  /** The smallest key. */
  function MinOf(keys: seq<real>): (m: real)
    requires |keys| > 0
    ensures m in keys
    ensures forall j :: 0 <= j < |keys| ==> m <= keys[j]
  {
    if |keys| == 1 then keys[0] else Min(MinOf(keys[..|keys| - 1]), keys[|keys| - 1])
  }

  /**
   * The index `reduce((prev, curr) => curr.key <= prev.key ? curr : prev)`
   * ends on: a minimum, and the last one among equal minima.
   */
  function LastMinIndex(keys: seq<real>): (k: nat)
    requires |keys| > 0
    ensures k < |keys|
    ensures forall j :: 0 <= j < |keys| ==> keys[k] <= keys[j]
    ensures forall j :: k < j < |keys| ==> keys[k] < keys[j]
  {
    if |keys| == 1 then 0
    else
      var p := LastMinIndex(keys[..|keys| - 1]);
      if keys[|keys| - 1] <= keys[p] then |keys| - 1 else p
  }

  /**
   * The index `reduce((prev, curr) => curr.key < prev.key ? curr : prev)`
   * ends on: a minimum, and the first one among equal minima.
   */
  function FirstMinIndex(keys: seq<real>): (k: nat)
    requires |keys| > 0
    ensures k < |keys|
    ensures forall j :: 0 <= j < |keys| ==> keys[k] <= keys[j]
    ensures forall j :: 0 <= j < k ==> keys[k] < keys[j]
  {
    if |keys| == 1 then 0
    else
      var p := FirstMinIndex(keys[..|keys| - 1]);
      if keys[|keys| - 1] < keys[p] then |keys| - 1 else p
  }

  predicate HasElementsInShadow(s: seq<Potential>)
  {
    exists x :: x in s && x.percentInShadow > 0.0
  }

  /** The candidates that survive the direction and zero-size filters. */
  function Eligible(s: seq<Potential>, ref: Rect, dir: Direction): (r: seq<Potential>)
    ensures forall x :: x in r <==> x in s && InDirection(x.rect, ref, dir) && HasArea(x.rect)
  {
    Filter(Filter(s, (x: Potential) => InDirection(x.rect, ref, dir)), (x: Potential) => HasArea(x.rect))
  }

  /** Some candidate passes the filter, so the filtered list is not empty. */
  lemma FilterNonEmpty(s: seq<Potential>, keep: Potential -> bool)
    requires exists x :: x in s && keep(x)
    ensures |Filter(s, keep)| > 0
  {
    var x :| x in s && keep(x);
    assert x in Filter(s, keep);
  }

  /** The candidates at the shortest primary distance. */
  function Nearest(p: seq<Potential>): (r: seq<Potential>)
    requires |p| > 0
    ensures |r| > 0
    ensures forall x :: x in r <==> x in p && x.primaryDistance == MinOf(Primaries(p))
  {
    var shortest := MinOf(Primaries(p));
    assert p[IndexOfKey(Primaries(p), shortest)] in p;
    FilterNonEmpty(p, (x: Potential) => x.primaryDistance == shortest);
    Filter(p, (x: Potential) => x.primaryDistance == shortest)
  }

  function IndexOfKey(keys: seq<real>, k: real): (i: nat)
    requires k in keys
    ensures i < |keys| && keys[i] == k
  {
    if keys[0] == k then 0 else 1 + IndexOfKey(keys[1..], k)
  }

  /** The no-shadow case for Up/Down: nearest on the primary axis, then on the secondary axis. */
  function ClosestWithoutShadow(s: seq<Potential>, ref: Rect, dir: Direction): (r: Potential)
    requires |s| > 0
  {
    var c := WithSecondary(Nearest(WithPrimary(s, ref, dir)), ref, dir);
    c[LastMinIndex(Secondaries(c))]
  }

  /** The candidates in shadow at the shortest primary distance. */
  function NearestInShadow(s: seq<Potential>, ref: Rect, dir: Direction): (r: seq<Potential>)
    requires HasElementsInShadow(s)
    ensures |r| > 0
  {
    FilterNonEmpty(s, (x: Potential) => x.percentInShadow > 0.0);
    Nearest(WithPrimary(Filter(s, (x: Potential) => x.percentInShadow > 0.0), ref, dir))
  }

  /** The position the tie-break falls back to when the tie-break element is not a candidate. */
  function TieBreakIndex(c: seq<Potential>, dir: Direction): (k: nat)
    requires |c| > 0
    ensures k < |c|
    ensures dir.IsHorizontal() ==> (forall j :: 0 <= j < |c| ==> c[k].rect.top <= c[j].rect.top) &&
                                   (forall j :: 0 <= j < k ==> c[k].rect.top < c[j].rect.top)
    ensures dir.IsVertical() ==> (forall j :: 0 <= j < |c| ==> c[k].rect.left <= c[j].rect.left) &&
                                 (forall j :: 0 <= j < k ==> c[k].rect.left < c[j].rect.left)
  {
    if dir.IsHorizontal() then FirstMinIndex(Tops(c)) else FirstMinIndex(Lefts(c))
  }

  /**
   * The tie-breaks among several candidates at the same primary distance:
   * the previous element if it is one of them, else the topmost (moving
   * Left/Right) or leftmost (moving Up/Down), the first one on a tie.
   */
  function TieBreak(c: seq<Potential>, dir: Direction, prevEl: Option<Node>): Option<Node>
    requires |c| > 0
  {
    if |c| == 1 then Some(c[0].el)
    else if prevEl.Some? && exists x :: x in c && x.el == prevEl.value then prevEl
    else Some(c[TieBreakIndex(c, dir)].el)
  }

  /** The choice among shadow-scored, eligible candidates (the body of `find` after the filters). */
  function Choose(s: seq<Potential>, ref: Rect, dir: Direction, prevEl: Option<Node>): Option<Node>
    requires |s| > 0
  {
    if !HasElementsInShadow(s) then
      if dir.IsHorizontal() then None else Some(ClosestWithoutShadow(s, ref, dir).el)
    else
      TieBreak(NearestInShadow(s, ref, dir), dir, prevEl)
  }

  /**
   * `ElementFinder.find` over the initial shortlist. A non-directional
   * button throws 'Invalid direction' as soon as the direction filter sees
   * a candidate.
   */
  function FindSpec(s: seq<Potential>, ref: Rect, dir: Button, prevEl: Option<Node>): (r: Result<Option<Node>, string>)
    ensures r.Err? <==> !dir.IsDirectional() && |s| > 0
  {
    if !dir.IsDirectional() then
      if |s| == 0 then Ok(None) else Err("Invalid direction")
    else
      var e := Eligible(s, ref, dir);
      if |e| == 0 then Ok(None) else Ok(Choose(WithShadow(e, ref, dir), ref, dir, prevEl))
  }

  /** The initial shortlist: one PotentialElement per candidate. */
  function Shortlist(doc: Document, candidates: seq<Node>): (r: seq<Potential>)
    ensures |r| == |candidates|
    ensures forall i :: 0 <= i < |r| ==> r[i] == NewPotential(doc, candidates[i])
  {
    seq(|candidates|, i requires 0 <= i < |candidates| => NewPotential(doc, candidates[i]))
  }

  /** The candidates `FocusByDistance` scores: `[tabIndex]` descendants of root, not ignored, focusable. */
  function FocusableCandidates(doc: Document, opts: FocusOptions): (r: seq<Node>)
    ensures forall n :: n in r <==>
      n in doc.QuerySelectorAll(opts.root, TabIndexSelector) && n !in opts.ignore && doc.isFocusable(n)
  {
    FilterNodes(doc.QuerySelectorAll(opts.root, TabIndexSelector), opts.ignore, doc.isFocusable)
  }

  function FilterNodes(s: seq<Node>, ignore: set<Node>, focusable: Node -> bool): (r: seq<Node>)
    ensures forall n :: n in r <==> n in s && n !in ignore && focusable(n)
  {
    if s == [] then []
    else if s[0] !in ignore && focusable(s[0]) then [s[0]] + FilterNodes(s[1..], ignore, focusable)
    else FilterNodes(s[1..], ignore, focusable)
  }

  /** `FocusByDistance.findNextFocus`: the active element is the tie-break element. */
  function FindNextFocus(doc: Document, opts: FocusOptions): (r: Result<Option<Node>, string>)
  {
    FindSpec(Shortlist(doc, FocusableCandidates(doc, opts)), opts.referenceRect, opts.direction, Some(opts.activeElement))
  }

  // ---------------------------------------------------------------------
  // ElementFinder: the shortlist is reassigned step by step.

  class ElementFinder {
    const dir: Button
    const refRect: Rect
    const prevEl: Option<Node>
    var shortlisted: seq<Potential>

    constructor (doc: Document, dir: Button, refRect: Rect, candidates: seq<Node>, prevEl: Option<Node>)
      ensures this.dir == dir && this.refRect == refRect && this.prevEl == prevEl
      ensures shortlisted == Shortlist(doc, candidates)
    {
      this.dir := dir;
      this.refRect := refRect;
      this.prevEl := prevEl;
      shortlisted := Shortlist(doc, candidates);
    }

    /** `find`, narrowing `shortlisted` one filter at a time. */
    method Find() returns (r: Result<Option<Node>, string>)
      modifies this
      ensures r == FindSpec(old(shortlisted), refRect, dir, prevEl)
    {
      if !dir.IsDirectional() {
        if |shortlisted| == 0 {
          return Ok(None);
        }
        return Err("Invalid direction");
      }
      var d: Direction := dir;
      ghost var initial := shortlisted;
      shortlisted := Filter(shortlisted, (x: Potential) => InDirection(x.rect, refRect, d));
      shortlisted := Filter(shortlisted, (x: Potential) => HasArea(x.rect));
      assert shortlisted == Eligible(initial, refRect, d);
      if |shortlisted| == 0 {
        return Ok(None);
      }
      shortlisted := WithShadow(shortlisted, refRect, d);
      var el := Select(d);
      return Ok(el);
    }

    /** The choice once every candidate has its shadow score. */
    method Select(d: Direction) returns (el: Option<Node>)
      requires d == dir && |shortlisted| > 0
      modifies this
      ensures el == Choose(old(shortlisted), refRect, d, prevEl)
    {
      if !HasElementsInShadow(shortlisted) {
        if d.IsHorizontal() {
          return None;
        }
        el := SelectWithoutShadow(d);
      } else {
        el := SelectInShadow(d);
      }
    }

    /** Up/Down with nothing in shadow: nearest primary, then nearest secondary. */
    method SelectWithoutShadow(d: Direction) returns (el: Option<Node>)
      requires d == dir && |shortlisted| > 0
      modifies this
      ensures el == Some(ClosestWithoutShadow(old(shortlisted), refRect, d).el)
    {
      shortlisted := WithPrimary(shortlisted, refRect, d);
      NarrowToNearest();
      shortlisted := WithSecondary(shortlisted, refRect, d);
      var k := LastMinIndex(Secondaries(shortlisted));
      return Some(shortlisted[k].el);
    }

    /** Candidates in shadow: nearest primary, then the tie-breaks. */
    method SelectInShadow(d: Direction) returns (el: Option<Node>)
      requires d == dir && HasElementsInShadow(shortlisted)
      modifies this
      ensures el == TieBreak(NearestInShadow(old(shortlisted), refRect, d), d, prevEl)
    {
      ghost var scored := shortlisted;
      FilterNonEmpty(shortlisted, (x: Potential) => x.percentInShadow > 0.0);
      shortlisted := Filter(shortlisted, (x: Potential) => x.percentInShadow > 0.0);
      shortlisted := WithPrimary(shortlisted, refRect, d);
      NarrowToNearest();
      assert shortlisted == NearestInShadow(scored, refRect, d);
      el := TieBreak(shortlisted, d, prevEl);
    }

    /** Keeps the candidates at the shortest primary distance. */
    method NarrowToNearest()
      requires |shortlisted| > 0
      modifies this
      ensures shortlisted == Nearest(old(shortlisted))
    {
      var shortest := GetShortestPrimaryDist(shortlisted);
      MinIsUnique(Primaries(shortlisted), shortest);
      shortlisted := Filter(shortlisted, (x: Potential) => x.primaryDistance == shortest);
    }
  }

  /** `getShortestPrimaryDist`: a minimum loop over a non-empty list. */
  method GetShortestPrimaryDist(elements: seq<Potential>) returns (shortest: real)
    requires |elements| > 0
    ensures shortest in Primaries(elements)
    ensures forall x :: x in elements ==> shortest <= x.primaryDistance
  {
    shortest := elements[0].primaryDistance;
    var i := 0;
    while i < |elements|
      invariant 0 <= i <= |elements|
      invariant shortest in Primaries(elements)
      invariant forall j :: 0 <= j < i ==> shortest <= elements[j].primaryDistance
    {
      if elements[i].primaryDistance < shortest {
        shortest := elements[i].primaryDistance;
      }
      i := i + 1;
    }
  }

  /** A value in the list that is at most every entry is MinOf. */
  lemma MinIsUnique(keys: seq<real>, m: real)
    requires |keys| > 0 && m in keys
    requires forall j :: 0 <= j < |keys| ==> m <= keys[j]
    ensures m == MinOf(keys)
  {
  }
}

/** What `ElementFinder.find` and `FocusByDistance` promise about the chosen element. */
module FocusByDistanceProofs {
  import opened Wrappers
  import opened Dom
  import opened Buttons
  import opened FocusTypes
  import opened FocusByDistance

  /** Every entry of `r` is an entry of `s` with (possibly) rescored fields: same element, same rect. */
  ghost predicate DrawnFrom(r: seq<Potential>, s: seq<Potential>)
  {
    forall x :: x in r ==> exists y :: y in s && y.el == x.el && y.rect == x.rect
  }

  lemma DrawnFromTrans(a: seq<Potential>, b: seq<Potential>, c: seq<Potential>)
    requires DrawnFrom(a, b) && DrawnFrom(b, c)
    ensures DrawnFrom(a, c)
  {
    forall x | x in a
      ensures exists z :: z in c && z.el == x.el && z.rect == x.rect
    {
      var y :| y in b && y.el == x.el && y.rect == x.rect;
      var z :| z in c && z.el == y.el && z.rect == y.rect;
    }
  }

  lemma RescoringDraws(s: seq<Potential>, ref: Rect, dir: Direction)
    ensures DrawnFrom(WithShadow(s, ref, dir), s)
    ensures DrawnFrom(WithPrimary(s, ref, dir), s)
    ensures DrawnFrom(WithSecondary(s, ref, dir), s)
  {
    forall x | x in WithShadow(s, ref, dir)
      ensures exists y :: y in s && y.el == x.el && y.rect == x.rect
    {
      var i :| 0 <= i < |WithShadow(s, ref, dir)| && WithShadow(s, ref, dir)[i] == x;
      assert s[i] in s;
    }
    forall x | x in WithPrimary(s, ref, dir)
      ensures exists y :: y in s && y.el == x.el && y.rect == x.rect
    {
      var i :| 0 <= i < |WithPrimary(s, ref, dir)| && WithPrimary(s, ref, dir)[i] == x;
      assert s[i] in s;
    }
    forall x | x in WithSecondary(s, ref, dir)
      ensures exists y :: y in s && y.el == x.el && y.rect == x.rect
    {
      var i :| 0 <= i < |WithSecondary(s, ref, dir)| && WithSecondary(s, ref, dir)[i] == x;
      assert s[i] in s;
    }
  }

  lemma FilterDraws(s: seq<Potential>, keep: Potential -> bool)
    ensures DrawnFrom(Filter(s, keep), s)
  {
    forall x | x in Filter(s, keep)
      ensures exists y :: y in s && y.el == x.el && y.rect == x.rect
    {
      assert x in s;
    }
  }

  /** The no-shadow choice comes from the list. */
  lemma ClosestWithoutShadowDrawn(s: seq<Potential>, ref: Rect, dir: Direction)
    requires |s| > 0
    ensures exists y :: y in s && y.el == ClosestWithoutShadow(s, ref, dir).el
                        && y.rect == ClosestWithoutShadow(s, ref, dir).rect
  {
    var p := WithPrimary(s, ref, dir);
    var np := Nearest(p);
    var c := WithSecondary(np, ref, dir);
    var r := c[LastMinIndex(Secondaries(c))];
    assert r == ClosestWithoutShadow(s, ref, dir);
    RescoringDraws(s, ref, dir);
    RescoringDraws(np, ref, dir);
    FilterDraws(p, (x: Potential) => x.primaryDistance == MinOf(Primaries(p)));
    assert DrawnFrom(np, p);
    DrawnFromTrans(c, np, p);
    DrawnFromTrans(c, p, s);
    assert r in c;
  }

  /** The shadow candidates at the minimum come from the list. */
  lemma NearestInShadowDrawn(s: seq<Potential>, ref: Rect, dir: Direction)
    requires HasElementsInShadow(s)
    ensures DrawnFrom(NearestInShadow(s, ref, dir), s)
  {
    var f := Filter(s, (x: Potential) => x.percentInShadow > 0.0);
    var p := WithPrimary(f, ref, dir);
    RescoringDraws(f, ref, dir);
    FilterDraws(s, (x: Potential) => x.percentInShadow > 0.0);
    FilterDraws(p, (x: Potential) => x.primaryDistance == MinOf(Primaries(p)));
    assert DrawnFrom(Nearest(p), p);
    DrawnFromTrans(Nearest(p), p, f);
    DrawnFromTrans(Nearest(p), f, s);
  }

  /** The tie-break picks an element of the list. */
  lemma TieBreakDrawn(c: seq<Potential>, dir: Direction, prevEl: Option<Node>)
    requires |c| > 0
    ensures TieBreak(c, dir, prevEl).Some?
    ensures exists x :: x in c && x.el == TieBreak(c, dir, prevEl).value
  {
    if |c| == 1 {
      assert c[0] in c;
    } else if prevEl.Some? && exists x :: x in c && x.el == prevEl.value {
    } else {
      assert c[TieBreakIndex(c, dir)] in c;
    }
  }

  /**
   * A non-null answer of `find` is one of the candidates, and it lies in
   * the direction of travel and has a non-zero area.
   */
  lemma {:induction false} FindResultIsEligible(s: seq<Potential>, ref: Rect, dir: Button, prevEl: Option<Node>, n: Node)
    requires FindSpec(s, ref, dir, prevEl) == Ok(Some(n))
    ensures dir.IsDirectional()
    ensures exists x :: x in s && x.el == n && InDirection(x.rect, ref, dir) && HasArea(x.rect)
  {
    var d: Direction := dir;
    var e := Eligible(s, ref, d);
    var w := WithShadow(e, ref, d);
    assert Choose(w, ref, d, prevEl) == Some(n);
    ChooseDrawn(w, ref, d, prevEl);
    RescoringDraws(e, ref, d);
    var y :| y in w && y.el == n;
    var z :| z in e && z.el == y.el && z.rect == y.rect;
  }

  /** A non-null choice is the element of one of the scored candidates. */
  lemma ChooseDrawn(w: seq<Potential>, ref: Rect, dir: Direction, prevEl: Option<Node>)
    requires |w| > 0 && Choose(w, ref, dir, prevEl).Some?
    ensures exists y :: y in w && y.el == Choose(w, ref, dir, prevEl).value
  {
    if !HasElementsInShadow(w) {
      ClosestWithoutShadowDrawn(w, ref, dir);
    } else {
      var c := NearestInShadow(w, ref, dir);
      NearestInShadowDrawn(w, ref, dir);
      TieBreakDrawn(c, dir, prevEl);
      var x :| x in c && x.el == Choose(w, ref, dir, prevEl).value;
    }
  }

  /** No candidate in the direction with an area: `find` yields null. */
  lemma FindNothingEligible(s: seq<Potential>, ref: Rect, dir: Direction, prevEl: Option<Node>)
    requires forall x :: x in s ==> !InDirection(x.rect, ref, dir) || !HasArea(x.rect)
    ensures FindSpec(s, ref, dir, prevEl) == Ok(None)
  {
  }

  /** Left/Right with no eligible candidate overlapping on the cross axis: null. */
  lemma {:induction false} FindHorizontalWithoutShadow(s: seq<Potential>, ref: Rect, dir: Direction, prevEl: Option<Node>)
    requires dir.IsHorizontal()
    requires forall x :: x in s && InDirection(x.rect, ref, dir) && HasArea(x.rect) ==> Shadow(x.rect, ref, dir) <= 0.0
    ensures FindSpec(s, ref, dir, prevEl) == Ok(None)
  {
    var e := Eligible(s, ref, dir);
    var w := WithShadow(e, ref, dir);
    forall x | x in w
      ensures x.percentInShadow <= 0.0
    {
      var i :| 0 <= i < |w| && w[i] == x;
      assert e[i] in e;
    }
  }

  /**
   * Up/Down with no eligible candidate overlapping: the choice is nearest
   * on the movement axis, and among those nearest on the cross axis.
   */
  lemma {:induction false} ClosestWithoutShadowMinimises(s: seq<Potential>, ref: Rect, dir: Direction)
    requires |s| > 0
    ensures var r := ClosestWithoutShadow(s, ref, dir);
      (forall z :: z in s ==> PrimaryDistance(r.rect, ref, dir) <= PrimaryDistance(z.rect, ref, dir)) &&
      (forall z :: z in s && PrimaryDistance(z.rect, ref, dir) == PrimaryDistance(r.rect, ref, dir) ==>
         SecondaryDistance(r.rect, ref, dir) <= SecondaryDistance(z.rect, ref, dir))
  {
    var p := WithPrimary(s, ref, dir);
    var r := ClosestWithoutShadow(s, ref, dir);
    ClosestAtMinPrimary(s, ref, dir);
    forall z | z in s
      ensures PrimaryDistance(r.rect, ref, dir) <= PrimaryDistance(z.rect, ref, dir)
    {
      var i :| 0 <= i < |s| && s[i] == z;
      assert Primaries(p)[i] == PrimaryDistance(z.rect, ref, dir);
    }
    forall z | z in s && PrimaryDistance(z.rect, ref, dir) == PrimaryDistance(r.rect, ref, dir)
      ensures SecondaryDistance(r.rect, ref, dir) <= SecondaryDistance(z.rect, ref, dir)
    {
      ClosestAtMinSecondary(s, ref, dir, z);
    }
  }

  /** The fallback's choice is at the minimum primary distance. */
  lemma {:induction false} ClosestAtMinPrimary(s: seq<Potential>, ref: Rect, dir: Direction)
    requires |s| > 0
    ensures PrimaryDistance(ClosestWithoutShadow(s, ref, dir).rect, ref, dir) == MinOf(Primaries(WithPrimary(s, ref, dir)))
  {
    var p := WithPrimary(s, ref, dir);
    var np := Nearest(p);
    var c := WithSecondary(np, ref, dir);
    var k := LastMinIndex(Secondaries(c));
    assert c[k] == ClosestWithoutShadow(s, ref, dir);
    assert np[k] in np;
    var i0 :| 0 <= i0 < |p| && p[i0] == np[k];
  }

  /** Among the entries at the minimum primary distance, the fallback's choice is nearest on the cross axis. */
  lemma {:induction false} ClosestAtMinSecondary(s: seq<Potential>, ref: Rect, dir: Direction, z: Potential)
    requires |s| > 0 && z in s
    requires PrimaryDistance(z.rect, ref, dir) == MinOf(Primaries(WithPrimary(s, ref, dir)))
    ensures SecondaryDistance(ClosestWithoutShadow(s, ref, dir).rect, ref, dir) <= SecondaryDistance(z.rect, ref, dir)
  {
    var p := WithPrimary(s, ref, dir);
    var np := Nearest(p);
    var c := WithSecondary(np, ref, dir);
    var k := LastMinIndex(Secondaries(c));
    assert c[k] == ClosestWithoutShadow(s, ref, dir);
    var i :| 0 <= i < |s| && s[i] == z;
    assert p[i] in p && p[i].primaryDistance == MinOf(Primaries(p));
    assert p[i] in np;
    var j :| 0 <= j < |np| && np[j] == p[i];
    assert Secondaries(c)[k] <= Secondaries(c)[j];
  }

  /** An entry in shadow that is nearest on the movement axis among those in shadow. */
  ghost predicate InShadowAtMin(z: Potential, s: seq<Potential>, ref: Rect, dir: Direction)
  {
    z in s && z.percentInShadow > 0.0 &&
    forall y :: y in s && y.percentInShadow > 0.0 ==> PrimaryDistance(z.rect, ref, dir) <= PrimaryDistance(y.rect, ref, dir)
  }

  /** The in-shadow entries, scored on the movement axis. */
  lemma ShadowScoredFacts(s: seq<Potential>, ref: Rect, dir: Direction)
    ensures var f := Filter(s, (x: Potential) => x.percentInShadow > 0.0);
      |WithPrimary(f, ref, dir)| == |f| &&
      (forall y :: y in f <==> y in s && y.percentInShadow > 0.0) &&
      (forall i :: 0 <= i < |f| ==>
         WithPrimary(f, ref, dir)[i].el == f[i].el && WithPrimary(f, ref, dir)[i].rect == f[i].rect &&
         WithPrimary(f, ref, dir)[i].primaryDistance == PrimaryDistance(f[i].rect, ref, dir))
  {
  }

  /** Each entry of the shadow shortlist is an in-shadow entry at the minimum primary distance. */
  lemma {:induction false} NearestInShadowSound(s: seq<Potential>, ref: Rect, dir: Direction, x: Potential)
    requires HasElementsInShadow(s)
    requires x in NearestInShadow(s, ref, dir)
    ensures exists z :: InShadowAtMin(z, s, ref, dir) && z.el == x.el && z.rect == x.rect
  {
    var f := Filter(s, (x: Potential) => x.percentInShadow > 0.0);
    var p := WithPrimary(f, ref, dir);
    ShadowScoredFacts(s, ref, dir);
    assert x in p && x.primaryDistance == MinOf(Primaries(p));
    var i :| 0 <= i < |p| && p[i] == x;
    ScoredAtMinIsInShadowAtMin(s, ref, dir, i);
    assert InShadowAtMin(f[i], s, ref, dir);
  }

  /** The in-shadow entry behind a scored entry at the minimum is nearest among those in shadow. */
  lemma {:induction false} ScoredAtMinIsInShadowAtMin(s: seq<Potential>, ref: Rect, dir: Direction, i: nat)
    requires HasElementsInShadow(s)
    requires var f := Filter(s, (x: Potential) => x.percentInShadow > 0.0); var p := WithPrimary(f, ref, dir);
      i < |f| && |p| == |f| && p[i].primaryDistance == MinOf(Primaries(p))
    ensures InShadowAtMin(Filter(s, (x: Potential) => x.percentInShadow > 0.0)[i], s, ref, dir)
  {
    var f := Filter(s, (x: Potential) => x.percentInShadow > 0.0);
    var p := WithPrimary(f, ref, dir);
    ShadowScoredFacts(s, ref, dir);
    var z := f[i];
    assert z in f;
    forall y | y in s && y.percentInShadow > 0.0
      ensures PrimaryDistance(z.rect, ref, dir) <= PrimaryDistance(y.rect, ref, dir)
    {
      assert y in f;
      var j :| 0 <= j < |f| && f[j] == y;
      assert Primaries(p)[j] == PrimaryDistance(y.rect, ref, dir);
    }
  }

  /** Each in-shadow entry at the minimum primary distance is on the shadow shortlist. */
  lemma {:induction false} NearestInShadowComplete(s: seq<Potential>, ref: Rect, dir: Direction, z: Potential)
    requires InShadowAtMin(z, s, ref, dir)
    ensures HasElementsInShadow(s)
    ensures exists x :: x in NearestInShadow(s, ref, dir) && x.el == z.el && x.rect == z.rect
  {
    var f := Filter(s, (x: Potential) => x.percentInShadow > 0.0);
    var p := WithPrimary(f, ref, dir);
    ShadowScoredFacts(s, ref, dir);
    assert z in f;
    var i :| 0 <= i < |f| && f[i] == z;
    InShadowAtMinIsScoredAtMin(s, ref, dir, i);
    assert p[i] in NearestInShadow(s, ref, dir);
  }

  /** The scored entry of an in-shadow entry nearest among those in shadow is at the minimum. */
  lemma {:induction false} InShadowAtMinIsScoredAtMin(s: seq<Potential>, ref: Rect, dir: Direction, i: nat)
    requires var f := Filter(s, (x: Potential) => x.percentInShadow > 0.0);
      i < |f| && InShadowAtMin(f[i], s, ref, dir)
    ensures var f := Filter(s, (x: Potential) => x.percentInShadow > 0.0); var p := WithPrimary(f, ref, dir);
      i < |p| && p[i].primaryDistance == MinOf(Primaries(p))
  {
    var f := Filter(s, (x: Potential) => x.percentInShadow > 0.0);
    var p := WithPrimary(f, ref, dir);
    ShadowScoredFacts(s, ref, dir);
    var m := MinOf(Primaries(p));
    var j := IndexOfKey(Primaries(p), m);
    assert f[i] in f && f[j] in f;
    assert p[i].primaryDistance <= p[j].primaryDistance == m;
  }

  /**
   * The tie-breaks: the tie-break element wins if it is among the
   * candidates; otherwise the candidate at `TieBreakIndex` wins, the
   * smallest top (Left/Right) or the smallest left (Up/Down), and on equal
   * values the earlier candidate.
   */
  lemma TieBreakOrder(c: seq<Potential>, dir: Direction, prevEl: Option<Node>)
    requires |c| > 0
    ensures prevEl.Some? && (exists x :: x in c && x.el == prevEl.value) ==> TieBreak(c, dir, prevEl) == prevEl
    ensures (prevEl.None? || forall x :: x in c ==> x.el != prevEl.value) && |c| > 1 ==>
      TieBreak(c, dir, prevEl) == Some(c[TieBreakIndex(c, dir)].el)
  {
    if prevEl.Some? && (exists x :: x in c && x.el == prevEl.value) {
      if |c| == 1 {
        var x :| x in c && x.el == prevEl.value;
        assert x == c[0];
      }
    }
  }

  /** A candidate that survives both filters and overlaps the reference rect on the cross axis. */
  ghost predicate EligibleInShadow(z: Potential, s: seq<Potential>, ref: Rect, dir: Direction)
  {
    z in s && InDirection(z.rect, ref, dir) && HasArea(z.rect) && Shadow(z.rect, ref, dir) > 0.0
  }

  /** Such a candidate at the shortest primary distance among them. */
  ghost predicate NearestEligibleInShadow(z: Potential, s: seq<Potential>, ref: Rect, dir: Direction)
  {
    EligibleInShadow(z, s, ref, dir) &&
    forall y :: EligibleInShadow(y, s, ref, dir) ==> PrimaryDistance(z.rect, ref, dir) <= PrimaryDistance(y.rect, ref, dir)
  }

  /** The shadow-scored eligible list and the candidates are related entry by entry. */
  lemma ScoredEligibleFacts(s: seq<Potential>, ref: Rect, dir: Direction)
    ensures var e := Eligible(s, ref, dir); var w := WithShadow(e, ref, dir);
      (forall y :: y in e <==> y in s && InDirection(y.rect, ref, dir) && HasArea(y.rect)) &&
      |w| == |e| &&
      (forall i :: 0 <= i < |e| ==>
         w[i].el == e[i].el && w[i].rect == e[i].rect && w[i].percentInShadow == Shadow(e[i].rect, ref, dir))
  {
  }

  /** An in-shadow entry of the scored list at the minimum is a nearest eligible candidate in shadow. */
  lemma {:induction false} AtMinIsNearestEligible(s: seq<Potential>, ref: Rect, dir: Direction, zw: Potential)
    requires InShadowAtMin(zw, WithShadow(Eligible(s, ref, dir), ref, dir), ref, dir)
    ensures exists z :: NearestEligibleInShadow(z, s, ref, dir) && z.el == zw.el && z.rect == zw.rect
  {
    var e := Eligible(s, ref, dir);
    var w := WithShadow(e, ref, dir);
    ScoredEligibleFacts(s, ref, dir);
    var j :| 0 <= j < |w| && w[j] == zw;
    var z := e[j];
    assert z in e;
    forall y | EligibleInShadow(y, s, ref, dir)
      ensures PrimaryDistance(z.rect, ref, dir) <= PrimaryDistance(y.rect, ref, dir)
    {
      assert y in e;
      var k :| 0 <= k < |e| && e[k] == y;
      assert w[k] in w;
    }
    assert NearestEligibleInShadow(z, s, ref, dir);
  }

  /** A nearest eligible candidate in shadow appears at the minimum of the scored list. */
  lemma {:induction false} NearestEligibleIsAtMin(s: seq<Potential>, ref: Rect, dir: Direction, z: Potential)
    requires NearestEligibleInShadow(z, s, ref, dir)
    ensures exists zw :: InShadowAtMin(zw, WithShadow(Eligible(s, ref, dir), ref, dir), ref, dir) &&
                         zw.el == z.el && zw.rect == z.rect
  {
    var e := Eligible(s, ref, dir);
    var w := WithShadow(e, ref, dir);
    ScoredEligibleFacts(s, ref, dir);
    assert z in e;
    var i :| 0 <= i < |e| && e[i] == z;
    var zw := w[i];
    assert zw in w;
    forall y | y in w && y.percentInShadow > 0.0
      ensures PrimaryDistance(zw.rect, ref, dir) <= PrimaryDistance(y.rect, ref, dir)
    {
      var k :| 0 <= k < |w| && w[k] == y;
      assert e[k] in e;
      assert EligibleInShadow(e[k], s, ref, dir);
    }
    assert InShadowAtMin(zw, w, ref, dir);
  }

  /**
   * The overlap case of `find`: when some eligible candidate overlaps on
   * the cross axis, the answer is an overlapping eligible candidate at the
   * shortest primary distance among those.
   */
  lemma {:induction false} FindWithShadow(s: seq<Potential>, ref: Rect, dir: Direction, prevEl: Option<Node>, x0: Potential)
    requires EligibleInShadow(x0, s, ref, dir)
    ensures FindSpec(s, ref, dir, prevEl).Ok? && FindSpec(s, ref, dir, prevEl).value.Some?
    ensures exists z :: NearestEligibleInShadow(z, s, ref, dir) && FindSpec(s, ref, dir, prevEl).value.value == z.el
  {
    var e := Eligible(s, ref, dir);
    var w := WithShadow(e, ref, dir);
    ScoredEligibleFacts(s, ref, dir);
    assert x0 in e;
    var i0 :| 0 <= i0 < |e| && e[i0] == x0;
    assert w[i0] in w;
    assert HasElementsInShadow(w);
    var c := NearestInShadow(w, ref, dir);
    assert FindSpec(s, ref, dir, prevEl) == Ok(TieBreak(c, dir, prevEl));
    TieBreakDrawn(c, dir, prevEl);
    var x :| x in c && x.el == TieBreak(c, dir, prevEl).value;
    NearestInShadowSound(w, ref, dir, x);
    var zw :| InShadowAtMin(zw, w, ref, dir) && zw.el == x.el && zw.rect == x.rect;
    AtMinIsNearestEligible(s, ref, dir, zw);
  }

  /** In the overlap case the tie-break element wins whenever it is a nearest overlapping candidate. */
  lemma {:induction false} FindPrefersTieBreakElement(s: seq<Potential>, ref: Rect, dir: Direction, z: Potential)
    requires NearestEligibleInShadow(z, s, ref, dir)
    ensures FindSpec(s, ref, dir, Some(z.el)) == Ok(Some(z.el))
  {
    var e := Eligible(s, ref, dir);
    var w := WithShadow(e, ref, dir);
    NearestEligibleIsAtMin(s, ref, dir, z);
    var zw :| InShadowAtMin(zw, w, ref, dir) && zw.el == z.el && zw.rect == z.rect;
    assert e != [] by {
      ScoredEligibleFacts(s, ref, dir);
    }
    var c := NearestInShadow(w, ref, dir);
    NearestInShadowComplete(w, ref, dir, zw);
    TieBreakOrder(c, dir, Some(z.el));
  }

  /**
   * `FocusByDistance.findNextFocus` only answers with a `[tabIndex]`
   * descendant of the root that is focusable and not ignored.
   */
  lemma {:induction false} FindNextFocusCandidate(doc: Document, opts: FocusOptions, n: Node)
    requires FindNextFocus(doc, opts) == Ok(Some(n))
    ensures n in doc.QuerySelectorAll(opts.root, TabIndexSelector)
    ensures n !in opts.ignore && doc.isFocusable(n)
    ensures opts.direction.IsDirectional()
  {
    var cands := FocusableCandidates(doc, opts);
    var s := Shortlist(doc, cands);
    FindResultIsEligible(s, opts.referenceRect, opts.direction, Some(opts.activeElement), n);
    var x :| x in s && x.el == n && InDirection(x.rect, opts.referenceRect, opts.direction) && HasArea(x.rect);
    var i :| 0 <= i < |s| && s[i] == x;
    assert cands[i] in cands;
  }
}
