/** The `onIncoming` retry loop ArcFocusExclude registers (src/components/arc-exclude.tsx). */
module ArcExclude {
  import opened Wrappers
  import opened Dom
  import opened Buttons
  import opened Handlers
  import opened FocusTypes
  import opened FocusIndex
  import opened Events

  /**
   * `isElementExcluded` for a present node: with `deep` not false (the
   * default) the wrapper and all its descendants are excluded, otherwise
   * the wrapper alone.
   */
  predicate IsExcludedNode(doc: Document, wrapper: Node, deep: Option<bool>, n: Node)
  {
    if deep != Some(false) then doc.Contains(wrapper, n) else wrapper == n
  }

  /** `isElementExcluded`: a null node is never excluded. */
  predicate IsExcluded(doc: Document, wrapper: Node, deep: Option<bool>, n: Option<Node>)
  {
    n.Some? && IsExcludedNode(doc, wrapper, deep, n.value)
  }

  /** Every node that can be excluded: the wrapper and the nodes with a parent link. */
  function Excludable(doc: Document, wrapper: Node): set<Node>
  {
    {wrapper} + doc.parent.Keys
  }

  lemma ExcludedIsExcludable(doc: Document, wrapper: Node, deep: Option<bool>)
    ensures forall n :: IsExcludedNode(doc, wrapper, deep, n) ==> n in Excludable(doc, wrapper)
  {
    forall n | IsExcludedNode(doc, wrapper, deep, n)
      ensures n in Excludable(doc, wrapper)
    {
      if n != wrapper {
        ContainedHasParent(doc, wrapper, n);
      }
    }
  }

  /** The context's answer for a given ignore set, as the loop asks it. */
  type Finder = set<Node> -> Result<Option<Node>, string>

  function ContextFinder(doc: Document, ctx: FocusContext): Finder
  {
    ig => Find(doc, ctx, None, ig)
  }

  /** The exclusion test of one wrapper, as a predicate on nodes. */
  function ExclusionTest(doc: Document, wrapper: Node, deep: Option<bool>): Node -> bool
  {
    (n: Node) => IsExcludedNode(doc, wrapper, deep, n)
  }

  /** Ignoring one more excluded node shrinks what is left to ignore. */
  lemma ExclusionShrinks(universe: set<Node>, n: Node, exclusions: set<Node>)
    requires n in universe && n !in exclusions
    ensures |universe - (exclusions + {n})| < |universe - exclusions|
  {
    var a := universe - exclusions;
    assert universe - (exclusions + {n}) == a - {n};
    assert n in a;
  }

  /**
   * One pass of the loop as written: the excluded `next` joins the ignore
   * set and `next` is asked of the focus context again.
   */
  function ExcludeStep(find: Finder, next: Node, exclusions: set<Node>): (Result<Option<Node>, string>, set<Node>)
  {
    (find(exclusions + {next}), exclusions + {next})
  }

  /**
   * The loop as written never leaves a state where `next` is excluded,
   * already ignored, and still the context's answer: the step maps that
   * state to itself and the loop condition still holds.
   */
  lemma {:induction false} ExcludeLoopFixedPoint(find: Finder, next: Node, exclusions: set<Node>)
    requires next in exclusions
    requires find(exclusions) == Ok(Some(next))
    ensures ExcludeStep(find, next, exclusions) == (Ok(Some(next)), exclusions)
  {
    assert exclusions + {next} == exclusions;
  }

  /**
   * `FocusByRegistry` does not honour `ignore`: a context whose first
   * strategy is the registry, with an override for the direction that
   * names an element, answers that element whatever is ignored. When the
   * element is excluded, the loop as written reaches the fixed point above
   * after one pass and spins for ever.
   */
  lemma {:induction false} RegistryOverrideHangsExclusion(doc: Document, ctx: FocusContext, w: Node)
    requires |ctx.strategies| > 0 && ctx.strategies[0] == ByRegistry
    requires ctx.source.directive.Some?
    requires FocusOverride(ctx.source.directive.value, ctx.direction) == Some(Element(w))
    ensures forall ignore: set<Node> :: Find(doc, ctx, None, ignore) == Ok(Some(w))
    ensures ExcludeStep(ContextFinder(doc, ctx), w, {}) == (Ok(Some(w)), {w})
    ensures ExcludeStep(ContextFinder(doc, ctx), w, {w}) == (Ok(Some(w)), {w})
  {
    forall ignore: set<Node>
      ensures Find(doc, ctx, None, ignore) == Ok(Some(w))
    {
      var opts := Options(ctx, ctx.defaultRoot, ignore);
      assert Answers(doc, ctx.strategies, opts)[0] == Ok(Some(w));
    }
    assert {} + {w} == {w};
    ExcludeLoopFixedPoint(ContextFinder(doc, ctx), w, {w});
  }

  /**
   * The loop with the evidently intended exit: when the context answers a
   * node that is already ignored (a strategy that does not honour
   * `ignore`), nothing acceptable is left and `next` becomes null.
   */
  function ExcludeFrom(excluded: Node -> bool, universe: set<Node>, find: Finder, next: Option<Node>, exclusions: set<Node>): (r: Result<Option<Node>, string>)
    requires forall n :: excluded(n) ==> n in universe
    decreases |universe - exclusions|
  {
    if next.None? || !excluded(next.value) then Ok(next)
    else if next.value in exclusions then Ok(None)
    else
      ExclusionShrinks(universe, next.value, exclusions);
      match find(exclusions + {next.value})
      case Err(e) => Err(e)
      case Ok(n) => ExcludeFrom(excluded, universe, find, n, exclusions + {next.value})
  }

  /**
   * On exit `next` is null or not excluded, and a non-null `next` is either
   * the one the loop started with or the context's answer for a larger
   * ignore set.
   */
  lemma {:induction false} ExcludeFromResult(excluded: Node -> bool, universe: set<Node>, find: Finder, next: Option<Node>, exclusions: set<Node>)
    requires forall n :: excluded(n) ==> n in universe
    ensures var r := ExcludeFrom(excluded, universe, find, next, exclusions);
      r.Ok? ==> ((r.value.None? || !excluded(r.value.value)) &&
                 (r.value.Some? ==> r.value == next || exists ig: set<Node> :: exclusions < ig && find(ig) == Ok(r.value)))
    decreases |universe - exclusions|
  {
    if next.Some? && excluded(next.value) && next.value !in exclusions {
      ExclusionShrinks(universe, next.value, exclusions);
      var ig := exclusions + {next.value};
      match find(ig)
      case Err(_) =>
      case Ok(n) =>
        ExcludeFromResult(excluded, universe, find, n, ig);
        var r := ExcludeFrom(excluded, universe, find, n, ig);
        if r.Ok? && r.value.Some? && r.value != n {
          var ig2: set<Node> :| ig < ig2 && find(ig2) == Ok(r.value);
          assert exclusions < ig2;
        }
    }
  }

  /**
   * The closure on an event value: a null or non-excluded `next` is left
   * alone; otherwise the retry loop runs and its answer is assigned to
   * `next` (which, on a focus event, stops propagation).
   */
  function ExcludeIncoming(doc: Document, wrapper: Node, deep: Option<bool>, e: EventState): Result<EventState, string>
  {
    if !IsExcluded(doc, wrapper, deep, e.next) then Ok(e)
    else if e.focusContext.None? then Err("focusContext is undefined")
    else
      ExcludedIsExcludable(doc, wrapper, deep);
      match ExcludeFrom(ExclusionTest(doc, wrapper, deep), Excludable(doc, wrapper),
                        ContextFinder(doc, e.focusContext.value), e.next, {})
      case Err(m) => Err(m)
      case Ok(n) => Ok(WithNext(e, n))
  }

  /** The closure leaves a null `next` alone and never exits with an excluded `next`. */
  lemma ExcludeIncomingResult(doc: Document, wrapper: Node, deep: Option<bool>, e: EventState)
    ensures e.next.None? ==> ExcludeIncoming(doc, wrapper, deep, e) == Ok(e)
    ensures ExcludeIncoming(doc, wrapper, deep, e).Ok? ==>
      !IsExcluded(doc, wrapper, deep, ExcludeIncoming(doc, wrapper, deep, e).value.next)
    ensures ExcludeIncoming(doc, wrapper, deep, e).Ok? ==>
      ExcludeIncoming(doc, wrapper, deep, e).value.defaultPrevented == e.defaultPrevented
  {
    if IsExcluded(doc, wrapper, deep, e.next) && e.focusContext.Some? {
      ExcludedIsExcludable(doc, wrapper, deep);
      ExcludeFromResult(ExclusionTest(doc, wrapper, deep), Excludable(doc, wrapper),
                        ContextFinder(doc, e.focusContext.value), e.next, {});
    }
  }

  /** The closure with the corrected loop, acting on the event object. */
  method OnIncoming(doc: Document, wrapper: Node, deep: Option<bool>, ev: ArcEvent) returns (err: Option<string>)
    modifies ev
    ensures match ExcludeIncoming(doc, wrapper, deep, old(ev.State()))
      case Ok(e) => err.None? && ev.State() == e
      case Err(m) => err == Some(m)
  {
    if !IsExcluded(doc, wrapper, deep, ev.next) {
      return None;
    }
    if ev.focusContext.None? {
      return Some("focusContext is undefined");
    }
    ExcludedIsExcludable(doc, wrapper, deep);
    err := RetryExcluded(ExclusionTest(doc, wrapper, deep), Excludable(doc, wrapper),
                         ContextFinder(doc, ev.focusContext.value), ev);
  }

  /**
   * The `while` loop of the closure: each excluded `next` joins the
   * ignore set and the context's next answer is assigned to the event.
   */
  method RetryExcluded(excluded: Node -> bool, ghost universe: set<Node>, find: Finder, ev: ArcEvent) returns (err: Option<string>)
    requires forall n :: excluded(n) ==> n in universe
    requires ev.next.Some? && excluded(ev.next.value)
    modifies ev
    ensures match ExcludeFrom(excluded, universe, find, old(ev.next), {})
      case Ok(n) => err.None? && ev.State() == WithNext(old(ev.State()), n)
      case Err(m) => err == Some(m)
  {
    ghost var e0 := ev.State();
    ghost var goal := ExcludeFrom(excluded, universe, find, ev.next, {});
    var exclusions: set<Node> := {};
    var next := ev.next;
    ghost var moved := false;
    while next.Some? && excluded(next.value)
      invariant ExcludeFrom(excluded, universe, find, next, exclusions) == goal
      invariant !moved ==> exclusions == {} && next == e0.next && ev.State() == e0
      invariant moved ==> ev.State() == WithNext(e0, next)
      decreases |universe - exclusions|
    {
      if next.value in exclusions {
        ev.SetNext(None);
        return None;
      }
      ghost var current := next;
      ExclusionShrinks(universe, next.value, exclusions);
      exclusions := exclusions + {next.value};
      var found := find(exclusions);
      match found {
        case Err(m) => return Some(m);
        case Ok(n) => next := n;
      }
      assert ExcludeFrom(excluded, universe, find, next, exclusions) == goal;
      AssignNextTwice(e0, current, next);
      ev.SetNext(next);
      moved := true;
    }
    if !moved {
      assert false;
    }
    return None;
  }
}
