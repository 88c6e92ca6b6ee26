/** `FocusContext` (src/focus/index.ts): the strategy chain of one focus change. */
module FocusIndex {
  import opened Wrappers
  import opened Dom
  import opened Buttons
  import opened Handlers
  import opened FocusTypes
  import FocusByRegistry
  import FocusByDistance
  import FocusByRaycast

  /** What the focus service knows about the selected element. */
  datatype Source = Source(
    activeElement: Node,
    directive: Option<Handler>,
    referenceRect: Rect,
    previousElement: Option<Node>)

  datatype FocusContext = FocusContext(
    defaultRoot: Node,
    direction: Button,
    strategies: seq<Strategy>,
    source: Source)

  /** One strategy's `findNextFocus`; a thrown 'Invalid direction' is an `Err`. */
  function RunStrategy(doc: Document, s: Strategy, opts: FocusOptions): Result<Option<Node>, string>
  {
    match s
    case ByRegistry => Ok(FocusByRegistry.FindNextFocus(doc, opts))
    case ByDistance => FocusByDistance.FindNextFocus(doc, opts)
    case ByRaycast => FocusByRaycast.RaycastSpec(doc, opts)
  }

  /**
   * The options `find` hands to every strategy: the source's fields, the
   * previous element defaulting to the active one, and the direction, root
   * and ignore set of this call.
   */
  function Options(ctx: FocusContext, root: Node, ignore: set<Node>): (o: FocusOptions)
    ensures o.direction == ctx.direction && o.root == root && o.ignore == ignore
    ensures o.activeElement == ctx.source.activeElement && o.directive == ctx.source.directive
    ensures o.referenceRect == ctx.source.referenceRect
    ensures ctx.source.previousElement.Some? ==> o.previousElement == ctx.source.previousElement.value
    ensures ctx.source.previousElement.None? ==> o.previousElement == ctx.source.activeElement
  {
    FocusOptions(
      direction := ctx.direction,
      root := root,
      activeElement := ctx.source.activeElement,
      previousElement := if ctx.source.previousElement.Some? then ctx.source.previousElement.value
                         else ctx.source.activeElement,
      referenceRect := ctx.source.referenceRect,
      ignore := ignore,
      directive := ctx.source.directive)
  }

  /**
   * The answers of the strategies, in list order. Strategies are pure, so
   * asking them all and reading the answers up to the first hit is the
   * loop's behaviour.
   */
  function Answers(doc: Document, strategies: seq<Strategy>, opts: FocusOptions): (r: seq<Result<Option<Node>, string>>)
    ensures |r| == |strategies|
    ensures forall i :: 0 <= i < |r| ==> r[i] == RunStrategy(doc, strategies[i], opts)
  {
    seq(|strategies|, i requires 0 <= i < |strategies| => RunStrategy(doc, strategies[i], opts))
  }

  /** The answers from index i on, stopping at the first non-null answer or the first throw. */
  function FirstHit(answers: seq<Result<Option<Node>, string>>, i: nat): Result<Option<Node>, string>
    decreases |answers| - i
  {
    if i >= |answers| then Ok(None)
    else
      match answers[i]
      case Err(e) => Err(e)
      case Ok(Some(n)) => Ok(Some(n))
      case Ok(None) => FirstHit(answers, i + 1)
  }

  /** `find(root = defaultRoot, ignore = new Set())`. */
  function Find(doc: Document, ctx: FocusContext, root: Option<Node>, ignore: set<Node>): Result<Option<Node>, string>
  {
    var r := if root.Some? then root.value else ctx.defaultRoot;
    FirstHit(Answers(doc, ctx.strategies, Options(ctx, r, ignore)), 0)
  }

  /**
   * A non-null answer is the answer of some strategy j, and every strategy
   * before j answered null; a null answer means every strategy answered
   * null (in particular, an empty list answers null).
   */
  lemma {:induction false} FirstHitIsFirstNonNull(answers: seq<Result<Option<Node>, string>>, i: nat)
    ensures FirstHit(answers, i).Ok? && FirstHit(answers, i).value.Some? ==>
      exists j :: i <= j < |answers| && answers[j] == FirstHit(answers, i) &&
        forall k :: i <= k < j ==> answers[k] == Ok(None)
    ensures FirstHit(answers, i) == Ok(None) ==> forall k :: i <= k < |answers| ==> answers[k] == Ok(None)
    decreases |answers| - i
  {
    if i < |answers| && answers[i] == Ok(None) {
      FirstHitIsFirstNonNull(answers, i + 1);
      var r := FirstHit(answers, i);
      if r.Ok? && r.value.Some? {
        var j :| i + 1 <= j < |answers| && answers[j] == r && forall k :: i + 1 <= k < j ==> answers[k] == Ok(None);
        assert forall k :: i <= k < j ==> answers[k] == Ok(None);
      }
    }
  }

  /**
   * Strategies after the first non-null answer (or the first throw) are not
   * consulted: the answer is the same whatever they would say.
   */
  lemma {:induction false} LaterStrategiesIgnored(answers: seq<Result<Option<Node>, string>>, rest: seq<Result<Option<Node>, string>>, i: nat)
    requires i <= |answers|
    requires FirstHit(answers, i) != Ok(None)
    ensures FirstHit(answers + rest, i) == FirstHit(answers, i)
    decreases |answers| - i
  {
    assert (answers + rest)[i] == answers[i];
    if answers[i] == Ok(None) {
      LaterStrategiesIgnored(answers, rest, i + 1);
    }
  }

  /** `find` answers with the first non-null strategy answer, made under this call's options. */
  lemma FindIsFirstNonNull(doc: Document, ctx: FocusContext, root: Option<Node>, ignore: set<Node>, n: Node)
    requires Find(doc, ctx, root, ignore) == Ok(Some(n))
    ensures var opts := Options(ctx, if root.Some? then root.value else ctx.defaultRoot, ignore);
      exists j :: 0 <= j < |ctx.strategies| && RunStrategy(doc, ctx.strategies[j], opts) == Ok(Some(n)) &&
        forall k :: 0 <= k < j ==> RunStrategy(doc, ctx.strategies[k], opts) == Ok(None)
  {
    var opts := Options(ctx, if root.Some? then root.value else ctx.defaultRoot, ignore);
    FirstHitIsFirstNonNull(Answers(doc, ctx.strategies, opts), 0);
  }

  /** The loop of `find`: asks each strategy in turn and returns the first non-null answer. */
  method FindFirst(doc: Document, ctx: FocusContext, root: Option<Node>, ignore: set<Node>)
    returns (r: Result<Option<Node>, string>)
    ensures r == Find(doc, ctx, root, ignore)
  {
    var opts := Options(ctx, if root.Some? then root.value else ctx.defaultRoot, ignore);
    ghost var answers := Answers(doc, ctx.strategies, opts);
    ghost var goal := FirstHit(answers, 0);
    assert Find(doc, ctx, root, ignore) == goal;
    var i := 0;
    while i < |ctx.strategies|
      invariant 0 <= i <= |ctx.strategies| == |answers|
      invariant FirstHit(answers, i) == goal
    {
      var selection := RunStrategy(doc, ctx.strategies[i], opts);
      FirstHitStep(answers, i);
      if selection != Ok(None) {
        return selection;
      }
      i := i + 1;
    }
    return Ok(None);
  }

  /** One step of `FirstHit`: a non-null answer or a throw ends the search, a null answer moves on. */
  lemma FirstHitStep(answers: seq<Result<Option<Node>, string>>, i: nat)
    requires i < |answers|
    ensures FirstHit(answers, i) == if answers[i] != Ok(None) then answers[i] else FirstHit(answers, i + 1)
  {
  }

  /** An empty strategy list finds nothing. */
  lemma NoStrategiesFindNothing(doc: Document, ctx: FocusContext, root: Option<Node>, ignore: set<Node>)
    requires ctx.strategies == []
    ensures Find(doc, ctx, root, ignore) == Ok(None)
  {
  }
}
