/**
 * Running registered callbacks on an event: one `Action`, and the chain
 * `callForEach` builds for a merged handler
 * (src/state/element-state-record.ts).
 */
module Callbacks {
  import opened Wrappers
  import opened Dom
  import opened Handlers
  import opened Events
  import ArcFocusTrap
  import ArcFocusArea
  import ArcExclude

  /** The effect of one callback on the event; an `Err` is a thrown error. */
  function ApplyAction(doc: Document, a: Action, e: EventState): Result<EventState, string>
  {
    match a
    case Noop => Ok(e)
    case Stop => Ok(Stopped(e))
    case Prevent => Ok(Prevented(e))
    case Redirect(to) => Ok(WithNext(e, to))
    case TrapVeto(trap) => Ok(ArcFocusTrap.TrapOutgoing(doc, trap, e))
    case AreaRedirect(area, focusIn) => Ok(ArcFocusArea.AreaIncoming(doc, area, focusIn, e))
    case ExcludeRetry(wrapper, deep) => ArcExclude.ExcludeIncoming(doc, wrapper, deep, e)
  }

  /** The outcome of running a chain: the event or the error, and how many callbacks were called. */
  datatype Run = Run(result: Result<EventState, string>, calls: nat)

  /**
   * The chain: each callback in registration order, stopping right after
   * one that leaves propagation stopped, or at the first error.
   */
  function RunChain(doc: Document, actions: seq<Action>, e: EventState): (r: Run)
    ensures r.calls <= |actions|
    decreases |actions|
  {
    if |actions| == 0 then Run(Ok(e), 0)
    else match ApplyAction(doc, actions[0], e)
      case Err(m) => Run(Err(m), 1)
      case Ok(e1) =>
        if e1.propagationStopped then Run(Ok(e1), 1)
        else
          var rest := RunChain(doc, actions[1..], e1);
          Run(rest.result, rest.calls + 1)
  }

  /** The event fields no callback changes, and the flags none clears. */
  predicate Evolves(e: EventState, r: EventState)
  {
    r.directive == e.directive && r.event == e.event && r.target == e.target &&
    r.focusContext == e.focusContext &&
    (e.defaultPrevented ==> r.defaultPrevented) &&
    (e.propagationStopped ==> r.propagationStopped)
  }

  /** A callback keeps the event's identity and never clears a flag. */
  lemma ActionEvolves(doc: Document, a: Action, e: EventState)
    ensures ApplyAction(doc, a, e).Ok? ==> Evolves(e, ApplyAction(doc, a, e).value)
  {
    if a.ExcludeRetry? {
      ArcExclude.ExcludeIncomingResult(doc, a.wrapper, a.deep, e);
    }
  }

  /** So does a chain of them. */
  lemma {:induction false} ChainEvolves(doc: Document, actions: seq<Action>, e: EventState)
    ensures RunChain(doc, actions, e).result.Ok? ==> Evolves(e, RunChain(doc, actions, e).result.value)
    decreases |actions|
  {
    if |actions| > 0 {
      ActionEvolves(doc, actions[0], e);
      var r := ApplyAction(doc, actions[0], e);
      if r.Ok? && !r.value.propagationStopped {
        ChainEvolves(doc, actions[1..], r.value);
      }
    }
  }

  /**
   * Running two chains back to back is running their concatenation, except
   * that the second never starts once the first stopped propagation.
   */
  lemma {:induction false} ChainAppend(doc: Document, a: seq<Action>, b: seq<Action>, e: EventState)
    ensures var first := RunChain(doc, a, e);
      RunChain(doc, a + b, e) ==
        if first.result.Err? || (|a| > 0 && first.result.value.propagationStopped) then first
        else var second := RunChain(doc, b, first.result.value); Run(second.result, first.calls + second.calls)
    decreases |a|
  {
    if |a| > 0 {
      assert (a + b)[0] == a[0];
      assert (a + b)[1..] == a[1..] + b;
      var r := ApplyAction(doc, a[0], e);
      if r.Ok? && !r.value.propagationStopped {
        ChainAppend(doc, a[1..], b, r.value);
        if |a| > 1 {
          assert RunChain(doc, a[1..], r.value).result.Ok? ==>
            RunChain(doc, a, e).result == RunChain(doc, a[1..], r.value).result;
        } else {
          assert a[1..] == [];
        }
      }
    } else {
      assert a + b == b;
    }
  }

  /** A chain that starts with a stop calls nothing after it. */
  lemma StopEndsChain(doc: Document, rest: seq<Action>, e: EventState)
    ensures RunChain(doc, [Stop] + rest, e) == Run(Ok(Stopped(e)), 1)
  {
  }

  /**
   * Four records on one element, the third of which stops propagation: the
   * merged callback calls the first three and not the fourth.
   */
  lemma ThirdStopSkipsFourth(doc: Document, e: EventState)
    requires !e.propagationStopped
    ensures RunChain(doc, [Noop, Noop, Stop, Noop], e) == Run(Ok(Stopped(e)), 3)
  {
    assert [Noop, Noop, Stop, Noop][1..] == [Noop, Stop, Noop];
    assert [Noop, Stop, Noop][1..] == [Stop, Noop];
  }

  /** One callback, on the event object. */
  method Apply(doc: Document, a: Action, ev: ArcEvent) returns (err: Option<string>)
    modifies ev
    ensures match ApplyAction(doc, a, old(ev.State()))
      case Ok(e) => err.None? && ev.State() == e
      case Err(m) => err == Some(m)
  {
    err := None;
    match a
    case Noop =>
    case Stop => ev.StopPropagation();
    case Prevent => ev.PreventDefault();
    case Redirect(to) => ev.SetNext(to);
    case TrapVeto(trap) => ArcFocusTrap.OnOutgoing(doc, trap, ev);
    case AreaRedirect(area, focusIn) => ArcFocusArea.OnIncoming(doc, area, focusIn, ev);
    case ExcludeRetry(wrapper, deep) => err := ArcExclude.OnIncoming(doc, wrapper, deep, ev);
  }

  /** `callForEach(method)(ev)`: the loop over the records' callbacks. */
  method CallForEach(doc: Document, actions: seq<Action>, ev: ArcEvent) returns (err: Option<string>)
    modifies ev
    ensures match RunChain(doc, actions, old(ev.State())).result
      case Ok(e) => err.None? && ev.State() == e
      case Err(m) => err == Some(m)
  {
    ghost var goal := RunChain(doc, actions, ev.State()).result;
    var i := 0;
    while i < |actions|
      invariant 0 <= i <= |actions|
      invariant RunChain(doc, actions[i..], ev.State()).result == goal
    {
      err := Apply(doc, actions[i], ev);
      if err.Some? {
        return;
      }
      if ev.propagationStopped {
        return;
      }
      assert actions[i..][1..] == actions[i + 1..];
      i := i + 1;
    }
    return None;
  }
}
