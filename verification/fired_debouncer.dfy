/**
 * `FiredDebouncer` (src/core/fired-debouncer.ts): a rising-edge detector for
 * a button. The predicate's reading at each `attempt` is passed in as
 * `pressed`.
 */
module FiredDebouncers {

  /** One `attempt()`: whether it fires, and the new `fired` flag. */
  function FiredStep(fired: bool, pressed: bool): (r: (bool, bool))
  {
    (!fired && pressed, pressed)
  }

  /** The answers of consecutive attempts with the given readings. */
  function FiredRun(fired: bool, readings: seq<bool>): (r: seq<bool>)
    ensures |r| == |readings|
    decreases |readings|
  {
    if |readings| == 0 then []
    else
      var (out, next) := FiredStep(fired, readings[0]);
      [out] + FiredRun(next, readings[1..])
  }

  /**
   * An attempt fires exactly when the predicate holds now and did not hold
   * at the previous attempt; the first attempt compares against the stored
   * flag, which is false on a fresh debouncer.
   */
  lemma {:induction false} FiresOnRisingEdge(fired: bool, readings: seq<bool>, i: nat)
    requires i < |readings|
    ensures FiredRun(fired, readings)[i] ==
              (readings[i] && !(if i == 0 then fired else readings[i - 1]))
    decreases i
  {
    if i > 0 {
      FiresOnRisingEdge(readings[0], readings[1..], i - 1);
    }
  }

  /** A run of pressed readings fires once, on its first attempt, and only if not already fired. */
  lemma {:induction false} HeldFiresOnce(fired: bool, readings: seq<bool>)
    requires |readings| > 0 && forall k :: 0 <= k < |readings| ==> readings[k]
    ensures FiredRun(fired, readings)[0] == !fired
    ensures forall k :: 0 < k < |readings| ==> !FiredRun(fired, readings)[k]
  {
    forall k | 0 <= k < |readings| ensures FiredRun(fired, readings)[k] == (k == 0 && !fired) {
      FiresOnRisingEdge(fired, readings, k);
    }
  }

  class FiredDebouncer {
    var fired: bool

    constructor ()
      ensures !fired
    {
      fired := false;
    }

    /** `attempt()`: fires on a rising edge; `fired` keeps the latest reading. */
    method Attempt(pressed: bool) returns (r: bool)
      modifies this
      ensures (r, fired) == FiredStep(old(fired), pressed)
    {
      var hadFired := fired;
      fired := pressed;
      return !hadFired && pressed;
    }
  }
}
