/**
 * `DirectionalDebouncer` (src/core/directional-debouncer.ts): the repeat
 * timing of a held direction. A press fires at once, fires again after the
 * initial delay, and then fires at the fast interval for as long as it is
 * held.
 *
 * The predicate the debouncer closes over is read once per `attempt`; the
 * model passes that reading in as `pressed`. Times are milliseconds.
 */
module DirectionalDebouncers {

  /** `DirectionalDebouncer.initialDebounce`. */
  const InitialDebounce: real := 500.0

  /** `DirectionalDebouncer.fastDebounce`. */
  const FastDebounce: real := 150.0

  datatype Stage = Idle | Held | Fast

  datatype DebounceState = DebounceState(stage: Stage, heldAt: real)

  datatype Attempted = Attempted(fired: bool, state: DebounceState)

  /** The state of a fresh debouncer. */
  const Initial: DebounceState := DebounceState(Idle, 0.0)

  /** The delay a stage waits for before firing again. */
  function Delay(stage: Stage): real
  {
    match stage
    case Idle => 0.0
    case Held => InitialDebounce
    case Fast => FastDebounce
  }

  /** Stages in the order a held press goes through them. */
  function Rank(stage: Stage): nat
  {
    match stage
    case Idle => 0
    case Held => 1
    case Fast => 2
  }

  /**
   * One `attempt(now)` with the given predicate reading. A released
   * predicate never fires and returns to `Idle`; a pressed one fires at once
   * from `Idle`, and otherwise exactly when the stage's delay has passed
   * since `heldAt`. `heldAt` moves only on a call that fires, and then to
   * `now`; the stage never moves backwards except to `Idle` on a released
   * predicate.
   */
  function Step(s: DebounceState, pressed: bool, now: real): (a: Attempted)
    ensures !pressed ==> !a.fired && a.state == DebounceState(Idle, s.heldAt)
    ensures pressed && s.stage == Idle ==> a.fired && a.state == DebounceState(Held, now)
    ensures pressed && s.stage != Idle ==>
              (a.fired <==> now - s.heldAt >= Delay(s.stage)) &&
              a.state == (if a.fired then DebounceState(Fast, now) else s)
    ensures a.state.heldAt != s.heldAt ==> a.fired
    ensures a.fired ==> a.state.heldAt == now
    ensures Rank(a.state.stage) < Rank(s.stage) ==> !pressed && a.state.stage == Idle
  {
    if !pressed then Attempted(false, s.(stage := Idle))
    else match s.stage
      case Idle => Attempted(true, DebounceState(Held, now))
      case Held =>
        if now - s.heldAt < InitialDebounce then Attempted(false, s)
        else Attempted(true, DebounceState(Fast, now))
      case Fast =>
        if now - s.heldAt < FastDebounce then Attempted(false, s)
        else Attempted(true, DebounceState(Fast, now))
  }

  /** The state after polling an always-pressed predicate at times 0, 1, ..., n - 1. */
  function HeldPolls(n: nat): DebounceState
  {
    if n == 0 then Initial else Step(HeldPolls(n - 1), true, (n - 1) as real).state
  }

  /** Whether the poll at time t fires: at 0, 500, 650, 800, ... */
  predicate FiresAt(t: nat)
  {
    t == 0 || (t >= 500 && (t - 500) % 150 == 0)
  }

  /** The most recent firing time at or before t. */
  function LastFire(t: nat): nat
  {
    if t < 500 then 0 else 500 + 150 * ((t - 500) / 150)
  }

  /**
   * Holding a direction and polling every millisecond from time 0, the
   * debouncer fires at 0, 500, 650, 800, ... and at no other time.
   */
  lemma {:induction false} HeldSchedule(t: nat)
    ensures Step(HeldPolls(t), true, t as real).fired == FiresAt(t)
    ensures HeldPolls(t + 1) == DebounceState(if t < 500 then Held else Fast, LastFire(t) as real)
  {
    if t == 0 {
    } else {
      HeldSchedule(t - 1);
      if t - 1 < 500 {
        assert HeldPolls(t) == DebounceState(Held, 0.0);
      } else {
        var q := (t - 501) / 150;
        var r := (t - 501) % 150;
        assert t - 501 == 150 * q + r && 0 <= r < 150;
        assert LastFire(t - 1) == 500 + 150 * q;
        if r == 149 {
          assert t - 500 == 150 * (q + 1);
          assert (t - 500) % 150 == 0;
          assert (t - 500) / 150 == q + 1;
        } else {
          assert t - 500 == 150 * q + (r + 1) && 0 < r + 1 < 150;
          assert (t - 500) % 150 == r + 1;
          assert (t - 500) / 150 == q;
        }
      }
    }
  }

  /** The debouncer object of one direction. */
  class DirectionalDebouncer {
    var heldAt: real
    var stage: Stage

    function State(): DebounceState
      reads this
    {
      DebounceState(stage, heldAt)
    }

    constructor ()
      ensures State() == Initial
    {
      heldAt := 0.0;
      stage := Idle;
    }

    /** `attempt(now)`, given the predicate's reading. */
    method Attempt(pressed: bool, now: real) returns (fired: bool)
      modifies this
      ensures Attempted(fired, State()) == Step(old(State()), pressed, now)
    {
      if !pressed {
        stage := Idle;
        return false;
      }
      match stage
      case Idle =>
        stage := Held;
        heldAt := now;
        return true;
      case Held =>
        if now - heldAt < InitialDebounce {
          return false;
        }
        heldAt := now;
        stage := Fast;
        return true;
      case Fast =>
        if now - heldAt < FastDebounce {
          return false;
        }
        heldAt := now;
        return true;
    }
  }
}
