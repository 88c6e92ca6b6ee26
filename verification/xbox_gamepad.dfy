/**
 * `XboxGamepadWrapper` (src/input/xbox-gamepad.ts): turns the raw state of
 * one gamepad into per-button "fired" answers. Each direction reads its
 * stick axis or its D-pad button through a `DirectionalDebouncer`; every
 * other button reads its own pressed flag through a `FiredDebouncer`.
 */
module XboxGamepad {
  import opened Buttons
  import opened DirectionalDebouncers
  import opened FiredDebouncers

  /** `XboxGamepadWrapper.joystickThreshold`. */
  const JoystickThreshold: real := 0.5

  /**
   * A `Gamepad` as the browser reports it: the axis readings, the pressed
   * flag of each button (indexed by the button's code), and `connected`.
   */
  datatype Pad = Pad(axes: seq<real>, pressed: Button -> bool, connected: bool)

  /** `pad.axes[i] < bound`; a missing axis reads `undefined`, which compares false. */
  predicate AxisBelow(pad: Pad, i: nat, bound: real)
  {
    i < |pad.axes| && pad.axes[i] < bound
  }

  /** `pad.axes[i] > bound`, false for a missing axis. */
  predicate AxisAbove(pad: Pad, i: nat, bound: real)
  {
    i < |pad.axes| && pad.axes[i] > bound
  }

  /** The reading of the predicate a button's debouncer closes over. */
  predicate Reading(pad: Pad, b: Button)
  {
    match b
    case Left => AxisBelow(pad, 0, -JoystickThreshold) || pad.pressed(Left)
    case Right => AxisAbove(pad, 0, JoystickThreshold) || pad.pressed(Right)
    case Up => AxisBelow(pad, 1, -JoystickThreshold) || pad.pressed(Up)
    case Down => AxisAbove(pad, 1, JoystickThreshold) || pad.pressed(Down)
    case _ => pad.pressed(b)
  }

  /** Whether the stick sits inside the dead zone on both axes it reads. */
  predicate StickAtRest(pad: Pad)
  {
    forall i :: 0 <= i < 2 && i < |pad.axes| ==> -JoystickThreshold <= pad.axes[i] <= JoystickThreshold
  }

  /**
   * With the stick at rest, a direction reads exactly its D-pad button; and
   * whatever the stick does, a button other than the four directions reads
   * exactly its own pressed flag.
   */
  lemma ReadingAtRest(pad: Pad, b: Button)
    requires StickAtRest(pad) || !b.IsDirectional()
    ensures Reading(pad, b) == pad.pressed(b)
  {
    if b.IsDirectional() {
      assert 0 < |pad.axes| ==> -JoystickThreshold <= pad.axes[0] <= JoystickThreshold;
      assert 1 < |pad.axes| ==> -JoystickThreshold <= pad.axes[1] <= JoystickThreshold;
    }
  }

  /**
   * The stick alone never reads two opposite directions at once: without
   * the D-pad, Left and Right (and Up and Down) exclude each other.
   */
  lemma OppositeDirectionsExclusive(pad: Pad)
    ensures !pad.pressed(Left) && !pad.pressed(Right) ==> !(Reading(pad, Left) && Reading(pad, Right))
    ensures !pad.pressed(Up) && !pad.pressed(Down) ==> !(Reading(pad, Up) && Reading(pad, Down))
  {
  }

  /** What an entry of the `events` map calls. */
  datatype EventSource = Repeating(d: DirectionalDebouncer) | Edge(f: FiredDebouncer)
  {
    function Debouncer(): object
    {
      match this
      case Repeating(d) => d
      case Edge(f) => f
    }
  }

  /**
   * Every button has an entry; the four directions repeat, every other
   * button fires on its rising edge; no two buttons share a debouncer.
   */
  ghost predicate Wired(events: map<Button, EventSource>, objs: set<object>)
  {
    (forall b: Button :: b in events) &&
    (forall b: Button :: events[b].Repeating? <==> b.IsDirectional()) &&
    (forall b: Button :: events[b].Debouncer() in objs) &&
    (forall b: Button, c: Button :: b != c ==> events[b].Debouncer() != events[c].Debouncer())
  }

  /** Four distinct direction debouncers next to the edge debouncers make a full wiring. */
  lemma WiringCombines(edges: map<Button, EventSource>, objs: set<object>,
                       left: DirectionalDebouncer, right: DirectionalDebouncer,
                       up: DirectionalDebouncer, down: DirectionalDebouncer)
    requires forall b: Button :: b in edges <==> !b.IsDirectional()
    requires forall b :: b in edges ==> edges[b].Edge? && edges[b].f in objs
    requires forall b, c :: b in edges && c in edges && b != c ==> edges[b].f != edges[c].f
    requires left !in objs && right !in objs && up !in objs && down !in objs
    requires left != right && left != up && left != down && right != up && right != down && up != down
    ensures Wired(edges[Left := Repeating(left)][Right := Repeating(right)][Up := Repeating(up)][Down := Repeating(down)],
                  objs + {left, right, up, down})
  {
    var events := edges[Left := Repeating(left)][Right := Repeating(right)][Up := Repeating(up)][Down := Repeating(down)];
    var all := objs + {left, right, up, down};
    forall b: Button
      ensures b in events && (events[b].Repeating? <==> b.IsDirectional()) && events[b].Debouncer() in all
      ensures !b.IsDirectional() ==> events[b] == edges[b] && events[b].Debouncer() in objs
      ensures b.IsDirectional() ==> events[b].Debouncer() !in objs
    {
      if !b.IsDirectional() {
        assert b in edges;
      }
    }
    forall b: Button, c: Button | b != c
      ensures events[b].Debouncer() != events[c].Debouncer()
    {
      if !b.IsDirectional() && !c.IsDirectional() {
        assert edges[b].f != edges[c].f;
      }
    }
  }

  class XboxGamepadWrapper {
    var pad: Pad
    var events: map<Button, EventSource>
    ghost var Repr: set<object>

    ghost predicate Valid()
      reads this
    {
      Wired(events, Repr)
    }

    /** The constructor: one fresh debouncer per button, all in their initial state. */
    constructor (pad: Pad)
      ensures Valid() && fresh(Repr) && this.pad == pad
      ensures forall b: Button :: match events[b]
        case Repeating(d) => d.State() == Initial
        case Edge(f) => !f.fired
    {
      var left := new DirectionalDebouncer();
      var right := new DirectionalDebouncer();
      var up := new DirectionalDebouncer();
      var down := new DirectionalDebouncer();
      var edges, objs := EdgeEvents();
      this.pad := pad;
      events := edges[Left := Repeating(left)][Right := Repeating(right)][Up := Repeating(up)][Down := Repeating(down)];
      Repr := objs + {left, right, up, down};
      new;
      WiringCombines(edges, objs, left, right, up, down);
    }

    /** `events.get(b)(now)`: ask the button's debouncer with the pad's current reading. */
    method Fire(b: Button, now: real) returns (r: bool)
      requires Valid()
      modifies events[b].Debouncer()
      ensures match events[b]
        case Repeating(d) => Attempted(r, d.State()) == Step(old(d.State()), Reading(pad, b), now)
        case Edge(f) => (r, f.fired) == FiredStep(old(f.fired), Reading(pad, b))
    {
      match events[b]
      case Repeating(d) =>
        r := d.Attempt(Reading(pad, b), now);
      case Edge(f) =>
        r := f.Attempt(Reading(pad, b));
    }
  }

  /** The loop of the constructor that gives each non-directional button its own `FiredDebouncer`. */
  method EdgeEvents() returns (events: map<Button, EventSource>, ghost objs: set<object>)
    ensures forall b: Button :: b in events <==> !b.IsDirectional()
    ensures forall b :: b in events ==> events[b].Edge? && !events[b].f.fired && events[b].f in objs
    ensures forall b, c :: b in events && c in events && b != c ==> events[b].f != events[c].f
    ensures fresh(objs)
  {
    events := map[];
    objs := {};
    for i := 0 to |NonDirectionalOrder|
      invariant forall b :: b in events <==> b in NonDirectionalOrder[..i]
      invariant forall b :: b in events ==> events[b].Edge? && !events[b].f.fired && events[b].f in objs
      invariant forall b, c :: b in events && c in events && b != c ==> events[b].f != events[c].f
      invariant fresh(objs)
    {
      var button := NonDirectionalOrder[i];
      var debouncer := new FiredDebouncer();
      events := events[button := Edge(debouncer)];
      objs := objs + {debouncer};
    }
    assert NonDirectionalOrder[..|NonDirectionalOrder|] == NonDirectionalOrder;
    forall b: Button ensures b in events <==> !b.IsDirectional() {
      ButtonSetsPartition(b);
    }
  }
}
