/**
 * The gamepad button enumeration and its directional / non-directional
 * partition (src/model.ts). The numeric values follow the "standard" button
 * layout of the W3C Gamepad specification: 0-9 for face, shoulder, trigger
 * and meta buttons, 12-15 for the D-pad.
 */
module Buttons {

  datatype Button =
    | Submit | Back | X | Y
    | TabLeft   // left bumper
    | TabRight  // right bumper
    | TabUp     // left trigger
    | TabDown   // right trigger
    | View | Menu
    | Up | Down | Left | Right
  {
    /** The numeric value the enum assigns to the button. */
    function Code(): nat
    {
      match this
      case Submit => 0
      case Back => 1
      case X => 2
      case Y => 3
      case TabLeft => 4
      case TabRight => 5
      case TabUp => 6
      case TabDown => 7
      case View => 8
      case Menu => 9
      case Up => 12
      case Down => 13
      case Left => 14
      case Right => 15
    }

    predicate IsHorizontal() { this == Left || this == Right }

    predicate IsVertical() { this == Up || this == Down }

    predicate IsDirectional() { this == Up || this == Down || this == Left || this == Right }
  }

  /** A button that moves the focus. */
  type Direction = b: Button | b.IsDirectional() witness Left

  /** `directionalButtons`, in insertion order. */
  const DirectionalOrder: seq<Button> := [Left, Right, Up, Down]

  /** `nonDirectionalButtons`, in insertion order. */
  const NonDirectionalOrder: seq<Button> :=
    [Submit, Back, X, Y, TabLeft, TabRight, TabUp, TabDown, View, Menu]

  /** `buttons`: the non-directional buttons first, then the directional ones. */
  const AllButtons: seq<Button> := NonDirectionalOrder + DirectionalOrder

  const DirectionalButtons: set<Button> := set b | b in DirectionalOrder

  const NonDirectionalButtons: set<Button> := set b | b in NonDirectionalOrder

  /** The two sets partition the enumeration, and membership agrees with `isDirectional`. */
  lemma ButtonSetsPartition(b: Button)
    ensures b in DirectionalButtons <==> b.IsDirectional()
    ensures b in NonDirectionalButtons <==> !b.IsDirectional()
    ensures b in AllButtons
    ensures DirectionalButtons !! NonDirectionalButtons
  {
  }

  /** The directional set has four members and the non-directional set ten. */
  lemma ButtonSetSizes()
    ensures |DirectionalButtons| == 4 && |NonDirectionalButtons| == 10
  {
    DistinctElementsCount(DirectionalOrder);
    DistinctElementsCount(NonDirectionalOrder);
  }

  /** A sequence without repetitions has as many elements as its set. */
  lemma {:induction false} DistinctElementsCount(s: seq<Button>)
    requires forall i, j :: 0 <= i < j < |s| ==> s[i] != s[j]
    ensures |set x | x in s| == |s|
  {
    if s != [] {
      DistinctElementsCount(s[1..]);
      assert (set x | x in s) == (set x | x in s[1..]) + {s[0]};
      assert s[0] !in (set x | x in s[1..]);
    }
  }

  /** `buttons` holds 14 distinct values, non-directional ones first. */
  lemma AllButtonsOrder()
    ensures |AllButtons| == 14
    ensures forall i, j :: 0 <= i < j < |AllButtons| ==> AllButtons[i] != AllButtons[j]
    ensures forall i :: 0 <= i < 10 ==> !AllButtons[i].IsDirectional()
    ensures forall i :: 10 <= i < 14 ==> AllButtons[i].IsDirectional()
  {
  }

  /** Horizontal and vertical are exclusive and together are exactly the directional buttons. */
  lemma AxesPartitionDirections(b: Button)
    ensures !(b.IsHorizontal() && b.IsVertical())
    ensures b.IsDirectional() <==> b.IsHorizontal() || b.IsVertical()
  {
  }

  /** The enum values are distinct, skip 10 and 11, and stay within 0..15. */
  lemma CodesDistinct(a: Button, b: Button)
    ensures a != b ==> a.Code() != b.Code()
    ensures a.Code() != 10 && a.Code() != 11 && a.Code() <= 15
    ensures a.IsDirectional() <==> 12 <= a.Code()
  {
  }
}
