/**
 * The three `Array` operations the registries rely on, with the ECMAScript
 * meaning of their edge cases: `findIndex` and `lastIndexOf` answer -1
 * when nothing matches, and `splice(start, 1)` counts a negative `start`
 * from the end of the array (clamped at 0).
 */
module JsArrays {

  /** `s.findIndex(p)`: the first index whose element satisfies p, or -1. */
  function FindIndex<T>(s: seq<T>, p: T -> bool): (i: int)
    ensures -1 <= i < |s|
    ensures i >= 0 ==> p(s[i]) && forall j :: 0 <= j < i ==> !p(s[j])
    ensures i == -1 <==> forall j :: 0 <= j < |s| ==> !p(s[j])
  {
    if |s| == 0 then -1
    else if p(s[0]) then 0
    else
      var i := FindIndex(s[1..], p);
      assert forall j :: 1 <= j < |s| ==> s[j] == s[1..][j - 1];
      if i == -1 then -1 else i + 1
  }

  /** `s.lastIndexOf(x)`: the last index holding x, or -1. */
  function LastIndexOf<T(==)>(s: seq<T>, x: T): (i: int)
    ensures -1 <= i < |s|
    ensures i >= 0 ==> s[i] == x && forall j :: i < j < |s| ==> s[j] != x
    ensures i == -1 <==> x !in s
  {
    if |s| == 0 then -1
    else if s[|s| - 1] == x then |s| - 1
    else
      var i := LastIndexOf(s[..|s| - 1], x);
      assert forall j :: 0 <= j < |s| - 1 ==> s[j] == s[..|s| - 1][j];
      assert s == s[..|s| - 1] + [s[|s| - 1]];
      i
  }

  /** The position `splice` starts at: a negative start counts from the end, clamped at 0. */
  function SpliceStart(len: nat, start: int): (k: nat)
    ensures start < 0 ==> k == (if len + start < 0 then 0 else len + start)
    ensures start >= 0 ==> k == (if start < len then start else len)
  {
    if start < 0 then (if len + start < 0 then 0 else len + start)
    else if start < len then start else len
  }

  /** `s.splice(start, 1)`: removes the element at the resolved start, if there is one. */
  function Splice1<T>(s: seq<T>, start: int): (r: seq<T>)
    ensures var k := SpliceStart(|s|, start);
      (k < |s| ==> r == s[..k] + s[k + 1..] && |r| == |s| - 1) &&
      (k == |s| ==> r == s)
  {
    var k := SpliceStart(|s|, start);
    if k < |s| then s[..k] + s[k + 1..] else s
  }

  /**
   * `splice(-1, 1)` removes the last element of a non-empty array and
   * leaves an empty one unchanged.
   */
  lemma SpliceMinusOne<T>(s: seq<T>)
    ensures |s| > 0 ==> Splice1(s, -1) == s[..|s| - 1]
    ensures |s| == 0 ==> Splice1(s, -1) == s
  {
    if |s| > 0 {
      assert s[..|s| - 1] + s[|s|..] == s[..|s| - 1];
    }
  }
}
