/**
 * `RootStore` (src/root-store.ts): the stack of focus roots. `narrow`
 * pushes a scoped root and `restore` takes it out again; the current root
 * is the top of the stack.
 */
module RootStores {
  import opened Wrappers
  import opened Dom
  import opened JsArrays

  /** `element`: the last entry, `undefined` once the stack is empty. */
  function Top(roots: seq<Node>): (r: Option<Node>)
    ensures r.Some? <==> |roots| > 0
    ensures r.Some? ==> r.value == roots[|roots| - 1]
  {
    if |roots| == 0 then None else Some(roots[|roots| - 1])
  }

  /** `restore(fromRoot)`: splices at the last index of the root, found or not; `warned` is the `console.warn`. */
  function Restored(roots: seq<Node>, fromRoot: Node): (r: (seq<Node>, bool))
  {
    var index := LastIndexOf(roots, fromRoot);
    (Splice1(roots, index), index < 1)
  }

  /**
   * `restore` removes the last occurrence of the root and shrinks the stack
   * by one. It warns when that occurrence is the base root at index 0, or
   * when the root is absent; the absent case still removes the top of a
   * non-empty stack.
   */
  lemma {:induction false} RestoreRemovesLastOccurrence(roots: seq<Node>, fromRoot: Node)
    ensures var (r, warned) := Restored(roots, fromRoot);
      (warned <==> forall k :: 1 <= k < |roots| ==> roots[k] != fromRoot) &&
      (|roots| > 0 ==> |r| == |roots| - 1) &&
      (fromRoot in roots ==>
        exists i :: 0 <= i < |roots| && roots[i] == fromRoot &&
          (forall k :: i < k < |roots| ==> roots[k] != fromRoot) && r == roots[..i] + roots[i + 1..]) &&
      (fromRoot !in roots ==> r == (if |roots| > 0 then roots[..|roots| - 1] else roots))
  {
    var index := LastIndexOf(roots, fromRoot);
    if fromRoot in roots {
      assert SpliceStart(|roots|, index) == index;
    } else {
      SpliceMinusOne(roots);
    }
  }

  /** `narrow(r)` followed by `restore(r)` gives the stack back, without a warning when the stack was non-empty. */
  lemma NarrowThenRestore(roots: seq<Node>, r: Node)
    ensures Restored(roots + [r], r) == (roots, |roots| == 0)
  {
    var s := roots + [r];
    assert LastIndexOf(s, r) == |roots|;
    assert s[..|roots|] + s[|roots| + 1..] == roots;
  }

  class RootStore {
    var roots: seq<Node>

    /** `new RootStore(root)`: the stack holds the root alone. */
    constructor (root: Node)
      ensures roots == [root] && Element() == Some(root)
    {
      roots := [root];
    }

    /** The `element` getter. */
    function Element(): Option<Node>
      reads this
    {
      Top(roots)
    }

    /** `narrow(root)`: pushes, so the new root becomes the current one. */
    method Narrow(root: Node)
      modifies this
      ensures roots == old(roots) + [root] && Element() == Some(root)
    {
      roots := roots + [root];
    }

    /** `restore(fromRoot)`; `warned` stands for the `console.warn`. */
    method Restore(fromRoot: Node) returns (warned: bool)
      modifies this
      ensures (roots, warned) == Restored(old(roots), fromRoot)
    {
      var index := LastIndexOf(roots, fromRoot);
      warned := index < 1;
      roots := Splice1(roots, index);
    }
  }
}
