/**
 * `VirtualElementStore` (src/focus/virtual-element-store.ts): keeps the
 * selected element in memory and marks it with the `arc-selected` class.
 * Native DOM focus is handed out only to elements that need it (text
 * inputs by default) and taken back with `blur` when the selection moves
 * on to one that does not.
 */
module VirtualElementStores {
  import opened Dom

  /** `defaultNeedsNativeFocus`: a TEXTAREA, an INPUT, or content-editable. */
  predicate DefaultNeedsNativeFocus(doc: Document, n: Node)
  {
    doc.tagName(n) == "TEXTAREA" || doc.tagName(n) == "INPUT" || doc.isContentEditable(n)
  }

  /** The native focus calls the store makes, in order. */
  datatype NativeCall = Focus(element: Node) | Blur(element: Node)

  /** The store's fields, plus the elements it has marked `arc-selected` and the calls it has made. */
  datatype StoreState = StoreState(previousElement: Node, gaveNativeFocus: bool, marked: set<Node>, calls: seq<NativeCall>)

  /** The `element` getter: the stored element while it is in the body, `document.activeElement` otherwise. */
  function Read(doc: Document, s: StoreState): Node
  {
    if doc.Contains(doc.body, s.previousElement) then s.previousElement else doc.activeElement
  }

  /** The `element` setter. */
  function Assign(s: StoreState, needsNativeFocus: Node -> bool, element: Node): StoreState
  {
    var needsFocus := needsNativeFocus(element);
    var call := if needsFocus then [Focus(element)] else if s.gaveNativeFocus then [Blur(s.previousElement)] else [];
    StoreState(element, needsFocus, s.marked - {s.previousElement} + {element}, s.calls + call)
  }

  /**
   * What the store keeps true: at most the stored element carries the mark,
   * and `gaveNativeFocus` holds exactly when the store's last native call
   * was a `focus`, made on the stored element.
   */
  predicate Consistent(s: StoreState)
  {
    s.marked <= {s.previousElement} &&
    (s.gaveNativeFocus <==> |s.calls| > 0 && s.calls[|s.calls| - 1].Focus?) &&
    (s.gaveNativeFocus ==> s.calls[|s.calls| - 1] == Focus(s.previousElement))
  }

  /** A new store: it holds the active element, has marked nothing and made no calls. */
  function Initial(doc: Document): (s: StoreState)
    ensures Consistent(s) && s.previousElement == doc.activeElement && !s.gaveNativeFocus
  {
    StoreState(doc.activeElement, false, {}, [])
  }

  /**
   * Every assignment keeps the store consistent, leaves the new element as
   * the only marked one, and makes at most one native call: `focus` on the
   * new element when it needs native focus, `blur` on the old one when the
   * store had focused it and the new one does not need focus, nothing
   * otherwise.
   */
  lemma {:induction false} AssignKeepsConsistent(s: StoreState, needsNativeFocus: Node -> bool, element: Node)
    requires Consistent(s)
    ensures var r := Assign(s, needsNativeFocus, element);
      Consistent(r) && r.marked == {element} && r.previousElement == element &&
      r.gaveNativeFocus == needsNativeFocus(element) &&
      r.calls[..|s.calls|] == s.calls &&
      (needsNativeFocus(element) ==> r.calls == s.calls + [Focus(element)]) &&
      (!needsNativeFocus(element) && s.gaveNativeFocus ==> r.calls == s.calls + [Blur(s.previousElement)]) &&
      (!needsNativeFocus(element) && !s.gaveNativeFocus ==> r.calls == s.calls)
  {
    var r := Assign(s, needsNativeFocus, element);
    assert r.calls[..|s.calls|] == s.calls;
  }

  /**
   * The store only ever blurs an element it focused itself: a `blur` it
   * issues is on the element of its own last `focus` call.
   */
  lemma {:induction false} BlurUndoesOwnFocus(s: StoreState, needsNativeFocus: Node -> bool, element: Node)
    requires Consistent(s)
    ensures var r := Assign(s, needsNativeFocus, element);
      |r.calls| == |s.calls| + 1 && r.calls[|r.calls| - 1].Blur? ==>
        |s.calls| > 0 && s.calls[|s.calls| - 1] == Focus(r.calls[|r.calls| - 1].element) && !needsNativeFocus(element)
  {
    var r := Assign(s, needsNativeFocus, element);
    if |r.calls| == |s.calls| + 1 && r.calls[|r.calls| - 1].Blur? {
      assert r.calls[|r.calls| - 1] == Blur(s.previousElement);
    }
  }

  /**
   * Reading back: after assigning an element that is in the body the getter
   * returns it; after assigning a detached one it falls back to the active
   * element.
   */
  lemma ReadAfterAssign(doc: Document, s: StoreState, needsNativeFocus: Node -> bool, element: Node)
    ensures doc.Contains(doc.body, element) ==> Read(doc, Assign(s, needsNativeFocus, element)) == element
    ensures !doc.Contains(doc.body, element) ==> Read(doc, Assign(s, needsNativeFocus, element)) == doc.activeElement
  {
  }

  class VirtualElementStore {
    var previousElement: Node
    var gaveNativeFocus: bool
    var marked: set<Node>
    var calls: seq<NativeCall>
    const needsNativeFocus: Node -> bool

    function State(): StoreState
      reads this
    {
      StoreState(previousElement, gaveNativeFocus, marked, calls)
    }

    /** `new VirtualElementStore(needsNativeFocus)`. */
    constructor (doc: Document, needsNativeFocus: Node -> bool)
      ensures State() == Initial(doc) && Consistent(State()) && this.needsNativeFocus == needsNativeFocus
    {
      previousElement := doc.activeElement;
      gaveNativeFocus := false;
      marked := {};
      calls := [];
      this.needsNativeFocus := needsNativeFocus;
    }

    /** `new VirtualElementStore()`: the default test for native focus. */
    constructor Default(doc: Document)
      ensures State() == Initial(doc) && Consistent(State())
      ensures forall n :: needsNativeFocus(n) == DefaultNeedsNativeFocus(doc, n)
    {
      previousElement := doc.activeElement;
      gaveNativeFocus := false;
      marked := {};
      calls := [];
      needsNativeFocus := (n: Node) => DefaultNeedsNativeFocus(doc, n);
    }

    /** The `element` getter. */
    function Element(doc: Document): Node
      reads this
    {
      Read(doc, State())
    }

    /** The `element` setter: moves the mark, hands native focus out or takes it back, and stores the element. */
    method SetElement(element: Node)
      requires Consistent(State())
      modifies this
      ensures State() == Assign(old(State()), needsNativeFocus, element) && Consistent(State())
    {
      AssignKeepsConsistent(State(), needsNativeFocus, element);
      marked := marked - {previousElement} + {element};
      var needsFocus := needsNativeFocus(element);
      if needsFocus {
        calls := calls + [Focus(element)];
      } else if gaveNativeFocus {
        calls := calls + [Blur(previousElement)];
      }
      gaveNativeFocus := needsFocus;
      previousElement := element;
    }
  }
}
