/**
 * `isForForm` (src/focus/is-for-form.ts): whether a button press belongs
 * to native form editing of the selected element, so that the focus
 * service leaves it to the browser.
 */
module FormGuard {
  import opened Wrappers
  import opened Dom
  import opened Buttons

  /** A form, a textarea, or an input that is not a button, checkbox or radio. */
  predicate IsFormControl(doc: Document, n: Node)
  {
    doc.tagName(n) == "FORM" || doc.tagName(n) == "TEXTAREA" ||
    (doc.tagName(n) == "INPUT" &&
     doc.inputType(n) != "button" && doc.inputType(n) != "checkbox" && doc.inputType(n) != "radio")
  }

  /** The node or one of its ancestors is a form control. */
  predicate InFormControl(doc: Document, n: Node)
    decreases n
  {
    IsFormControl(doc, n) || (n in doc.parent && InFormControl(doc, doc.parent[n]))
  }

  /** The input types in which the cursor keys edit text. */
  predicate IsTextEntry(t: string)
  {
    t == "text" || t == "search" || t == "url" || t == "tel" || t == "password" || t == "textarea"
  }

  /** The decision for a button other than Submit, on the selected element. */
  predicate EditsText(doc: Document, direction: Button, n: Node)
  {
    var tag := doc.tagName(n);
    if tag != "INPUT" && tag != "TEXTAREA" then false
    else if direction == Down || direction == Up then false
    else if !IsTextEntry(doc.inputType(n)) then false
    else
      var cursor := doc.selectionStart(n);
      if cursor != doc.selectionEnd(n) then true
      else if cursor.None? then false
      else (cursor.value > 0 && direction == Left) ||
           (cursor.value > 0 && direction == Back) ||
           (cursor.value < doc.valueLength(n) && direction == Right)
  }

  /** `isForForm(direction, selected)`. */
  predicate IsForFormSpec(doc: Document, direction: Button, selected: Option<Node>)
  {
    if selected.None? then false
    else if direction == Submit then InFormControl(doc, selected.value)
    else EditsText(doc, direction, selected.value)
  }

  /** `isForForm`, walking up from the selected element for Submit. */
  method IsForForm(doc: Document, direction: Button, selected: Option<Node>) returns (b: bool)
    ensures b == IsForFormSpec(doc, direction, selected)
  {
    if selected.None? {
      return false;
    }
    if direction == Submit {
      var parent: Option<Node> := selected;
      while parent.Some?
        invariant parent.Some? ==> (InFormControl(doc, selected.value) <==> InFormControl(doc, parent.value))
        invariant parent.None? ==> !InFormControl(doc, selected.value)
        decreases if parent.Some? then parent.value + 1 else 0
      {
        if IsFormControl(doc, parent.value) {
          return true;
        }
        parent := doc.ParentElement(parent.value);
      }
      return false;
    }
    return EditsText(doc, direction, selected.value);
  }

  /** The ancestor walk agrees with `contains`: some form control contains the node. */
  lemma {:induction false} InFormControlIffContained(doc: Document, n: Node)
    ensures InFormControl(doc, n) <==> exists a: Node :: doc.Contains(a, n) && IsFormControl(doc, a)
    decreases n
  {
    if n in doc.parent {
      InFormControlIffContained(doc, doc.parent[n]);
      if exists a: Node :: doc.Contains(a, n) && IsFormControl(doc, a) {
        var a: Node :| doc.Contains(a, n) && IsFormControl(doc, a);
        if a != n {
          assert doc.Contains(a, doc.parent[n]);
        }
      }
      if InFormControl(doc, doc.parent[n]) && !IsFormControl(doc, n) {
        var a: Node :| doc.Contains(a, doc.parent[n]) && IsFormControl(doc, a);
        assert doc.Contains(a, n);
      }
    } else {
      if exists a: Node :: doc.Contains(a, n) && IsFormControl(doc, a) {
        var a: Node :| doc.Contains(a, n) && IsFormControl(doc, a);
        assert a == n;
      }
    }
  }

  /**
   * Submit defers to the browser exactly when the selected element sits in
   * a form control; no selection never defers.
   */
  lemma SubmitInForm(doc: Document, n: Node)
    ensures IsForFormSpec(doc, Submit, Some(n)) <==> exists a: Node :: doc.Contains(a, n) && IsFormControl(doc, a)
    ensures forall b :: !IsForFormSpec(doc, b, None)
  {
    InFormControlIffContained(doc, n);
  }

  /**
   * For other buttons: only an INPUT or TEXTAREA of a text-entry type
   * defers, Up and Down never do, a selection range always does, and a
   * collapsed cursor defers for Left and Back when it can move left and for
   * Right when it can move right.
   */
  lemma OtherButtonsInTextEntry(doc: Document, b: Button, n: Node)
    requires b != Submit
    ensures doc.tagName(n) != "INPUT" && doc.tagName(n) != "TEXTAREA" ==> !IsForFormSpec(doc, b, Some(n))
    ensures b == Up || b == Down ==> !IsForFormSpec(doc, b, Some(n))
    ensures !IsTextEntry(doc.inputType(n)) ==> !IsForFormSpec(doc, b, Some(n))
    ensures (doc.tagName(n) == "INPUT" || doc.tagName(n) == "TEXTAREA") && b != Up && b != Down &&
            IsTextEntry(doc.inputType(n)) ==>
      (IsForFormSpec(doc, b, Some(n)) <==>
        doc.selectionStart(n) != doc.selectionEnd(n) ||
        (doc.selectionStart(n).Some? &&
          (((b == Left || b == Back) && doc.selectionStart(n).value > 0) ||
           (b == Right && doc.selectionStart(n).value < doc.valueLength(n)))))
  {
  }
}
