/** `FocusByRegistry` (src/focus/focus-by-registry.ts): explicit per-direction overrides. */
module FocusByRegistry {
  import opened Wrappers
  import opened Dom
  import opened Buttons
  import opened Handlers
  import opened Targets
  import opened FocusTypes

  /** `findNextFocus`: the active element's override for the direction, resolved against the body. */
  function FindNextFocus(doc: Document, opts: FocusOptions): (r: Option<Node>)
  {
    match opts.directive
    case None => None
    case Some(d) => FindElement(doc, doc.body, FocusOverride(d, opts.direction))
  }

  /**
   * No directive or a non-directional button gives null; otherwise the
   * result is that direction's own override resolved under the body, and
   * the `ignore` set plays no part.
   */
  lemma RegistryLookup(doc: Document, opts: FocusOptions, ignore: set<Node>)
    ensures opts.directive.None? || !opts.direction.IsDirectional() ==> FindNextFocus(doc, opts).None?
    ensures opts.directive.Some? && FocusOverride(opts.directive.value, opts.direction).None? ==>
      FindNextFocus(doc, opts).None?
    ensures opts.directive.Some? && opts.direction == Left ==>
      FindNextFocus(doc, opts) == FindElement(doc, doc.body, opts.directive.value.arcFocusLeft)
    ensures opts.directive.Some? && opts.direction == Right ==>
      FindNextFocus(doc, opts) == FindElement(doc, doc.body, opts.directive.value.arcFocusRight)
    ensures opts.directive.Some? && opts.direction == Up ==>
      FindNextFocus(doc, opts) == FindElement(doc, doc.body, opts.directive.value.arcFocusUp)
    ensures opts.directive.Some? && opts.direction == Down ==>
      FindNextFocus(doc, opts) == FindElement(doc, doc.body, opts.directive.value.arcFocusDown)
    ensures FindNextFocus(doc, opts.(ignore := ignore)) == FindNextFocus(doc, opts)
  {
  }
}
