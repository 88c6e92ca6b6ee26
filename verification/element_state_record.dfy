/**
 * `ElementStateRecord` (src/state/element-state-record.ts): the handlers
 * registered for one element, keyed by the registering component, and the
 * handler they resolve to.
 */
module ElementStateRecords {
  import opened Wrappers
  import opened Dom
  import opened Handlers

  /** The identity of a registering component. */
  type Key = nat

  datatype Entry = Entry(key: Key, handler: Handler)

  /** `findIndex(r => r.key === key)`: the first position holding the key, or -1. */
  function IndexOfKey(records: seq<Entry>, key: Key): (i: int)
    ensures -1 <= i < |records|
    ensures i >= 0 ==> records[i].key == key && forall j :: 0 <= j < i ==> records[j].key != key
    ensures i == -1 <==> forall j :: 0 <= j < |records| ==> records[j].key != key
  {
    if |records| == 0 then -1
    else if records[|records| - 1].key != key then IndexOfKey(records[..|records| - 1], key)
    else
      var i := IndexOfKey(records[..|records| - 1], key);
      if i >= 0 then i else |records| - 1
  }

  /** `add`: replaces the entry with the same key where it stands, or appends a new one. */
  function AddEntry(records: seq<Entry>, key: Key, h: Handler): seq<Entry>
  {
    var i := IndexOfKey(records, key);
    if i >= 0 then records[i := Entry(key, h)] else records + [Entry(key, h)]
  }

  /** `remove`: splices out the entry with the key, if there is one. */
  function RemoveEntry(records: seq<Entry>, key: Key): seq<Entry>
  {
    var i := IndexOfKey(records, key);
    if i >= 0 then records[..i] + records[i + 1..] else records
  }

  /**
   * `Object.assign(resolved, over)`: a field `over` declares replaces the
   * one accumulated so far; the three chained callbacks become a chain that
   * runs the accumulated callbacks and then `over`'s.
   */
  function Assign(base: Handler, over: Handler): Handler
  {
    Handler(
      element := over.element,
      excludeThis := if over.excludeThis.Some? then over.excludeThis else base.excludeThis,
      exclude := if over.exclude.Some? then over.exclude else base.exclude,
      arcFocusLeft := if over.arcFocusLeft.Some? then over.arcFocusLeft else base.arcFocusLeft,
      arcFocusRight := if over.arcFocusRight.Some? then over.arcFocusRight else base.arcFocusRight,
      arcFocusUp := if over.arcFocusUp.Some? then over.arcFocusUp else base.arcFocusUp,
      arcFocusDown := if over.arcFocusDown.Some? then over.arcFocusDown else base.arcFocusDown,
      onOutgoing := base.onOutgoing + over.onOutgoing,
      onIncoming := base.onIncoming + over.onIncoming,
      onFocus := base.onFocus + over.onFocus,
      onButton := if over.onButton.Some? then over.onButton else base.onButton)
  }

  /** The handlers of the records, left to right, merged with `Assign`. */
  function MergeAll(records: seq<Entry>): Handler
    requires |records| > 0
  {
    if |records| == 1 then records[0].handler
    else Assign(MergeAll(records[..|records| - 1]), records[|records| - 1].handler)
  }

  /** `recreateResolved`: nothing for no records, the lone handler itself, or the merge. */
  function Resolve(records: seq<Entry>): Option<Handler>
  {
    if |records| == 0 then None else Some(MergeAll(records))
  }

  /** The last value declared among `vals`, left to right. */
  function LastDeclared<T>(vals: seq<Option<T>>): Option<T>
  {
    if |vals| == 0 then None
    else if vals[|vals| - 1].Some? then vals[|vals| - 1]
    else LastDeclared(vals[..|vals| - 1])
  }

  /**
   * `LastDeclared` is nothing exactly when no value is declared, and
   * otherwise a declared value with nothing declared after it.
   */
  lemma {:induction false} LastDeclaredIsLast<T>(vals: seq<Option<T>>)
    ensures LastDeclared(vals).Some? <==> exists i :: 0 <= i < |vals| && vals[i].Some?
    ensures LastDeclared(vals).Some? ==> exists i :: 0 <= i < |vals| && vals[i] == LastDeclared(vals) &&
                                           forall j :: i < j < |vals| ==> vals[j].None?
  {
    var n := |vals|;
    if n == 0 {
    } else if vals[n - 1].Some? {
      assert LastDeclared(vals) == vals[n - 1];
    } else {
      var init := vals[..n - 1];
      assert LastDeclared(vals) == LastDeclared(init);
      assert forall j :: 0 <= j < n - 1 ==> init[j] == vals[j];
      LastDeclaredIsLast(init);
      if LastDeclared(init).Some? {
        var i :| 0 <= i < |init| && init[i] == LastDeclared(init) && forall j :: i < j < |init| ==> init[j].None?;
        assert vals[i] == LastDeclared(vals);
        assert forall j :: i < j < n ==> vals[j].None?;
      } else {
        assert forall i :: 0 <= i < n ==> vals[i].None?;
      }
    }
  }

  /** The callbacks of every record for one chained field, in registration order. */
  function Flatten(chains: seq<seq<Action>>): seq<Action>
  {
    if |chains| == 0 then [] else Flatten(chains[..|chains| - 1]) + chains[|chains| - 1]
  }

  /** One field of every record's handler, in registration order. */
  function Column<T>(records: seq<Entry>, field: Handler -> T): (r: seq<T>)
    ensures |r| == |records| && forall i :: 0 <= i < |records| ==> r[i] == field(records[i].handler)
  {
    seq(|records|, i requires 0 <= i < |records| => field(records[i].handler))
  }

  /** A field `Assign` takes from `over` when `over` declares it, keeping `base`'s otherwise. */
  ghost predicate Overriding<T>(field: Handler -> Option<T>)
  {
    forall base, over :: field(Assign(base, over)) == if field(over).Some? then field(over) else field(base)
  }

  /** A callback field `Assign` chains, `base`'s callbacks first. */
  ghost predicate Chaining(field: Handler -> seq<Action>)
  {
    forall base, over :: field(Assign(base, over)) == field(base) + field(over)
  }

  /** A field that `Assign` overrides ends up as the last value any record declared. */
  lemma {:induction false} OverridingIsLastDeclared<T>(records: seq<Entry>, field: Handler -> Option<T>)
    requires |records| > 0 && Overriding(field)
    ensures field(MergeAll(records)) == LastDeclared(Column(records, field))
  {
    var n := |records|;
    if n > 1 {
      OverridingIsLastDeclared(records[..n - 1], field);
      assert Column(records, field)[..n - 1] == Column(records[..n - 1], field);
    } else {
      assert Column(records, field)[..0] == [];
    }
  }

  /** A field that `Assign` chains ends up as every record's callbacks in registration order. */
  lemma {:induction false} ChainingIsFlatten(records: seq<Entry>, field: Handler -> seq<Action>)
    requires |records| > 0 && Chaining(field)
    ensures field(MergeAll(records)) == Flatten(Column(records, field))
  {
    var n := |records|;
    if n > 1 {
      ChainingIsFlatten(records[..n - 1], field);
      assert Column(records, field)[..n - 1] == Column(records[..n - 1], field);
    } else {
      assert Column(records, field)[..0] == [];
    }
  }

  function ExcludeOf(h: Handler): Option<bool> { h.exclude }
  function ExcludeThisOf(h: Handler): Option<bool> { h.excludeThis }
  function LeftOf(h: Handler): Option<Target> { h.arcFocusLeft }
  function RightOf(h: Handler): Option<Target> { h.arcFocusRight }
  function UpOf(h: Handler): Option<Target> { h.arcFocusUp }
  function DownOf(h: Handler): Option<Target> { h.arcFocusDown }
  function OnButtonOf(h: Handler): Option<Action> { h.onButton }
  function OnOutgoingOf(h: Handler): seq<Action> { h.onOutgoing }
  function OnIncomingOf(h: Handler): seq<Action> { h.onIncoming }
  function OnFocusOf(h: Handler): seq<Action> { h.onFocus }

  /**
   * The merge is last-write-wins field by field: each plain field holds the
   * last value any record declared, the element comes from the last
   * record, and each chained callback runs every record's callback in
   * registration order.
   */
  lemma MergeIsLastWriteWins(records: seq<Entry>)
    requires |records| > 0
    ensures var h := MergeAll(records);
      h.element == records[|records| - 1].handler.element &&
      h.exclude == LastDeclared(Column(records, ExcludeOf)) &&
      h.excludeThis == LastDeclared(Column(records, ExcludeThisOf)) &&
      h.arcFocusLeft == LastDeclared(Column(records, LeftOf)) &&
      h.arcFocusRight == LastDeclared(Column(records, RightOf)) &&
      h.arcFocusUp == LastDeclared(Column(records, UpOf)) &&
      h.arcFocusDown == LastDeclared(Column(records, DownOf)) &&
      h.onButton == LastDeclared(Column(records, OnButtonOf)) &&
      h.onOutgoing == Flatten(Column(records, OnOutgoingOf)) &&
      h.onIncoming == Flatten(Column(records, OnIncomingOf)) &&
      h.onFocus == Flatten(Column(records, OnFocusOf))
  {
    OverridingIsLastDeclared(records, ExcludeOf);
    OverridingIsLastDeclared(records, ExcludeThisOf);
    OverridingIsLastDeclared(records, LeftOf);
    OverridingIsLastDeclared(records, RightOf);
    OverridingIsLastDeclared(records, UpOf);
    OverridingIsLastDeclared(records, DownOf);
    OverridingIsLastDeclared(records, OnButtonOf);
    ChainingIsFlatten(records, OnOutgoingOf);
    ChainingIsFlatten(records, OnIncomingOf);
    ChainingIsFlatten(records, OnFocusOf);
  }

  /** No record, no handler; one record, that very handler. */
  lemma ResolveByCount(records: seq<Entry>)
    ensures |records| == 0 <==> Resolve(records).None?
    ensures |records| == 1 ==> Resolve(records) == Some(records[0].handler)
  {
  }

  /**
   * `add` with a key already present overwrites that entry where it stands
   * and keeps the length; a new key is appended at the end.
   */
  lemma AddPlacesEntry(records: seq<Entry>, key: Key, h: Handler)
    ensures var r := AddEntry(records, key, h);
      (exists j :: 0 <= j < |records| && records[j].key == key) ==>
        |r| == |records| && r[IndexOfKey(records, key)] == Entry(key, h) &&
        forall j :: 0 <= j < |records| && j != IndexOfKey(records, key) ==> r[j] == records[j]
    ensures var r := AddEntry(records, key, h);
      (forall j :: 0 <= j < |records| ==> records[j].key != key) ==> r == records + [Entry(key, h)]
  {
  }

  /** Keys are distinct. */
  predicate UniqueKeys(records: seq<Entry>)
  {
    forall i, j :: 0 <= i < j < |records| ==> records[i].key != records[j].key
  }

  /**
   * `add` keeps keys distinct, and the key is then present exactly once,
   * with the new handler.
   */
  lemma AddKeepsKeysUnique(records: seq<Entry>, key: Key, h: Handler)
    requires UniqueKeys(records)
    ensures UniqueKeys(AddEntry(records, key, h))
    ensures Entry(key, h) in AddEntry(records, key, h)
  {
    var r := AddEntry(records, key, h);
    var i := IndexOfKey(records, key);
    if i < 0 {
      assert r[|records|] == Entry(key, h);
    } else {
      assert r[i] == Entry(key, h);
    }
  }

  /**
   * `remove` of a present key deletes exactly that entry and keeps the
   * order of the others; of an absent key it changes nothing.
   */
  lemma RemoveDeletesEntry(records: seq<Entry>, key: Key)
    ensures (forall j :: 0 <= j < |records| ==> records[j].key != key) ==> RemoveEntry(records, key) == records
    ensures var r := RemoveEntry(records, key); var i := IndexOfKey(records, key);
      i >= 0 ==> (|r| == |records| - 1 &&
        (forall j :: 0 <= j < i ==> r[j] == records[j]) &&
        (forall j :: i <= j < |r| ==> r[j] == records[j + 1]))
  {
    var i := IndexOfKey(records, key);
    if i >= 0 {
      var r := records[..i] + records[i + 1..];
      assert RemoveEntry(records, key) == r;
      forall j | i <= j < |r| ensures r[j] == records[j + 1] {
        assert r[j] == records[i + 1..][j - i];
      }
    }
  }

  /** With distinct keys, `remove` keeps them distinct and the key is gone afterwards. */
  lemma RemoveKeepsKeysUnique(records: seq<Entry>, key: Key)
    requires UniqueKeys(records)
    ensures UniqueKeys(RemoveEntry(records, key))
    ensures forall e :: e in RemoveEntry(records, key) ==> e.key != key
  {
    var r := RemoveEntry(records, key);
    var i := IndexOfKey(records, key);
    if i >= 0 {
      RemoveDeletesEntry(records, key);
      forall a, b | 0 <= a < b < |r| ensures r[a].key != r[b].key {
        var a' := if a < i then a else a + 1;
        var b' := if b < i then b else b + 1;
        assert r[a] == records[a'] && r[b] == records[b'];
      }
      forall e | e in r ensures e.key != key {
        var j :| 0 <= j < |r| && r[j] == e;
        if j < i { assert r[j] == records[j]; } else { assert r[j] == records[j + 1]; }
      }
    }
  }

  /** The object: its list of records and the handler they resolve to. */
  class ElementStateRecord {
    var resolved: Option<Handler>
    var records: seq<Entry>
    /** The element the record was created for. */
    ghost const element: Node

    /** `resolved` is always the resolution of the current records. */
    ghost predicate Valid()
      reads this
    {
      resolved == Resolve(records)
    }

    /** `new ElementStateRecord(key, handler)`: one record, resolved to that very handler. */
    constructor (key: Key, initialHandler: Handler)
      ensures records == [Entry(key, initialHandler)]
      ensures resolved == Some(initialHandler)
      ensures element == initialHandler.element
      ensures Valid()
    {
      element := initialHandler.element;
      resolved := Some(initialHandler);
      records := [Entry(key, initialHandler)];
    }

    /** `add(key, arc)`. */
    method Add(key: Key, arc: Handler)
      modifies this
      ensures records == AddEntry(old(records), key, arc)
      ensures Valid()
    {
      var existing := FindIndex(records, key);
      if existing > -1 {
        records := records[existing := Entry(key, arc)];
      } else {
        records := records + [Entry(key, arc)];
      }
      RecreateResolved();
    }

    /** `remove(key)`. */
    method Remove(key: Key)
      modifies this
      ensures records == RemoveEntry(old(records), key)
      ensures Valid()
    {
      var index := FindIndex(records, key);
      if index > -1 {
        records := records[..index] + records[index + 1..];
      }
      RecreateResolved();
    }

    /** `recreateResolved()`. */
    method RecreateResolved()
      modifies this
      ensures records == old(records)
      ensures Valid()
    {
      if |records| == 0 {
        resolved := None;
        return;
      }
      if |records| == 1 {
        resolved := Some(records[0].handler);
        return;
      }
      var merged := MergeRecords(records);
      resolved := Some(merged);
    }
  }

  /** `findIndex(r => r.key === key)`, scanning left to right. */
  method FindIndex(records: seq<Entry>, key: Key) returns (i: int)
    ensures i == IndexOfKey(records, key)
  {
    i := 0;
    while i < |records|
      invariant 0 <= i <= |records|
      invariant forall j :: 0 <= j < i ==> records[j].key != key
    {
      if records[i].key == key {
        return i;
      }
      i := i + 1;
    }
    return -1;
  }

  /** The `Object.assign` loop over the records after the first. */
  method MergeRecords(records: seq<Entry>) returns (h: Handler)
    requires |records| >= 2
    ensures h == MergeAll(records)
  {
    h := records[0].handler;
    var i := 1;
    while i < |records|
      invariant 1 <= i <= |records|
      invariant h == MergeAll(records[..i])
    {
      assert records[..i + 1][..i] == records[..i];
      h := Assign(h, records[i].handler);
      i := i + 1;
    }
    assert records[..i] == records;
  }
}
