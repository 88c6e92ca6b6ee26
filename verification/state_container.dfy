/**
 * `StateContainer` (src/state/state-container.ts): the registry from
 * element to `ElementStateRecord`, and the reference count of elements
 * whose merged handler sets `exclude`.
 */
module StateContainers {
  import opened Wrappers
  import opened Dom
  import opened Handlers
  import opened ElementStateRecords

  /** The records of every registered element. */
  type Registrations = map<Node, seq<Entry>>

  /** A registered element always has at least one record. */
  predicate WellFormed(regs: Registrations)
  {
    forall n | n in regs :: |regs[n]| > 0
  }

  /** Whether the records of an element resolve to a handler with a truthy `exclude`. */
  predicate ResolvedExcludes(records: seq<Entry>)
  {
    Resolve(records).Some? && Truthy(Resolve(records).value.exclude)
  }

  /** The keys of `m` whose value satisfies `p`. */
  function Selected<K, V>(m: map<K, V>, p: V -> bool): set<K>
  {
    set k | k in m && p(m[k])
  }

  /** Replacing or dropping one entry changes the selection at that key alone. */
  lemma SelectedUpdate<K, V>(m: map<K, V>, k: K, v: V, p: V -> bool)
    ensures Selected(m[k := v], p) == (Selected(m, p) - {k}) + (if p(v) then {k} else {})
    ensures Selected(m - {k}, p) == Selected(m, p) - {k}
  {
  }

  /** The elements whose merged handler sets `exclude`. */
  function ExcludedElements(regs: Registrations): set<Node>
  {
    Selected(regs, ResolvedExcludes)
  }

  /** What `excludedDeepCount` is meant to count. */
  function ExcludedCount(regs: Registrations): nat
  {
    |ExcludedElements(regs)|
  }

  /** `find(el)`: nothing for an unregistered element, the record's `resolved` otherwise. */
  function Lookup(regs: Registrations, el: Node): Option<Handler>
  {
    if el in regs then Resolve(regs[el]) else None
  }

  /** The registrations after `add(key, arc)`: a new record, or `record.add`. */
  function AddRegistration(regs: Registrations, key: Key, arc: Handler): Registrations
  {
    if arc.element !in regs then regs[arc.element := [Entry(key, arc)]]
    else regs[arc.element := AddEntry(regs[arc.element], key, arc)]
  }

  /** 1 when the merged `exclude` went from falsy to truthy, else 0. */
  function Gained(had: bool, has: bool): int
  {
    if has && !had then 1 else 0
  }

  /** 1 when the merged `exclude` went from truthy to falsy, else 0. */
  function Lost(had: bool, has: bool): int
  {
    if had && !has then 1 else 0
  }

  /**
   * The count after `add` as written: a new element counts when its
   * handler sets `exclude`; an existing one only ever counts up.
   */
  function AddCountAsWritten(regs: Registrations, count: int, key: Key, arc: Handler): int
  {
    if arc.element !in regs then count + (if Truthy(arc.exclude) then 1 else 0)
    else
      var had := ResolvedExcludes(regs[arc.element]);
      var has := ResolvedExcludes(AddEntry(regs[arc.element], key, arc));
      count + Gained(had, has)
  }

  /** The count after `add` with the decrement `remove` already has: either flip moves it. */
  function AddCount(regs: Registrations, count: int, key: Key, arc: Handler): int
  {
    if arc.element !in regs then count + (if Truthy(arc.exclude) then 1 else 0)
    else
      var had := ResolvedExcludes(regs[arc.element]);
      var has := ResolvedExcludes(AddEntry(regs[arc.element], key, arc));
      count + Gained(had, has) - Lost(had, has)
  }

  /** The registrations after `remove(key, el)`: the record loses the key and is dropped once empty. */
  function RemoveRegistration(regs: Registrations, key: Key, el: Node): Registrations
  {
    if el !in regs then regs
    else
      var rest := RemoveEntry(regs[el], key);
      if |rest| == 0 then regs - {el} else regs[el := rest]
  }

  /**
   * The count after `remove(key, el)` as written: down by one when the
   * merged `exclude` went from truthy to falsy, never up.
   */
  function RemoveCountAsWritten(regs: Registrations, count: int, key: Key, el: Node): int
  {
    if el !in regs then count
    else
      var had := ResolvedExcludes(regs[el]);
      var has := ResolvedExcludes(RemoveEntry(regs[el], key));
      count - Lost(had, has)
  }

  /** The count after `remove(key, el)` with the increment `add` already has: either flip moves it. */
  function RemoveCount(regs: Registrations, count: int, key: Key, el: Node): int
  {
    if el !in regs then count
    else
      var had := ResolvedExcludes(regs[el]);
      var has := ResolvedExcludes(RemoveEntry(regs[el], key));
      count + Gained(had, has) - Lost(had, has)
  }

  /** Replacing or dropping one element's records moves the count by that element alone. */
  lemma ExcludedCountUpdate(regs: Registrations, el: Node, rs: seq<Entry>)
    ensures ExcludedCount(regs[el := rs]) ==
      ExcludedCount(regs) - (if el in regs && ResolvedExcludes(regs[el]) then 1 else 0)
                          + (if ResolvedExcludes(rs) then 1 else 0)
    ensures ExcludedCount(regs - {el}) ==
      ExcludedCount(regs) - (if el in regs && ResolvedExcludes(regs[el]) then 1 else 0)
  {
    SelectedUpdate(regs, el, rs, ResolvedExcludes);
    assert el in ExcludedElements(regs) <==> el in regs && ResolvedExcludes(regs[el]);
  }

  /** `add` keeps every registered element with at least one record. */
  lemma AddKeepsWellFormed(regs: Registrations, key: Key, arc: Handler)
    requires WellFormed(regs)
    ensures WellFormed(AddRegistration(regs, key, arc))
    ensures arc.element in AddRegistration(regs, key, arc)
  {
    if arc.element in regs {
      AddPlacesEntry(regs[arc.element], key, arc);
    }
  }

  /** `remove` keeps every registered element with at least one record. */
  lemma RemoveKeepsWellFormed(regs: Registrations, key: Key, el: Node)
    requires WellFormed(regs)
    ensures WellFormed(RemoveRegistration(regs, key, el))
  {
  }

  /** With the symmetric decrement, `add` keeps the count equal to the number of excluding elements. */
  lemma AddKeepsCount(regs: Registrations, count: int, key: Key, arc: Handler)
    requires WellFormed(regs) && count == ExcludedCount(regs)
    ensures AddCount(regs, count, key, arc) == ExcludedCount(AddRegistration(regs, key, arc))
  {
    if arc.element in regs {
      ExcludedCountUpdate(regs, arc.element, AddEntry(regs[arc.element], key, arc));
    } else {
      ExcludedCountUpdate(regs, arc.element, [Entry(key, arc)]);
    }
  }

  /** `remove` keeps the count equal to the number of excluding elements. */
  lemma RemoveKeepsCount(regs: Registrations, count: int, key: Key, el: Node)
    requires WellFormed(regs) && count == ExcludedCount(regs)
    ensures RemoveCount(regs, count, key, el) == ExcludedCount(RemoveRegistration(regs, key, el))
  {
    if el in regs {
      var rest := RemoveEntry(regs[el], key);
      ExcludedCountUpdate(regs, el, rest);
      if |rest| == 0 {
        assert RemoveRegistration(regs, key, el) == regs - {el};
      }
    }
  }

  /**
   * `add` as written leaves the count stale: re-registering the only
   * excluding handler of an element with `exclude: false` keeps the count
   * at 1 while no element excludes any more.
   */
  lemma AddAsWrittenStaleCount(el: Node)
    ensures var h := EmptyHandler(el).(exclude := Some(true));
      var regs := map[el := [Entry(0, h)]];
      var arc := EmptyHandler(el).(exclude := Some(false));
      ExcludedCount(regs) == 1 &&
      AddCountAsWritten(regs, 1, 0, arc) == 1 &&
      ExcludedCount(AddRegistration(regs, 0, arc)) == 0 &&
      AddCount(regs, 1, 0, arc) == 0
  {
    var h := EmptyHandler(el).(exclude := Some(true));
    var regs := map[el := [Entry(0, h)]];
    var arc := EmptyHandler(el).(exclude := Some(false));
    assert ExcludedElements(regs) == {el};
    var after := AddRegistration(regs, 0, arc);
    assert after[el] == [Entry(0, arc)];
    assert ExcludedElements(after) == {};
  }

  /**
   * `remove` as written leaves the count stale the other way: when a later
   * registrant's `exclude: false` was masking an earlier `exclude: true`,
   * removing it makes the element exclude again, but the count stays at 0.
   */
  lemma RemoveAsWrittenStaleCount(el: Node)
    ensures var regs := map[el := [Entry(0, EmptyHandler(el).(exclude := Some(true))),
                                   Entry(1, EmptyHandler(el).(exclude := Some(false)))]];
      ExcludedCount(regs) == 0 &&
      RemoveCountAsWritten(regs, 0, 1, el) == 0 &&
      ExcludedCount(RemoveRegistration(regs, 1, el)) == 1 &&
      RemoveCount(regs, 0, 1, el) == 1
  {
    var h := EmptyHandler(el).(exclude := Some(true));
    var regs := map[el := [Entry(0, h), Entry(1, EmptyHandler(el).(exclude := Some(false)))]];
    assert IndexOfKey(regs[el], 1) == 1;
    assert ExcludedElements(regs) == {};
    var after := RemoveRegistration(regs, 1, el);
    assert after[el] == [Entry(0, h)];
    assert ExcludedElements(after) == {el};
  }

  /**
   * `find` after `add` resolves the new registration in; after the last
   * registrant of an element leaves, the element is unregistered.
   */
  lemma LookupAfterAddRemove(regs: Registrations, key: Key, arc: Handler)
    requires WellFormed(regs)
    ensures Lookup(AddRegistration(regs, key, arc), arc.element).Some?
    ensures arc.element !in regs ==> Lookup(AddRegistration(regs, key, arc), arc.element) == Some(arc)
    ensures arc.element !in regs ==>
      Lookup(RemoveRegistration(AddRegistration(regs, key, arc), key, arc.element), arc.element).None?
    ensures forall n :: n != arc.element ==> Lookup(AddRegistration(regs, key, arc), n) == Lookup(regs, n)
  {
    AddKeepsWellFormed(regs, key, arc);
    if arc.element !in regs {
      var after := AddRegistration(regs, key, arc);
      assert IndexOfKey(after[arc.element], key) == 0;
    }
  }

  /** `hasExcludedDeepElements` under an accurate count: some element's merged handler excludes. */
  lemma HasExcludedIffSomeExcludes(regs: Registrations, count: int)
    requires count == ExcludedCount(regs)
    ensures count > 0 <==> exists n :: n in regs && ResolvedExcludes(regs[n])
  {
    if exists n :: n in regs && ResolvedExcludes(regs[n]) {
      var n :| n in regs && ResolvedExcludes(regs[n]);
      assert n in ExcludedElements(regs);
    } else {
      assert ExcludedElements(regs) == {};
    }
  }

  /**
   * The registry object. Each element's record is an object of its own;
   * `registrations` is the ghost view of their record lists.
   */
  class StateContainer {
    var arcs: map<Node, ElementStateRecord>
    var excludedDeepCount: int
    ghost var registrations: Registrations
    ghost var Repr: set<ElementStateRecord>

    ghost predicate Valid()
      reads this, Repr
    {
      arcs.Keys == registrations.Keys &&
      forall n | n in arcs ::
        arcs[n] in Repr && arcs[n].element == n && arcs[n].Valid() &&
        arcs[n].records == registrations[n] && |registrations[n]| > 0
    }

    /** `Valid()` for every element but `el`, whose record is being changed. */
    ghost predicate ValidBut(el: Node)
      reads this, Repr
    {
      arcs.Keys == registrations.Keys &&
      forall n | n in arcs && n != el ::
        arcs[n] in Repr && arcs[n].element == n && arcs[n].Valid() &&
        arcs[n].records == registrations[n] && |registrations[n]| > 0
    }

    /**
     * After `el`'s record changed in place: the element is dropped once
     * its record resolves to nothing, and its registrations follow the
     * record otherwise.
     */
    method Settle(el: Node)
      requires ValidBut(el) && el in arcs && arcs[el] in Repr && arcs[el].element == el && arcs[el].Valid()
      modifies this
      ensures Valid() && Repr == old(Repr) && excludedDeepCount == old(excludedDeepCount)
      ensures |old(arcs[el].records)| == 0 ==> registrations == old(registrations) - {el}
      ensures |old(arcs[el].records)| > 0 ==> registrations == old(registrations)[el := old(arcs[el].records)]
    {
      var record := arcs[el];
      assert record.resolved.None? <==> |record.records| == 0;
      if record.resolved.None? {
        arcs := arcs - {el};
        registrations := registrations - {el};
      } else {
        registrations := registrations[el := record.records];
      }
      forall n | n in arcs
        ensures arcs[n] in Repr && arcs[n].element == n && arcs[n].Valid() &&
          arcs[n].records == registrations[n] && |registrations[n]| > 0
      {
      }
    }

    /** The count matches the elements that exclude. */
    ghost predicate CountAccurate()
      reads this
    {
      excludedDeepCount == ExcludedCount(registrations)
    }

    /** An empty registry. */
    constructor ()
      ensures Valid() && registrations == map[] && excludedDeepCount == 0 && CountAccurate()
    {
      arcs := map[];
      excludedDeepCount := 0;
      registrations := map[];
      Repr := {};
    }

    /**
     * `add(key, arc)`, with the count also moving down when the merged
     * `exclude` goes from truthy to falsy; `add` as written is
     * `AddCountAsWritten`.
     */
    method Add(key: Key, arc: Handler)
      requires Valid()
      modifies this, Repr
      ensures Valid() && fresh(Repr - old(Repr))
      ensures registrations == AddRegistration(old(registrations), key, arc)
      ensures excludedDeepCount == AddCount(old(registrations), old(excludedDeepCount), key, arc)
      ensures old(CountAccurate()) ==> CountAccurate()
    {
      ghost var regs := registrations;
      ghost var count := excludedDeepCount;
      if arc.element !in arcs {
        AddNew(key, arc);
      } else {
        AddExisting(key, arc);
      }
      if count == ExcludedCount(regs) {
        AddKeepsCount(regs, count, key, arc);
      }
    }

    /** The first registration of an element: a new record. */
    method AddNew(key: Key, arc: Handler)
      requires Valid() && arc.element !in arcs
      modifies this
      ensures Valid() && fresh(Repr - old(Repr))
      ensures registrations == AddRegistration(old(registrations), key, arc)
      ensures excludedDeepCount == AddCount(old(registrations), old(excludedDeepCount), key, arc)
    {
      var r := new ElementStateRecord(key, arc);
      arcs := arcs[arc.element := r];
      registrations := registrations[arc.element := [Entry(key, arc)]];
      Repr := Repr + {r};
      if Truthy(arc.exclude) {
        excludedDeepCount := excludedDeepCount + 1;
      }
    }

    /** A further registration of an element: `record.add`, with the count update. */
    method AddExisting(key: Key, arc: Handler)
      requires Valid() && arc.element in arcs
      modifies this, Repr
      ensures Valid() && Repr == old(Repr)
      ensures registrations == AddRegistration(old(registrations), key, arc)
      ensures excludedDeepCount == AddCount(old(registrations), old(excludedDeepCount), key, arc)
    {
      var hadExclusion, hasExclusion := AddRecord(key, arc);
      if hasExclusion && !hadExclusion {
        excludedDeepCount := excludedDeepCount + 1;
      } else if hadExclusion && !hasExclusion {
        excludedDeepCount := excludedDeepCount - 1;
      }
    }

    /**
     * `record.add(key, arc)` on the element's record; reports whether the
     * merged handler excluded before and after.
     */
    method AddRecord(key: Key, arc: Handler) returns (hadExclusion: bool, hasExclusion: bool)
      requires Valid() && arc.element in arcs
      modifies this, Repr
      ensures Valid() && Repr == old(Repr) && excludedDeepCount == old(excludedDeepCount)
      ensures registrations == AddRegistration(old(registrations), key, arc)
      ensures hadExclusion == ResolvedExcludes(old(registrations)[arc.element])
      ensures hasExclusion == ResolvedExcludes(AddEntry(old(registrations)[arc.element], key, arc))
    {
      var record := arcs[arc.element];
      ghost var added := AddEntry(registrations[arc.element], key, arc);
      AddPlacesEntry(registrations[arc.element], key, arc);
      hadExclusion := Truthy(record.resolved.value.exclude);
      record.Add(key, arc);
      forall n | n in arcs && n != arc.element
        ensures arcs[n].Valid() && arcs[n].records == registrations[n]
      {
        assert arcs[n].element != record.element;
      }
      assert ValidBut(arc.element);
      assert |added| > 0;
      hasExclusion := Truthy(record.resolved.value.exclude);
      Settle(arc.element);
    }

    /**
     * `remove(key, el)`, with the count also moving up when the merged
     * `exclude` goes from falsy to truthy; `remove` as written is
     * `RemoveCountAsWritten`.
     */
    method Remove(key: Key, el: Node)
      requires Valid()
      modifies this, Repr
      ensures Valid() && Repr == old(Repr)
      ensures registrations == RemoveRegistration(old(registrations), key, el)
      ensures excludedDeepCount == RemoveCount(old(registrations), old(excludedDeepCount), key, el)
      ensures old(CountAccurate()) ==> CountAccurate()
    {
      ghost var regs := registrations;
      ghost var count := excludedDeepCount;
      if el in arcs {
        RemoveExisting(key, el);
      }
      if count == ExcludedCount(regs) {
        RemoveKeepsCount(regs, count, key, el);
      }
    }

    /** `remove` for a registered element, with the count update. */
    method RemoveExisting(key: Key, el: Node)
      requires Valid() && el in arcs
      modifies this, Repr
      ensures Valid() && Repr == old(Repr)
      ensures registrations == RemoveRegistration(old(registrations), key, el)
      ensures excludedDeepCount == RemoveCount(old(registrations), old(excludedDeepCount), key, el)
    {
      var hadExclusion, hasExclusion := RemoveRecord(key, el);
      if hasExclusion && !hadExclusion {
        excludedDeepCount := excludedDeepCount + 1;
      } else if hadExclusion && !hasExclusion {
        excludedDeepCount := excludedDeepCount - 1;
      }
    }

    /**
     * `record.remove(key)`, dropping the entry once nothing is left;
     * reports whether the merged handler excluded before and after.
     */
    method RemoveRecord(key: Key, el: Node) returns (hadExclusion: bool, hasExclusion: bool)
      requires Valid() && el in arcs
      modifies this, Repr
      ensures Valid() && Repr == old(Repr) && excludedDeepCount == old(excludedDeepCount)
      ensures registrations == RemoveRegistration(old(registrations), key, el)
      ensures hadExclusion == ResolvedExcludes(old(registrations)[el])
      ensures hasExclusion == ResolvedExcludes(RemoveEntry(old(registrations)[el], key))
    {
      var record := arcs[el];
      ghost var rest := RemoveEntry(registrations[el], key);
      hadExclusion := Truthy(record.resolved.value.exclude);
      record.Remove(key);
      forall n | n in arcs && n != el
        ensures arcs[n].Valid() && arcs[n].records == registrations[n]
      {
        assert arcs[n].element != record.element;
      }
      assert ValidBut(el);
      hasExclusion := record.resolved.Some? && Truthy(record.resolved.value.exclude);
      Settle(el);
    }

    /** `find(el)`. */
    method Find(el: Node) returns (r: Option<Handler>)
      requires Valid()
      ensures r == Lookup(registrations, el)
    {
      if el !in arcs {
        return None;
      }
      return arcs[el].resolved;
    }

    /** `hasExcludedDeepElements()`. */
    method HasExcludedDeepElements() returns (b: bool)
      requires CountAccurate()
      ensures b <==> exists n :: n in registrations && ResolvedExcludes(registrations[n])
    {
      HasExcludedIffSomeExcludes(registrations, excludedDeepCount);
      return excludedDeepCount > 0;
    }
  }
}
