/**
 * The player's storage: the backpack and the equipped bags, flattened into one
 * sequence of positions, and the deposit sweep `AccumulateInventory` over it.
 */
module Inventory {
  import opened Wrappers
  import opened Numeric
  import opened Catalog

  datatype Item = Item(entry: nat, count: nat)

  /** One storage position: the bag-family mask of its container (0 for the backpack) and its item. */
  datatype Position = Position(family: bv32, content: Option<Item>)

  datatype Bag = Bag(family: bv32, slots: seq<Option<Item>>)

  function InContainer(family: bv32, slots: seq<Option<Item>>): (ps: seq<Position>)
    ensures |ps| == |slots|
    ensures forall i | 0 <= i < |slots| :: ps[i] == Position(family, slots[i])
  {
    seq(|slots|, i requires 0 <= i < |slots| => Position(family, slots[i]))
  }

  /** Equipped bag slots in bag order; an empty bag slot contributes nothing. */
  function BagPositions(bags: seq<Option<Bag>>): seq<Position> {
    if bags == [] then []
    else
      (match bags[0]
       case None => []
       case Some(b) => InContainer(b.family, b.slots))
      + BagPositions(bags[1..])
  }

  /** The positions scanned by the simulator and the sweep: backpack (family 0) first, then each bag. */
  function Layout(backpack: seq<Option<Item>>, bags: seq<Option<Bag>>): seq<Position> {
    InContainer(0, backpack) + BagPositions(bags)
  }

  // ---- counting empty positions ----

  /** Number of empty positions whose container has family `f`. */
  function EmptyCount(ps: seq<Position>, f: bv32): nat {
    if ps == [] then 0
    else EmptyCount(ps[..|ps| - 1], f) + (if ps[|ps| - 1].content.None? && ps[|ps| - 1].family == f then 1 else 0)
  }

  function EmptySlots(slots: seq<Option<Item>>): nat {
    if slots == [] then 0 else (if slots[0].None? then 1 else 0) + EmptySlots(slots[1..])
  }

  /** Empty slots of the equipped bags whose family is `f`. */
  function BagEmpties(bags: seq<Option<Bag>>, f: bv32): nat {
    if bags == [] then 0
    else
      (match bags[0]
       case None => 0
       case Some(b) => if b.family == f then EmptySlots(b.slots) else 0)
      + BagEmpties(bags[1..], f)
  }

  lemma {:induction false} EmptyCountAppend(a: seq<Position>, b: seq<Position>, f: bv32)
    ensures EmptyCount(a + b, f) == EmptyCount(a, f) + EmptyCount(b, f)
    decreases |b|
  {
    if b == [] {
      assert a + b == a;
    } else {
      var b' := b[..|b| - 1];
      assert (a + b)[..|a + b| - 1] == a + b';
      EmptyCountAppend(a, b', f);
    }
  }

  lemma {:induction false} EmptyCountContainer(family: bv32, slots: seq<Option<Item>>, f: bv32)
    ensures EmptyCount(InContainer(family, slots), f) == if family == f then EmptySlots(slots) else 0
    decreases |slots|
  {
    if slots != [] {
      var ps := InContainer(family, slots);
      assert ps == [Position(family, slots[0])] + InContainer(family, slots[1..]);
      EmptyCountAppend([Position(family, slots[0])], InContainer(family, slots[1..]), f);
      assert EmptyCount([Position(family, slots[0])], f) == if slots[0].None? && family == f then 1 else 0 by {
        assert [Position(family, slots[0])][..0] == [];
      }
      EmptyCountContainer(family, slots[1..], f);
    }
  }

  lemma {:induction false} EmptyCountBags(bags: seq<Option<Bag>>, f: bv32)
    ensures EmptyCount(BagPositions(bags), f) == BagEmpties(bags, f)
    decreases |bags|
  {
    if bags != [] {
      var head := match bags[0] case None => [] case Some(b) => InContainer(b.family, b.slots);
      EmptyCountAppend(head, BagPositions(bags[1..]), f);
      EmptyCountBags(bags[1..], f);
      match bags[0]
      case None =>
      case Some(b) => EmptyCountContainer(b.family, b.slots, f);
    }
  }

  /**
   * Empty backpack slots count under family 0; an empty bag slot counts under its bag's family.
   */
  lemma LayoutEmptyCount(backpack: seq<Option<Item>>, bags: seq<Option<Bag>>, f: bv32)
    ensures EmptyCount(Layout(backpack, bags), f) == (if f == 0 then EmptySlots(backpack) else 0) + BagEmpties(bags, f)
  {
    EmptyCountAppend(InContainer(0, backpack), BagPositions(bags), f);
    EmptyCountContainer(0, backpack, f);
    EmptyCountBags(bags, f);
  }

  // ---- the deposit sweep ----

  /** The sweep takes a filled position whose template exists, is bankable and passes the filter. */
  predicate Taken(catalog: ItemCatalog, filter: Option<nat>, p: Position) {
    && p.content.Some?
    && p.content.value.entry in catalog
    && Bankable(catalog[p.content.value.entry])
    && (filter.None? || StoredSubclass(catalog[p.content.value.entry]) == filter.value)
  }

  datatype Accumulated = Accumulated(addedCounts: map<nat, nat>, subclassByEntry: map<nat, nat>)

  /** `considerItem` on one position: counts add up in a `uint32`, the first subclass seen sticks. */
  function Consider(acc: Accumulated, catalog: ItemCatalog, filter: Option<nat>, p: Position): Accumulated {
    if !Taken(catalog, filter, p) then acc
    else
      var e := p.content.value.entry;
      Accumulated(
        acc.addedCounts[e := Wrap32(Get0(acc.addedCounts, e) + p.content.value.count)],
        if e in acc.subclassByEntry then acc.subclassByEntry else acc.subclassByEntry[e := StoredSubclass(catalog[e])])
  }

  /** The counts and subclasses the sweep accumulates over the positions, in scan order. */
  function Sweep(ps: seq<Position>, catalog: ItemCatalog, filter: Option<nat>): Accumulated {
    if ps == [] then Accumulated(map[], map[])
    else Consider(Sweep(ps[..|ps| - 1], catalog, filter), catalog, filter, ps[|ps| - 1])
  }

  /** The storage after the sweep: each taken position is destroyed, every other one is left as it was. */
  function Swept(ps: seq<Position>, catalog: ItemCatalog, filter: Option<nat>): (r: seq<Position>)
    ensures |r| == |ps|
    ensures forall i | 0 <= i < |ps| :: r[i] == if Taken(catalog, filter, ps[i]) then Position(ps[i].family, None) else ps[i]
  {
    seq(|ps|, i requires 0 <= i < |ps| =>
      if Taken(catalog, filter, ps[i]) then Position(ps[i].family, None) else ps[i])
  }

  /** Total count of the taken positions holding entry `e`. */
  function TakenTotal(ps: seq<Position>, catalog: ItemCatalog, filter: Option<nat>, e: nat): nat {
    if ps == [] then 0
    else
      var p := ps[|ps| - 1];
      TakenTotal(ps[..|ps| - 1], catalog, filter, e)
        + (if Taken(catalog, filter, p) && p.content.value.entry == e then p.content.value.count else 0)
  }

  /** Total count of the positions holding entry `e`. */
  function HeldCount(ps: seq<Position>, e: nat): nat {
    if ps == [] then 0
    else
      var p := ps[|ps| - 1];
      HeldCount(ps[..|ps| - 1], e) + (if p.content.Some? && p.content.value.entry == e then p.content.value.count else 0)
  }

  predicate TakesEntry(ps: seq<Position>, catalog: ItemCatalog, filter: Option<nat>, e: nat) {
    exists i :: 0 <= i < |ps| && Taken(catalog, filter, ps[i]) && ps[i].content.value.entry == e
  }

  /** An entry is counted exactly when some taken position holds it, and then it also has a subclass. */
  lemma {:induction false} SweepKeys(ps: seq<Position>, catalog: ItemCatalog, filter: Option<nat>, e: nat)
    ensures Sweep(ps, catalog, filter).addedCounts.Keys == Sweep(ps, catalog, filter).subclassByEntry.Keys
    ensures e in Sweep(ps, catalog, filter).addedCounts <==> TakesEntry(ps, catalog, filter, e)
  {
    if ps != [] {
      var init := ps[..|ps| - 1];
      SweepKeys(init, catalog, filter, e);
      if TakesEntry(ps, catalog, filter, e) && !Taken(catalog, filter, ps[|ps| - 1]) {
        var i :| 0 <= i < |ps| && Taken(catalog, filter, ps[i]) && ps[i].content.value.entry == e;
        assert i < |init| && init[i] == ps[i];
      }
      if TakesEntry(ps, catalog, filter, e) && Taken(catalog, filter, ps[|ps| - 1]) && ps[|ps| - 1].content.value.entry != e {
        var i :| 0 <= i < |ps| && Taken(catalog, filter, ps[i]) && ps[i].content.value.entry == e;
        assert i < |init| && init[i] == ps[i];
      }
      if TakesEntry(init, catalog, filter, e) {
        var i :| 0 <= i < |init| && Taken(catalog, filter, init[i]) && init[i].content.value.entry == e;
        assert ps[i] == init[i];
      }
    }
  }

  /** The count of an entry is the total of the taken positions holding it, modulo 2^32. */
  lemma {:induction false} SweepTotal(ps: seq<Position>, catalog: ItemCatalog, filter: Option<nat>, e: nat)
    ensures Get0(Sweep(ps, catalog, filter).addedCounts, e) == TakenTotal(ps, catalog, filter, e) % U32_LIMIT
  {
    if ps != [] {
      var init := ps[..|ps| - 1];
      var p := ps[|ps| - 1];
      SweepTotal(init, catalog, filter, e);
      if Taken(catalog, filter, p) && p.content.value.entry == e {
        ModAddCancel(TakenTotal(init, catalog, filter, e), p.content.value.count);
      }
    }
  }

  /** The subclass recorded for an entry is the category it is stored under (the filter's, when there is one). */
  lemma {:induction false} SweepSubclass(ps: seq<Position>, catalog: ItemCatalog, filter: Option<nat>, e: nat)
    requires e in Sweep(ps, catalog, filter).subclassByEntry
    ensures e in catalog
    ensures Sweep(ps, catalog, filter).subclassByEntry[e] == StoredSubclass(catalog[e])
    ensures filter.Some? ==> Sweep(ps, catalog, filter).subclassByEntry[e] == filter.value
  {
    var init := ps[..|ps| - 1];
    if e in Sweep(init, catalog, filter).subclassByEntry {
      SweepSubclass(init, catalog, filter, e);
    }
  }

  lemma ModAddCancel(x: nat, c: nat)
    ensures (x % U32_LIMIT + c) % U32_LIMIT == (x + c) % U32_LIMIT
  {
  }

  /** Nothing is lost: what the player held is what is left plus what the sweep took. */
  lemma {:induction false} SweepConserves(ps: seq<Position>, catalog: ItemCatalog, filter: Option<nat>, e: nat)
    ensures HeldCount(ps, e) == HeldCount(Swept(ps, catalog, filter), e) + TakenTotal(ps, catalog, filter, e)
  {
    if ps != [] {
      var init := ps[..|ps| - 1];
      assert Swept(ps, catalog, filter)[..|ps| - 1] == Swept(init, catalog, filter);
      SweepConserves(init, catalog, filter, e);
    }
  }

  /** A sweep restricted to one category leaves every other category's items in place. */
  lemma FilteredSweepSparesOthers(ps: seq<Position>, catalog: ItemCatalog, subclass: nat, i: nat)
    requires i < |ps| && ps[i].content.Some? && ps[i].content.value.entry in catalog
    requires StoredSubclass(catalog[ps[i].content.value.entry]) != subclass
    ensures Swept(ps, catalog, Some(subclass))[i] == ps[i]
  {
  }

  /** `considerItem`: whether the position is taken, and the accumulation after it. */
  method ConsiderItem(acc: Accumulated, catalog: ItemCatalog, filter: Option<nat>, p: Position)
    returns (acc': Accumulated, taken: bool)
    ensures taken == Taken(catalog, filter, p)
    ensures acc' == Consider(acc, catalog, filter, p)
  {
    acc', taken := acc, false;
    if p.content.None? || p.content.value.entry !in catalog {
      return;
    }
    var t := catalog[p.content.value.entry];
    if !((t.itemClass == ITEM_CLASS_TRADE_GOODS || t.itemClass == ITEM_CLASS_GEM) && t.maxStack != 1) {
      return;
    }
    var subclass := if t.itemClass == ITEM_CLASS_GEM then ITEM_SUBCLASS_JEWELCRAFTING else t.subClass;
    if filter.Some? && subclass != filter.value {
      return;
    }
    var entry := p.content.value.entry;
    var added := acc.addedCounts[entry := Wrap32(Get0(acc.addedCounts, entry) + p.content.value.count)];
    var subclasses := if entry in acc.subclassByEntry then acc.subclassByEntry
                      else acc.subclassByEntry[entry := subclass];
    acc', taken := Accumulated(added, subclasses), true;
  }

  /**
   * `AccumulateInventory`: visits the backpack and then each bag, destroys every taken item and
   * accumulates its count and subclass.
   */
  method AccumulateInventory(storage: array<Position>, catalog: ItemCatalog, filter: Option<nat>)
    returns (result: Accumulated)
    modifies storage
    ensures storage[..] == Swept(old(storage[..]), catalog, filter)
    ensures result == Sweep(old(storage[..]), catalog, filter)
  {
    ghost var s0 := storage[..];
    result := Accumulated(map[], map[]);
    var i := 0;
    while i < storage.Length
      invariant 0 <= i <= storage.Length
      invariant forall k | 0 <= k < i :: storage[k] == Swept(s0, catalog, filter)[k]
      invariant forall k | i <= k < storage.Length :: storage[k] == s0[k]
      invariant result == Sweep(s0[..i], catalog, filter)
    {
      assert s0[..i + 1][..i] == s0[..i];
      var taken;
      result, taken := ConsiderItem(result, catalog, filter, storage[i]);
      if taken {
        storage[i] := Position(storage[i].family, None);
      }
      i := i + 1;
    }
    assert s0[..storage.Length] == s0;
  }
}
