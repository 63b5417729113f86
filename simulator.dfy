/**
 * `SimulateBatchAdd`: the dry-run capacity simulator. It snapshots the partial stacks and the
 * empty slots (counted per bag family) of the player's storage, then grants each request in order:
 * partial stacks of the same item first, then a compatible specialty bag's empty slot, then a
 * generic (family 0) empty slot, one new stack per slot.
 *
 * The C++ keeps the empty-slot counts in an `unordered_map`; here they are a sequence of
 * (family, count) keys in one fixed iteration order: the order in which the scan first met each family.
 */
module Simulator {
  import opened Wrappers
  import opened Numeric
  import opened Catalog
  import opened Inventory

  // ---- the snapshot ----

  /** One key of `emptySlotsByFamily`: a family mask and its count of empty slots. */
  datatype FamilySlots = FamilySlots(mask: bv32, free: nat)

  /** `emptySlotsByFamily`, in the order its keys are iterated. */
  type FamilyTable = seq<FamilySlots>

  /** `partial`: free space of each partial stack, per item entry; and the empty-slot table. */
  datatype Snapshot = Snapshot(partial: map<nat, seq<nat>>, empty: FamilyTable)

  /** A map has each key once. */
  predicate DistinctMasks(t: FamilyTable) {
    forall i, j | 0 <= i < j < |t| :: t[i].mask != t[j].mask
  }

  /** The position of key `mask`, if present. */
  function Find(t: FamilyTable, mask: bv32): (r: Option<nat>)
    ensures r.Some? ==> r.value < |t| && t[r.value].mask == mask
  {
    if t == [] then None
    else if t[0].mask == mask then Some(0)
    else
      match Find(t[1..], mask)
      case None => None
      case Some(k) => Some(k + 1)
  }

  /** Empty slots counted under family `mask`. */
  function CountOf(t: FamilyTable, mask: bv32): nat {
    if t == [] then 0 else (if t[0].mask == mask then t[0].free else 0) + CountOf(t[1..], mask)
  }

  lemma {:induction false} CountOfUpdate(t: FamilyTable, i: nat, x: FamilySlots, m: bv32)
    requires i < |t|
    ensures CountOf(t[i := x], m) + (if t[i].mask == m then t[i].free else 0)
         == CountOf(t, m) + (if x.mask == m then x.free else 0)
  {
    if i > 0 {
      assert t[i := x][1..] == t[1..][i - 1 := x];
      CountOfUpdate(t[1..], i - 1, x, m);
    }
  }

  lemma {:induction false} CountOfAppend(t: FamilyTable, x: FamilySlots, m: bv32)
    ensures CountOf(t + [x], m) == CountOf(t, m) + (if x.mask == m then x.free else 0)
  {
    if t != [] {
      assert (t + [x])[1..] == t[1..] + [x];
      CountOfAppend(t[1..], x, m);
    }
  }

  /** `emptySlotsByFamily[mask]++` (a new key is iterated after the existing ones). */
  function Bump(t: FamilyTable, mask: bv32): FamilyTable {
    match Find(t, mask)
    case Some(i) => t[i := FamilySlots(mask, t[i].free + 1)]
    case None => t + [FamilySlots(mask, 1)]
  }

  /** Key `mask` is not among the first `n` keys. */
  lemma {:induction false} FindAbsent(t: FamilyTable, mask: bv32, j: nat)
    requires j < |t| && t[j].mask == mask
    ensures Find(t, mask).Some? && Find(t, mask).value <= j
  {
    if j > 0 && t[0].mask != mask {
      FindAbsent(t[1..], mask, j - 1);
    }
  }

  /** The increment adds one slot to family `mask` and changes no other family's count. */
  lemma BumpCounts(t: FamilyTable, mask: bv32, m: bv32)
    ensures CountOf(Bump(t, mask), m) == CountOf(t, m) + (if m == mask then 1 else 0)
  {
    match Find(t, mask)
    case Some(i) => CountOfUpdate(t, i, FamilySlots(mask, t[i].free + 1), m);
    case None => CountOfAppend(t, FamilySlots(mask, 1), m);
  }

  /** The increment keeps each key once. */
  lemma BumpDistinct(t: FamilyTable, mask: bv32)
    requires DistinctMasks(t)
    ensures DistinctMasks(Bump(t, mask))
  {
    if Find(t, mask).None? {
      forall j | 0 <= j < |t| ensures t[j].mask != mask {
        if t[j].mask == mask {
          FindAbsent(t, mask, j);
        }
      }
    }
  }

  function Partials(partial: map<nat, seq<nat>>, entry: nat): seq<nat> {
    if entry in partial then partial[entry] else []
  }

  /** One position of the scan: an empty slot counts under its container's family; a stackable,
      non-full stack whose template exists records its free space. */
  function Observe(snap: Snapshot, catalog: ItemCatalog, p: Position): Snapshot {
    match p.content
    case None => snap.(empty := Bump(snap.empty, p.family))
    case Some(item) =>
      if item.entry !in catalog then snap
      else
        var maxStack := catalog[item.entry].maxStack;
        if maxStack <= 1 || item.count >= maxStack then snap
        else snap.(partial := snap.partial[item.entry := Partials(snap.partial, item.entry) + [maxStack - item.count]])
  }

  const EmptySnapshot: Snapshot := Snapshot(map[], [])

  /** The snapshot built by scanning the positions in order. */
  function SnapshotOf(ps: seq<Position>, catalog: ItemCatalog): Snapshot {
    if ps == [] then EmptySnapshot
    else Observe(SnapshotOf(ps[..|ps| - 1], catalog), catalog, ps[|ps| - 1])
  }

  /** The scan's table has each family once, as a map's keys. */
  lemma {:induction false} SnapshotDistinct(ps: seq<Position>, catalog: ItemCatalog)
    ensures DistinctMasks(SnapshotOf(ps, catalog).empty)
  {
    if ps != [] {
      SnapshotDistinct(ps[..|ps| - 1], catalog);
      if ps[|ps| - 1].content.None? {
        BumpDistinct(SnapshotOf(ps[..|ps| - 1], catalog).empty, ps[|ps| - 1].family);
      }
    }
  }

  // ---- sums ----

  function Total(s: seq<nat>): nat {
    if s == [] then 0 else s[0] + Total(s[1..])
  }

  lemma {:induction false} TotalAppend(s: seq<nat>, x: nat)
    ensures Total(s + [x]) == Total(s) + x
  {
    if s != [] {
      assert (s + [x])[1..] == s[1..] + [x];
      TotalAppend(s[1..], x);
    }
  }

  predicate AllPositive(s: seq<nat>) {
    forall k | 0 <= k < |s| :: s[k] > 0
  }

  /** Free space the scanned positions offer to entry `e`: `maxStack - count` for each partial stack. */
  function PartialFree(ps: seq<Position>, catalog: ItemCatalog, e: nat): nat {
    if ps == [] then 0
    else
      var p := ps[|ps| - 1];
      PartialFree(ps[..|ps| - 1], catalog, e)
        + (if p.content.Some? && p.content.value.entry == e && e in catalog
              && 1 < catalog[e].maxStack && p.content.value.count < catalog[e].maxStack
           then catalog[e].maxStack - p.content.value.count else 0)
  }

  /** The snapshot's empty-slot count for a family is the number of empty positions of that family. */
  lemma {:induction false} SnapshotEmptyCounts(ps: seq<Position>, catalog: ItemCatalog, f: bv32)
    ensures CountOf(SnapshotOf(ps, catalog).empty, f) == EmptyCount(ps, f)
  {
    if ps != [] {
      SnapshotEmptyCounts(ps[..|ps| - 1], catalog, f);
      if ps[|ps| - 1].content.None? {
        BumpCounts(SnapshotOf(ps[..|ps| - 1], catalog).empty, ps[|ps| - 1].family, f);
      }
    }
  }

  /** The partial stacks recorded for an entry are all non-full and add up to its partial free space. */
  lemma {:induction false} SnapshotPartials(ps: seq<Position>, catalog: ItemCatalog, e: nat)
    ensures AllPositive(Partials(SnapshotOf(ps, catalog).partial, e))
    ensures Total(Partials(SnapshotOf(ps, catalog).partial, e)) == PartialFree(ps, catalog, e)
  {
    if ps != [] {
      var init := ps[..|ps| - 1];
      SnapshotPartials(init, catalog, e);
      var p := ps[|ps| - 1];
      if p.content.Some? && p.content.value.entry == e && e in catalog {
        var maxStack := catalog[e].maxStack;
        if 1 < maxStack && p.content.value.count < maxStack {
          TotalAppend(Partials(SnapshotOf(init, catalog).partial, e), maxStack - p.content.value.count);
        }
      }
    }
  }

  // ---- phase 1: partial stacks ----

  /** The loop over `partial[entry]` from stack `i` on: each stack takes `min(freeSpace, remaining)`,
      and the loop stops once nothing remains. Returns the new free spaces and the amount placed. */
  function FillAt(frees: seq<nat>, i: nat, remaining: nat): (r: (seq<nat>, nat))
    ensures |r.0| == |frees|
    ensures r.1 <= remaining
    decreases |frees| - i
  {
    if i >= |frees| || remaining == 0 then (frees, 0)
    else
      var use := Min(frees[i], remaining);
      var rest := FillAt(frees[i := frees[i] - use], i + 1, remaining - use);
      (rest.0, use + rest.1)
  }

  function FillStacks(frees: seq<nat>, remaining: nat): (r: (seq<nat>, nat))
    ensures |r.0| == |frees|
    ensures r.1 <= remaining
  {
    FillAt(frees, 0, remaining)
  }

  /** Free space of the stacks from `i` on. */
  function TotalFrom(s: seq<nat>, i: nat): nat
    decreases |s| - i
  {
    if i >= |s| then 0 else s[i] + TotalFrom(s, i + 1)
  }

  lemma {:induction false} TotalFromIsTotal(s: seq<nat>, i: nat)
    requires i <= |s|
    ensures TotalFrom(s, i) == Total(s[i..])
    decreases |s| - i
  {
    if i < |s| {
      TotalFromIsTotal(s, i + 1);
      assert s[i..][1..] == s[i + 1..];
    }
  }

  lemma {:induction false} TotalUpdate(s: seq<nat>, i: nat, v: nat)
    requires i < |s|
    ensures Total(s[i := v]) + s[i] == Total(s) + v
  {
    if i > 0 {
      assert s[i := v][1..] == s[1..][i - 1 := v];
      TotalUpdate(s[1..], i - 1, v);
    }
  }

  lemma {:induction false} TotalFromUpdateBefore(s: seq<nat>, j: nat, v: nat, i: nat)
    requires j < i && j < |s|
    ensures TotalFrom(s[j := v], i) == TotalFrom(s, i)
    decreases |s| - i
  {
    if i < |s| {
      TotalFromUpdateBefore(s, j, v, i + 1);
    }
  }

  /** Phase 1 places exactly `min(remaining, free space of the stacks from i on)`, and that much free space is gone. */
  lemma {:induction false} FillAtUses(frees: seq<nat>, i: nat, remaining: nat)
    ensures FillAt(frees, i, remaining).1 == Min(remaining, TotalFrom(frees, i))
    ensures Total(FillAt(frees, i, remaining).0) == Total(frees) - FillAt(frees, i, remaining).1
    decreases |frees| - i
  {
    if i < |frees| && remaining != 0 {
      var use := Min(frees[i], remaining);
      var next := frees[i := frees[i] - use];
      FillAtUses(next, i + 1, remaining - use);
      TotalFromUpdateBefore(frees, i, frees[i] - use, i + 1);
      TotalUpdate(frees, i, frees[i] - use);
    }
  }

  lemma FillStacksUses(frees: seq<nat>, remaining: nat)
    ensures FillStacks(frees, remaining).1 == Min(remaining, Total(frees))
    ensures Total(FillStacks(frees, remaining).0) == Total(frees) - FillStacks(frees, remaining).1
  {
    FillAtUses(frees, 0, remaining);
    TotalFromIsTotal(frees, 0);
    assert frees[0..] == frees;
  }

  /** `remove_if(freeSpace == 0)`: the exhausted stacks leave the snapshot. */
  function RemoveExhausted(s: seq<nat>): (r: seq<nat>)
    ensures |r| <= |s|
  {
    if s == [] then []
    else if s[0] == 0 then RemoveExhausted(s[1..])
    else [s[0]] + RemoveExhausted(s[1..])
  }

  /** What stays has free space, and no free space is lost. */
  lemma {:induction false} RemoveExhaustedKeeps(s: seq<nat>)
    ensures AllPositive(RemoveExhausted(s))
    ensures Total(RemoveExhausted(s)) == Total(s)
  {
    if s != [] {
      RemoveExhaustedKeeps(s[1..]);
    }
  }

  // ---- phase 2: empty slots ----

  /** `fitsSpecialty`: an unrestricted slot, or a bag whose family shares a bit with the item's. */
  predicate Fits(itemFamily: bv32, mask: bv32) {
    mask == 0 || (itemFamily & mask) != 0
  }

  /** A specialty slot the item may use now: non-zero family, a free slot, a shared bit. */
  predicate OpenSpecialty(s: FamilySlots, itemFamily: bv32) {
    s.mask != 0 && s.free != 0 && (itemFamily & s.mask) != 0
  }

  /** The specialty search: the first key in iteration order that is an open specialty slot. */
  function SpecialtyIn(t: FamilyTable, itemFamily: bv32): (r: Option<nat>)
    ensures r.Some? ==> r.value < |t| && OpenSpecialty(t[r.value], itemFamily)
  {
    if t == [] then None
    else if OpenSpecialty(t[0], itemFamily) then Some(0)
    else
      match SpecialtyIn(t[1..], itemFamily)
      case None => None
      case Some(k) => Some(k + 1)
  }

  /** The search finds nothing exactly when no key is an open specialty slot. */
  lemma {:induction false} SpecialtyNoneIff(t: FamilyTable, itemFamily: bv32)
    ensures SpecialtyIn(t, itemFamily).None? <==> forall i | 0 <= i < |t| :: !OpenSpecialty(t[i], itemFamily)
  {
    if t != [] {
      SpecialtyNoneIff(t[1..], itemFamily);
      assert forall i | 1 <= i < |t| :: t[i] == t[1..][i - 1];
    }
  }

  /** The slot an iteration of the placing loop uses: a specialty slot, else a generic one, else none. */
  function PickSlot(t: FamilyTable, itemFamily: bv32): (r: Option<nat>)
    ensures r.Some? ==> r.value < |t| && t[r.value].free > 0 && Fits(itemFamily, t[r.value].mask)
  {
    match SpecialtyIn(t, itemFamily)
    case Some(i) => Some(i)
    case None =>
      match Find(t, 0)
      case Some(i) => if t[i].free != 0 then Some(i) else None
      case None => None
  }

  /** `kv.second--`: one empty slot of the key at position `i` is used. */
  function Take(t: FamilyTable, i: nat): (r: FamilyTable)
    requires i < |t| && t[i].free > 0
    ensures |r| == |t|
  {
    t[i := FamilySlots(t[i].mask, t[i].free - 1)]
  }

  /** Empty slots an item of family `itemFamily` may use. */
  function Eligible(t: FamilyTable, itemFamily: bv32): nat {
    if t == [] then 0
    else (if Fits(itemFamily, t[0].mask) then t[0].free else 0) + Eligible(t[1..], itemFamily)
  }

  lemma {:induction false} EligibleZeroIff(t: FamilyTable, itemFamily: bv32)
    ensures Eligible(t, itemFamily) == 0 <==> forall i | 0 <= i < |t| && Fits(itemFamily, t[i].mask) :: t[i].free == 0
  {
    if t != [] {
      EligibleZeroIff(t[1..], itemFamily);
      assert forall i | 1 <= i < |t| :: t[i] == t[1..][i - 1];
    }
  }

  /** The placing loop stops exactly when no eligible slot is left. */
  lemma PickSlotNoneIff(t: FamilyTable, itemFamily: bv32)
    requires DistinctMasks(t)
    ensures PickSlot(t, itemFamily).None? <==> Eligible(t, itemFamily) == 0
  {
    EligibleZeroIff(t, itemFamily);
    SpecialtyNoneIff(t, itemFamily);
    if PickSlot(t, itemFamily).None? {
      forall i | 0 <= i < |t| && Fits(itemFamily, t[i].mask)
        ensures t[i].free == 0
      {
        assert !OpenSpecialty(t[i], itemFamily);
        if t[i].mask == 0 {
          FindAbsent(t, 0, i);
        }
      }
    }
  }

  /** A fitting specialty slot is always preferred to a generic one. */
  lemma PickSlotPrefersSpecialty(t: FamilyTable, itemFamily: bv32, i: nat)
    requires i < |t| && OpenSpecialty(t[i], itemFamily)
    ensures PickSlot(t, itemFamily).Some? && t[PickSlot(t, itemFamily).value].mask != 0
  {
    SpecialtyNoneIff(t, itemFamily);
  }

  /** Using one slot lowers the eligible count of a family by one exactly when the slot fits it. */
  lemma {:induction false} EligibleAfterTake(t: FamilyTable, i: nat, itemFamily: bv32)
    requires i < |t| && t[i].free > 0
    ensures Eligible(Take(t, i), itemFamily) == Eligible(t, itemFamily) - (if Fits(itemFamily, t[i].mask) then 1 else 0)
  {
    if i == 0 {
      assert Take(t, i)[1..] == t[1..];
    } else {
      assert Take(t, i)[1..] == Take(t[1..], i - 1);
      EligibleAfterTake(t[1..], i - 1, itemFamily);
    }
  }

  /** `after` uses some of `before`'s empty slots, and only ones that fit `itemFamily`. */
  predicate Consumed(before: FamilyTable, after: FamilyTable, itemFamily: bv32) {
    |after| == |before| &&
    forall j | 0 <= j < |before| ::
      after[j].mask == before[j].mask && after[j].free <= before[j].free &&
      (!Fits(itemFamily, before[j].mask) ==> after[j].free == before[j].free)
  }

  /** The `while (remaining > 0)` loop: each used slot creates one stack of `min(maxStack, remaining)`. */
  function FillEmpty(t: FamilyTable, itemFamily: bv32, maxStack: nat, remaining: nat): (r: (nat, FamilyTable))
    requires maxStack > 0
    ensures r.0 <= remaining
    decreases remaining
  {
    if remaining == 0 then (0, t)
    else
      match PickSlot(t, itemFamily)
      case None => (0, t)
      case Some(i) =>
        var create := Min(maxStack, remaining);
        var rest := FillEmpty(Take(t, i), itemFamily, maxStack, remaining - create);
        (create + rest.0, rest.1)
  }

  /** Phase 2 only uses slots that fit the item, and keeps the keys. */
  lemma {:induction false} FillEmptyConsumed(t: FamilyTable, itemFamily: bv32, maxStack: nat, remaining: nat)
    requires maxStack > 0
    ensures Consumed(t, FillEmpty(t, itemFamily, maxStack, remaining).1, itemFamily)
    decreases remaining
  {
    if remaining > 0 {
      match PickSlot(t, itemFamily)
      case None =>
      case Some(i) =>
        FillEmptyConsumed(Take(t, i), itemFamily, maxStack, remaining - Min(maxStack, remaining));
    }
  }

  lemma ConsumedKeepsDistinct(before: FamilyTable, after: FamilyTable, itemFamily: bv32)
    requires DistinctMasks(before) && Consumed(before, after, itemFamily)
    ensures DistinctMasks(after)
  {
  }

  /** Closed form of phase 2: `min(remaining, maxStack * eligible empty slots)`. */
  lemma {:induction false} FillEmptyClosedForm(t: FamilyTable, itemFamily: bv32, maxStack: nat, remaining: nat)
    requires DistinctMasks(t) && maxStack > 0
    ensures FillEmpty(t, itemFamily, maxStack, remaining).0 == Min(remaining, maxStack * Eligible(t, itemFamily))
    decreases remaining
  {
    if remaining > 0 && PickSlot(t, itemFamily).Some? {
      var i := PickSlot(t, itemFamily).value;
      TakeKeepsDistinct(t, itemFamily, i);
      FillEmptyClosedForm(Take(t, i), itemFamily, maxStack, remaining - Min(maxStack, remaining));
      ClosedFormStep(t, itemFamily, maxStack, remaining, i);
    } else if remaining > 0 {
      PickSlotNoneIff(t, itemFamily);
      assert maxStack * Eligible(t, itemFamily) == 0;
    }
  }

  lemma TakeKeepsDistinct(t: FamilyTable, itemFamily: bv32, i: nat)
    requires DistinctMasks(t) && PickSlot(t, itemFamily) == Some(i)
    ensures DistinctMasks(Take(t, i))
  {
    assert Consumed(t, Take(t, i), itemFamily);
    ConsumedKeepsDistinct(t, Take(t, i), itemFamily);
  }

  /** One used slot: a stack of `min(maxStack, remaining)`, and one eligible slot fewer for the rest. */
  lemma ClosedFormStep(t: FamilyTable, itemFamily: bv32, maxStack: nat, remaining: nat, i: nat)
    requires DistinctMasks(t) && maxStack > 0 && remaining > 0 && PickSlot(t, itemFamily) == Some(i)
    requires FillEmpty(Take(t, i), itemFamily, maxStack, remaining - Min(maxStack, remaining)).0
          == Min(remaining - Min(maxStack, remaining), maxStack * Eligible(Take(t, i), itemFamily))
    ensures FillEmpty(t, itemFamily, maxStack, remaining).0 == Min(remaining, maxStack * Eligible(t, itemFamily))
  {
    var e := Eligible(t, itemFamily);
    EligibleAfterTake(t, i, itemFamily);
    assert Eligible(Take(t, i), itemFamily) == e - 1;
    FillEmptyUnfold(t, itemFamily, maxStack, remaining, i);
    OneMoreStack(maxStack, remaining, e);
  }

  /** One stack of `min(maxStack, remaining)` plus the closed form for the slots left. */
  lemma OneMoreStack(maxStack: nat, remaining: nat, e: nat)
    requires maxStack > 0 && remaining > 0 && e > 0
    ensures Min(maxStack, remaining) + Min(remaining - Min(maxStack, remaining), maxStack * (e - 1))
         == Min(remaining, maxStack * e)
  {
    assert maxStack * (e - 1) == maxStack * e - maxStack;
    assert maxStack <= maxStack * e;
  }

  lemma {:induction false} EligibleMonotone(before: FamilyTable, after: FamilyTable, itemFamily: bv32, anyFamily: bv32)
    requires Consumed(before, after, itemFamily)
    ensures Eligible(after, anyFamily) <= Eligible(before, anyFamily)
  {
    if before != [] {
      EligibleMonotone(before[1..], after[1..], itemFamily, anyFamily);
    }
  }

  lemma {:induction false} CountOfMonotone(before: FamilyTable, after: FamilyTable, itemFamily: bv32, m: bv32)
    requires Consumed(before, after, itemFamily)
    ensures CountOf(after, m) <= CountOf(before, m)
    ensures !Fits(itemFamily, m) ==> CountOf(after, m) == CountOf(before, m)
  {
    if before != [] {
      CountOfMonotone(before[1..], after[1..], itemFamily, m);
    }
  }

  // ---- one request, and the batch ----

  datatype Request = Request(entry: nat, amount: nat)

  datatype SimState = SimState(snap: Snapshot, granted: map<nat, nat>)

  /** `granted[entry] += x` for x > 0 (an entry is a key of `granted` only once something was granted). */
  function Grant(granted: map<nat, nat>, entry: nat, x: nat): (r: map<nat, nat>)
    ensures Get0(r, entry) == Get0(granted, entry) + x
    ensures entry in r <==> entry in granted || x > 0
  {
    if x == 0 then granted else granted[entry := Get0(granted, entry) + x]
  }

  /** Granting to one entry leaves every other entry as it was. */
  lemma GrantOther(granted: map<nat, nat>, entry: nat, x: nat, e: nat)
    requires e != entry
    ensures Get0(Grant(granted, entry, x), e) == Get0(granted, e)
    ensures e in Grant(granted, entry, x) <==> e in granted
  {
  }

  /** Processing one request: skipped without a template or with a zero stack size. */
  function Step(st: SimState, catalog: ItemCatalog, req: Request): SimState {
    if req.entry !in catalog || catalog[req.entry].maxStack == 0 then st
    else
      var t := catalog[req.entry];
      var filled := FillStacks(Partials(st.snap.partial, req.entry), req.amount);
      var placed := FillEmpty(st.snap.empty, t.bagFamily, t.maxStack, req.amount - filled.1);
      SimState(
        Snapshot(st.snap.partial[req.entry := RemoveExhausted(filled.0)], placed.1),
        Grant(st.granted, req.entry, filled.1 + placed.0))
  }

  function Simulate(snap: Snapshot, requests: seq<Request>, catalog: ItemCatalog): SimState {
    if requests == [] then SimState(snap, map[])
    else Step(Simulate(snap, requests[..|requests| - 1], catalog), catalog, requests[|requests| - 1])
  }

  /** A request keeps each family once in the table. */
  lemma StepDistinct(st: SimState, catalog: ItemCatalog, req: Request)
    requires DistinctMasks(st.snap.empty)
    ensures DistinctMasks(Step(st, catalog, req).snap.empty)
  {
    if req.entry in catalog && catalog[req.entry].maxStack != 0 {
      var t := catalog[req.entry];
      var used := FillStacks(Partials(st.snap.partial, req.entry), req.amount).1;
      FillEmptyConsumed(st.snap.empty, t.bagFamily, t.maxStack, req.amount - used);
      ConsumedKeepsDistinct(st.snap.empty, FillEmpty(st.snap.empty, t.bagFamily, t.maxStack, req.amount - used).1, t.bagFamily);
    }
  }

  lemma {:induction false} SimulateDistinct(snap: Snapshot, requests: seq<Request>, catalog: ItemCatalog)
    requires DistinctMasks(snap.empty)
    ensures DistinctMasks(Simulate(snap, requests, catalog).snap.empty)
  {
    if requests != [] {
      SimulateDistinct(snap, requests[..|requests| - 1], catalog);
      StepDistinct(Simulate(snap, requests[..|requests| - 1], catalog), catalog, requests[|requests| - 1]);
    }
  }

  /** What the simulator grants for a batch, against the player's current storage. */
  function Granted(storage: seq<Position>, requests: seq<Request>, catalog: ItemCatalog): map<nat, nat> {
    Simulate(SnapshotOf(storage, catalog), requests, catalog).granted
  }

  /** The grant of one request given the state left by the earlier ones. */
  function StepGrant(st: SimState, catalog: ItemCatalog, req: Request): nat {
    Get0(Step(st, catalog, req).granted, req.entry) - Get0(st.granted, req.entry)
  }

  /**
   * Per request: `granted = min(requested, partial free space + maxStack * eligible empty slots)`,
   * and nothing at all without a template or with a zero stack size.
   */
  lemma StepClosedForm(st: SimState, catalog: ItemCatalog, req: Request)
    requires DistinctMasks(st.snap.empty)
    ensures StepGrant(st, catalog, req) ==
      if req.entry !in catalog || catalog[req.entry].maxStack == 0 then 0
      else Min(req.amount, Total(Partials(st.snap.partial, req.entry))
                           + catalog[req.entry].maxStack * Eligible(st.snap.empty, catalog[req.entry].bagFamily))
  {
    if req.entry in catalog && catalog[req.entry].maxStack != 0 {
      var t := catalog[req.entry];
      var frees := Partials(st.snap.partial, req.entry);
      FillStacksUses(frees, req.amount);
      var used := FillStacks(frees, req.amount).1;
      var placed := FillEmpty(st.snap.empty, t.bagFamily, t.maxStack, req.amount - used);
      FillEmptyClosedForm(st.snap.empty, t.bagFamily, t.maxStack, req.amount - used);
      StepFrom(st, catalog, req, FillStacks(frees, req.amount).0, used, placed.0, placed.1);
      assert StepGrant(st, catalog, req) == used + placed.0;
      MinSum(req.amount, Total(frees), t.maxStack * Eligible(st.snap.empty, t.bagFamily));
    }
  }

  lemma MinSum(a: nat, x: nat, y: nat)
    ensures Min(a, x) + Min(a - Min(a, x), y) == Min(a, x + y)
  {
  }

  /** A request never touches the partial stacks of other entries, and never adds an empty slot. */
  lemma StepConsumes(st: SimState, catalog: ItemCatalog, req: Request, e: nat, m: bv32, anyFamily: bv32)
    ensures e != req.entry ==> Partials(Step(st, catalog, req).snap.partial, e) == Partials(st.snap.partial, e)
    ensures CountOf(Step(st, catalog, req).snap.empty, m) <= CountOf(st.snap.empty, m)
    ensures Eligible(Step(st, catalog, req).snap.empty, anyFamily) <= Eligible(st.snap.empty, anyFamily)
  {
    if req.entry in catalog && catalog[req.entry].maxStack != 0 {
      var t := catalog[req.entry];
      var used := FillStacks(Partials(st.snap.partial, req.entry), req.amount).1;
      var after := FillEmpty(st.snap.empty, t.bagFamily, t.maxStack, req.amount - used).1;
      FillEmptyConsumed(st.snap.empty, t.bagFamily, t.maxStack, req.amount - used);
      CountOfMonotone(st.snap.empty, after, t.bagFamily, m);
      EligibleMonotone(st.snap.empty, after, t.bagFamily, anyFamily);
    }
  }

  /**
   * After a request with a usable template, the partial stacks kept for its entry all have free space
   * left, and their free space went down by exactly what phase 1 placed.
   */
  lemma StepPartials(st: SimState, catalog: ItemCatalog, req: Request)
    requires req.entry in catalog && catalog[req.entry].maxStack != 0
    ensures AllPositive(Partials(Step(st, catalog, req).snap.partial, req.entry))
    ensures Total(Partials(Step(st, catalog, req).snap.partial, req.entry))
         == Total(Partials(st.snap.partial, req.entry)) - Min(req.amount, Total(Partials(st.snap.partial, req.entry)))
  {
    var frees := Partials(st.snap.partial, req.entry);
    FillStacksUses(frees, req.amount);
    RemoveExhaustedKeeps(FillStacks(frees, req.amount).0);
  }

  /** Sum of the amounts requested for entry `e`. */
  function Requested(requests: seq<Request>, e: nat): nat {
    if requests == [] then 0
    else Requested(requests[..|requests| - 1], e) + (if requests[|requests| - 1].entry == e then requests[|requests| - 1].amount else 0)
  }

  /** No over-allocation: an entry never gets more than was requested for it, and an unrequested entry gets nothing. */
  lemma {:induction false} GrantedAtMostRequested(snap: Snapshot, requests: seq<Request>, catalog: ItemCatalog, e: nat)
    ensures Get0(Simulate(snap, requests, catalog).granted, e) <= Requested(requests, e)
    ensures Requested(requests, e) == 0 ==> e !in Simulate(snap, requests, catalog).granted
  {
    if requests != [] {
      var init := requests[..|requests| - 1];
      GrantedAtMostRequested(snap, init, catalog, e);
    }
  }

  /** A granted entry has a template with a non-zero stack size. */
  lemma {:induction false} GrantedHasTemplate(snap: Snapshot, requests: seq<Request>, catalog: ItemCatalog, e: nat)
    requires Get0(Simulate(snap, requests, catalog).granted, e) > 0
    ensures e in catalog && catalog[e].maxStack > 0
  {
    var init := requests[..|requests| - 1];
    if Get0(Simulate(snap, init, catalog).granted, e) > 0 {
      GrantedHasTemplate(snap, init, catalog, e);
    }
  }

  // ---- one request against the player's storage ----

  /** Empty positions an item of family `itemFamily` may use. */
  function FittingEmpty(ps: seq<Position>, itemFamily: bv32): nat {
    if ps == [] then 0
    else FittingEmpty(ps[..|ps| - 1], itemFamily)
         + (if ps[|ps| - 1].content.None? && Fits(itemFamily, ps[|ps| - 1].family) then 1 else 0)
  }

  lemma {:induction false} EligibleUpdate(t: FamilyTable, i: nat, x: FamilySlots, itemFamily: bv32)
    requires i < |t|
    ensures Eligible(t[i := x], itemFamily) + (if Fits(itemFamily, t[i].mask) then t[i].free else 0)
         == Eligible(t, itemFamily) + (if Fits(itemFamily, x.mask) then x.free else 0)
  {
    if i > 0 {
      assert t[i := x][1..] == t[1..][i - 1 := x];
      EligibleUpdate(t[1..], i - 1, x, itemFamily);
    }
  }

  lemma {:induction false} EligibleAppend(t: FamilyTable, x: FamilySlots, itemFamily: bv32)
    ensures Eligible(t + [x], itemFamily) == Eligible(t, itemFamily) + (if Fits(itemFamily, x.mask) then x.free else 0)
  {
    if t != [] {
      assert (t + [x])[1..] == t[1..] + [x];
      EligibleAppend(t[1..], x, itemFamily);
    }
  }

  /** The scan's table offers an item exactly the empty positions its family fits. */
  lemma {:induction false} SnapshotEligible(ps: seq<Position>, catalog: ItemCatalog, itemFamily: bv32)
    ensures Eligible(SnapshotOf(ps, catalog).empty, itemFamily) == FittingEmpty(ps, itemFamily)
  {
    if ps != [] {
      var init := ps[..|ps| - 1];
      var p := ps[|ps| - 1];
      SnapshotEligible(init, catalog, itemFamily);
      if p.content.None? {
        BumpEligible(SnapshotOf(init, catalog).empty, p.family, itemFamily);
      }
    }
  }

  lemma BumpEligible(t: FamilyTable, mask: bv32, itemFamily: bv32)
    ensures Eligible(Bump(t, mask), itemFamily) == Eligible(t, itemFamily) + (if Fits(itemFamily, mask) then 1 else 0)
  {
    match Find(t, mask)
    case Some(i) => EligibleUpdate(t, i, FamilySlots(mask, t[i].free + 1), itemFamily);
    case None => EligibleAppend(t, FamilySlots(mask, 1), itemFamily);
  }

  /**
   * A request on its own is granted `min(requested, free space on its partial stacks + maxStack *
   * empty positions its family fits)`, and nothing without a template or with a zero stack size.
   */
  lemma SingleRequestGrant(storage: seq<Position>, catalog: ItemCatalog, req: Request)
    ensures Get0(Granted(storage, [req], catalog), req.entry) ==
      if req.entry !in catalog || catalog[req.entry].maxStack == 0 then 0
      else Min(req.amount, PartialFree(storage, catalog, req.entry)
                           + catalog[req.entry].maxStack * FittingEmpty(storage, catalog[req.entry].bagFamily))
  {
    var snap := SnapshotOf(storage, catalog);
    SnapshotDistinct(storage, catalog);
    SimulateSingle(snap, req, catalog);
    StepClosedForm(SimState(snap, map[]), catalog, req);
    SnapshotPartials(storage, catalog, req.entry);
    if req.entry in catalog {
      SnapshotEligible(storage, catalog, catalog[req.entry].bagFamily);
    }
  }

  // ---- worked scenarios ----

  lemma SimulateSingle(snap: Snapshot, req: Request, catalog: ItemCatalog)
    ensures Simulate(snap, [req], catalog) == Step(SimState(snap, map[]), catalog, req)
  {
    assert [req][..0] == [];
  }

  lemma SimulatePair(snap: Snapshot, first: Request, second: Request, catalog: ItemCatalog)
    ensures Simulate(snap, [first, second], catalog)
         == Step(Step(SimState(snap, map[]), catalog, first), catalog, second)
  {
    var requests := [first, second];
    assert requests[..1] == [first];
    assert Simulate(snap, requests, catalog) == Step(Simulate(snap, [first], catalog), catalog, second);
    SimulateSingle(snap, first, catalog);
  }

  /** An item of stack size 20 without a bag family. */
  predicate PlainReagent(catalog: ItemCatalog, e: nat) {
    e in catalog && catalog[e].maxStack == 20 && catalog[e].bagFamily == 0
  }

  /** One free generic slot: a request for `n` (up to a stack) takes it. */
  lemma GenericSlotTaken(n: nat)
    requires 0 < n <= 20
    ensures FillEmpty([FamilySlots(0, 1)], 0, 20, n) == (n, [FamilySlots(0, 0)])
  {
    assert SpecialtyIn([FamilySlots(0, 1)], 0) == None by {
      assert [FamilySlots(0, 1)][1..] == [];
    }
    assert Find([FamilySlots(0, 1)], 0) == Some(0);
    assert Take([FamilySlots(0, 1)], 0) == [FamilySlots(0, 0)];
  }

  /** The generic slot is used up: nothing more is placed. */
  lemma GenericSlotGone(n: nat)
    ensures FillEmpty([FamilySlots(0, 0)], 0, 20, n) == (0, [FamilySlots(0, 0)])
  {
    assert SpecialtyIn([FamilySlots(0, 0)], 0) == None by {
      assert [FamilySlots(0, 0)][1..] == [];
    }
    assert Find([FamilySlots(0, 0)], 0) == Some(0);
  }

  /** A request for a plain reagent with no partial stack. */
  lemma PlainStepNew(st: SimState, catalog: ItemCatalog, req: Request, created: nat, after: FamilyTable)
    requires PlainReagent(catalog, req.entry) && req.entry !in st.snap.partial
    requires FillEmpty(st.snap.empty, 0, 20, req.amount) == (created, after)
    ensures Step(st, catalog, req)
         == SimState(Snapshot(st.snap.partial[req.entry := []], after), Grant(st.granted, req.entry, created))
  {
    StepUnfold(st, catalog, req);
    assert FillStacks([], req.amount) == ([], 0);
  }

  lemma OneGenericSlotSnapshot(catalog: ItemCatalog)
    ensures SnapshotOf([Position(0, None)], catalog) == Snapshot(map[], [FamilySlots(0, 1)])
  {
    assert [Position(0, None)][..0] == [];
  }

  lemma FirstTakesSlot(catalog: ItemCatalog, a: nat)
    requires PlainReagent(catalog, a)
    ensures Step(SimState(Snapshot(map[], [FamilySlots(0, 1)]), map[]), catalog, Request(a, 1))
         == SimState(Snapshot(map[a := []], [FamilySlots(0, 0)]), map[a := 1])
  {
    GenericSlotTaken(1);
    PlainStepNew(SimState(Snapshot(map[], [FamilySlots(0, 1)]), map[]), catalog, Request(a, 1), 1, [FamilySlots(0, 0)]);
  }

  lemma SecondGetsNothing(catalog: ItemCatalog, a: nat, b: nat)
    requires PlainReagent(catalog, b) && a != b
    ensures Step(SimState(Snapshot(map[a := []], [FamilySlots(0, 0)]), map[a := 1]), catalog, Request(b, 1)).granted
         == map[a := 1]
  {
    GenericSlotGone(1);
    PlainStepNew(SimState(Snapshot(map[a := []], [FamilySlots(0, 0)]), map[a := 1]), catalog, Request(b, 1), 0, [FamilySlots(0, 0)]);
  }

  /**
   * The grants depend on the order of the requests: with one free slot, of two requests for one
   * plain reagent each, the first gets the slot and the second nothing.
   */
  lemma FirstRequestTakesLastSlot(catalog: ItemCatalog, a: nat, b: nat)
    requires PlainReagent(catalog, a) && PlainReagent(catalog, b) && a != b
    ensures Granted([Position(0, None)], [Request(a, 1), Request(b, 1)], catalog) == map[a := 1]
  {
    OneGenericSlotSnapshot(catalog);
    SimulatePair(Snapshot(map[], [FamilySlots(0, 1)]), Request(a, 1), Request(b, 1), catalog);
    FirstTakesSlot(catalog, a);
    SecondGetsNothing(catalog, a, b);
  }

  /** Hence the same two requests in the other order grant a different item. */
  lemma RequestOrderMatters(catalog: ItemCatalog, a: nat, b: nat)
    requires PlainReagent(catalog, a) && PlainReagent(catalog, b) && a != b
    ensures Granted([Position(0, None)], [Request(a, 1), Request(b, 1)], catalog)
         != Granted([Position(0, None)], [Request(b, 1), Request(a, 1)], catalog)
  {
    FirstRequestTakesLastSlot(catalog, a, b);
    FirstRequestTakesLastSlot(catalog, b, a);
    assert a in map[a := 1] && a !in map[b := 1];
  }

  lemma PartialStackSnapshot(catalog: ItemCatalog, e: nat)
    requires PlainReagent(catalog, e)
    ensures SnapshotOf([Position(0, Some(Item(e, 15))), Position(0, None)], catalog)
         == Snapshot(map[e := [5]], [FamilySlots(0, 1)])
  {
    var storage := [Position(0, Some(Item(e, 15))), Position(0, None)];
    assert storage[..1] == [Position(0, Some(Item(e, 15)))] && storage[..1][..0] == [];
    assert Partials(map[], e) + [5] == [5];
    assert SnapshotOf(storage[..1], catalog) == Snapshot(map[e := [5]], []);
  }

  lemma FiveFreeOnStack()
    ensures FillStacks([5], 8) == ([0], 5)
    ensures RemoveExhausted([0]) == []
  {
    assert [5][0 := 0] == [0];
    assert FillAt([0], 1, 3) == ([0], 0);
    assert [0][1..] == [];
  }

  /** A stack of 15 (5 free) and one empty slot: 8 requested are all granted, 5 on the stack and 3 in a new one. */
  lemma PartialStackFirst(catalog: ItemCatalog, e: nat)
    requires PlainReagent(catalog, e)
    ensures Granted([Position(0, Some(Item(e, 15))), Position(0, None)], [Request(e, 8)], catalog) == map[e := 8]
  {
    var snap := Snapshot(map[e := [5]], [FamilySlots(0, 1)]);
    PartialStackSnapshot(catalog, e);
    SimulateSingle(snap, Request(e, 8), catalog);
    StepUnfold(SimState(snap, map[]), catalog, Request(e, 8));
    FiveFreeOnStack();
    GenericSlotTaken(3);
  }

  // ---- the methods ----

  /** The scan of the backpack and the bags. */
  method BuildSnapshot(storage: seq<Position>, catalog: ItemCatalog) returns (snap: Snapshot)
    ensures snap == SnapshotOf(storage, catalog)
  {
    var partial: map<nat, seq<nat>> := map[];
    var empty: FamilyTable := [];
    for i := 0 to |storage|
      invariant Snapshot(partial, empty) == SnapshotOf(storage[..i], catalog)
    {
      assert storage[..i + 1][..i] == storage[..i];
      var p := storage[i];
      if p.content.None? {
        var at := FindFamily(empty, p.family);
        if at.Some? {
          empty := empty[at.value := FamilySlots(p.family, empty[at.value].free + 1)];
        } else {
          empty := empty + [FamilySlots(p.family, 1)];
        }
      } else if p.content.value.entry in catalog {
        var entry := p.content.value.entry;
        var maxStack := catalog[entry].maxStack;
        var count := p.content.value.count;
        if maxStack > 1 && count < maxStack {
          partial := partial[entry := Partials(partial, entry) + [maxStack - count]];
        }
      }
    }
    assert storage[..|storage|] == storage;
    snap := Snapshot(partial, empty);
  }

  /** `find` on the family table. */
  method FindFamily(t: FamilyTable, mask: bv32) returns (at: Option<nat>)
    ensures at == Find(t, mask)
  {
    var i := 0;
    while i < |t|
      invariant 0 <= i <= |t|
      invariant forall j | 0 <= j < i :: t[j].mask != mask
    {
      if t[i].mask == mask {
        FindFirst(t, mask, i);
        return Some(i);
      }
      i := i + 1;
    }
    FindNone(t, mask);
    return None;
  }

  lemma {:induction false} FindFirst(t: FamilyTable, mask: bv32, i: nat)
    requires i < |t| && t[i].mask == mask && forall j | 0 <= j < i :: t[j].mask != mask
    ensures Find(t, mask) == Some(i)
  {
    if i > 0 {
      FindFirst(t[1..], mask, i - 1);
    }
  }

  lemma {:induction false} FindNone(t: FamilyTable, mask: bv32)
    requires forall j | 0 <= j < |t| :: t[j].mask != mask
    ensures Find(t, mask) == None
  {
    if t != [] {
      FindNone(t[1..], mask);
    }
  }

  /** Phase 1 on `partial[entry]`, in place on a copy of the vector. */
  method FillPartialStacks(frees: seq<nat>, remaining0: nat) returns (stacks: seq<nat>, used: nat)
    ensures (stacks, used) == FillStacks(frees, remaining0)
  {
    stacks := frees;
    used := 0;
    var remaining: nat := remaining0;
    var i := 0;
    while i < |stacks|
      invariant |stacks| == |frees|
      invariant FillStacks(frees, remaining0) == (FillAt(stacks, i, remaining).0, used + FillAt(stacks, i, remaining).1)
      decreases |stacks| - i
    {
      if remaining == 0 {
        break;
      }
      var use := Min(stacks[i], remaining);
      stacks := stacks[i := stacks[i] - use];
      remaining := remaining - use;
      used := used + use;
      i := i + 1;
    }
  }

  /** The specialty search over the family table in its iteration order. */
  method FindSpecialty(t: FamilyTable, itemFamily: bv32) returns (found: Option<nat>)
    ensures found == SpecialtyIn(t, itemFamily)
  {
    var i := 0;
    while i < |t|
      invariant 0 <= i <= |t|
      invariant forall j | 0 <= j < i :: !OpenSpecialty(t[j], itemFamily)
    {
      if t[i].mask == 0 || t[i].free == 0 {
        i := i + 1;
        continue;
      }
      if (itemFamily & t[i].mask) == 0 {
        i := i + 1;
        continue;
      }
      SpecialtyFirst(t, itemFamily, i);
      return Some(i);
    }
    SpecialtyNoneIff(t, itemFamily);
    return None;
  }

  lemma {:induction false} SpecialtyFirst(t: FamilyTable, itemFamily: bv32, i: nat)
    requires i < |t| && OpenSpecialty(t[i], itemFamily) && forall j | 0 <= j < i :: !OpenSpecialty(t[j], itemFamily)
    ensures SpecialtyIn(t, itemFamily) == Some(i)
  {
    if i > 0 {
      SpecialtyFirst(t[1..], itemFamily, i - 1);
    }
  }

  /** One round of the placing loop, unfolded. */
  lemma FillEmptyUnfold(t: FamilyTable, itemFamily: bv32, maxStack: nat, remaining: nat, i: nat)
    requires maxStack > 0 && remaining > 0 && PickSlot(t, itemFamily) == Some(i)
    ensures FillEmpty(t, itemFamily, maxStack, remaining).0
         == Min(maxStack, remaining) + FillEmpty(Take(t, i), itemFamily, maxStack, remaining - Min(maxStack, remaining)).0
    ensures FillEmpty(t, itemFamily, maxStack, remaining).1
         == FillEmpty(Take(t, i), itemFamily, maxStack, remaining - Min(maxStack, remaining)).1
  {
  }

  /** Phase 2: the `while (remaining > 0)` placing loop. */
  method FillEmptySlots(t0: FamilyTable, itemFamily: bv32, maxStack: nat, remaining0: nat)
    returns (created: nat, t: FamilyTable)
    requires maxStack > 0
    ensures (created, t) == FillEmpty(t0, itemFamily, maxStack, remaining0)
  {
    created := 0;
    t := t0;
    var remaining: nat := remaining0;
    while remaining > 0
      invariant FillEmpty(t0, itemFamily, maxStack, remaining0).0 == created + FillEmpty(t, itemFamily, maxStack, remaining).0
      invariant FillEmpty(t0, itemFamily, maxStack, remaining0).1 == FillEmpty(t, itemFamily, maxStack, remaining).1
      decreases remaining
    {
      // A specialty slot first; otherwise the generic family, or stop.
      var slot := FindSpecialty(t, itemFamily);
      if slot.None? {
        var generic := FindFamily(t, 0);
        if generic.None? || t[generic.value].free == 0 {
          break;
        }
        slot := generic;
      }
      assert slot == PickSlot(t, itemFamily);
      FillEmptyUnfold(t, itemFamily, maxStack, remaining, slot.value);
      var create := Min(maxStack, remaining);
      remaining := remaining - create;
      created := created + create;
      t := Take(t, slot.value);
    }
  }

  lemma StepUnfold(st: SimState, catalog: ItemCatalog, req: Request)
    requires req.entry in catalog && catalog[req.entry].maxStack != 0
    ensures Step(st, catalog, req)
         == var filled := FillStacks(Partials(st.snap.partial, req.entry), req.amount);
            var placed := FillEmpty(st.snap.empty, catalog[req.entry].bagFamily, catalog[req.entry].maxStack, req.amount - filled.1);
            SimState(Snapshot(st.snap.partial[req.entry := RemoveExhausted(filled.0)], placed.1),
                     Grant(st.granted, req.entry, filled.1 + placed.0))
  {
  }

  /** One step, from the results of its two phases. */
  lemma StepFrom(st: SimState, catalog: ItemCatalog, req: Request, stacks: seq<nat>, used: nat, created: nat, empty: FamilyTable)
    requires req.entry in catalog && catalog[req.entry].maxStack != 0
    requires (stacks, used) == FillStacks(Partials(st.snap.partial, req.entry), req.amount)
    requires (created, empty) == FillEmpty(st.snap.empty, catalog[req.entry].bagFamily, catalog[req.entry].maxStack, req.amount - used)
    ensures Step(st, catalog, req)
         == SimState(Snapshot(st.snap.partial[req.entry := RemoveExhausted(stacks)], empty), Grant(st.granted, req.entry, used + created))
  {
  }

  /** The body of the loop over the requests. */
  method ProcessRequest(snap: Snapshot, granted: map<nat, nat>, catalog: ItemCatalog, req: Request)
    returns (snap': Snapshot, granted': map<nat, nat>)
    ensures SimState(snap', granted') == Step(SimState(snap, granted), catalog, req)
  {
    snap', granted' := snap, granted;
    if req.entry !in catalog {
      return;
    }
    var maxStack := catalog[req.entry].maxStack;
    if maxStack == 0 {
      return;
    }
    var stacks, used := FillPartialStacks(Partials(snap.partial, req.entry), req.amount);
    var partial := snap.partial[req.entry := RemoveExhausted(stacks)];
    var created, empty := FillEmptySlots(snap.empty, catalog[req.entry].bagFamily, maxStack, req.amount - used);
    granted' := Grant(granted, req.entry, used + created);
    snap' := Snapshot(partial, empty);
    StepFrom(SimState(snap, granted), catalog, req, stacks, used, created, empty);
  }

  /** `SimulateBatchAdd`: the grant per entry for the requests, in order, against `storage`. */
  method SimulateBatchAdd(storage: seq<Position>, items: seq<Request>, catalog: ItemCatalog)
    returns (granted: map<nat, nat>)
    ensures granted == Granted(storage, items, catalog)
  {
    var snap := BuildSnapshot(storage, catalog);
    ghost var snap0 := snap;
    granted := map[];
    for i := 0 to |items|
      invariant SimState(snap, granted) == Simulate(snap0, items[..i], catalog)
    {
      assert items[..i + 1][..i] == items[..i];
      snap, granted := ProcessRequest(snap, granted, catalog, items[i]);
    }
    assert items[..|items|] == items;
  }
}
