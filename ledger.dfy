/**
 * The balance table `mod_reagent_bank_account` as an in-memory map
 * (account_id, guid, item_entry) -> (item_subclass, amount), and the pure map
 * arithmetic the deposit and withdraw flows perform on it.
 */
module Ledger {
  import opened Wrappers
  import opened Numeric

  /** The owner of one pool: `guid` is 0 for an account-wide pool. */
  datatype StorageKey = StorageKey(accountId: nat, guid: nat)

  datatype RowKey = RowKey(accountId: nat, guid: nat, entry: nat)

  datatype Row = Row(subclass: nat, amount: nat)

  type Table = map<RowKey, Row>

  datatype Summary = Summary(distinctItems: nat, totalAmount: nat)

  function KeyOf(scope: StorageKey, entry: nat): RowKey {
    RowKey(scope.accountId, scope.guid, entry)
  }

  /** The row belongs to the pool `scope`. */
  predicate InPool(k: RowKey, scope: StorageKey) {
    k.accountId == scope.accountId && k.guid == scope.guid
  }

  /** The balance a row holds, 0 when there is no row. */
  function Balance(t: Table, key: RowKey): nat {
    if key in t then t[key].amount else 0
  }

  /** The row at `key`, if any. */
  function RowAt(t: Table, key: RowKey): Option<Row> {
    if key in t then Some(t[key]) else None
  }

  /**
   * `GetStorageKeys`: the character's GUID is dropped in account-wide mode; otherwise
   * its raw 64-bit value is stored into a `uint32`, which keeps the low 32 bits.
   */
  function GetStorageKeys(accountId: nat, rawGuid: nat, accountWide: bool): (k: StorageKey)
    ensures k.accountId == accountId
    ensures IsU32(k.guid)
    ensures accountWide ==> k.guid == 0
    ensures !accountWide && IsU32(rawGuid) ==> k.guid == rawGuid
  {
    StorageKey(accountId, if accountWide then 0 else Wrap32(rawGuid))
  }

  /** In account-wide mode every character of an account shares one pool. */
  lemma AccountWidePoolShared(accountId: nat, guid1: nat, guid2: nat)
    ensures GetStorageKeys(accountId, guid1, true) == GetStorageKeys(accountId, guid2, true)
  {
  }

  /** In per-character mode, two characters get the same pool only when their GUIDs agree modulo 2^32. */
  lemma PerCharacterPoolsDistinct(accountId: nat, guid1: nat, guid2: nat)
    ensures GetStorageKeys(accountId, guid1, false) == GetStorageKeys(accountId, guid2, false)
        <==> guid1 % U32_LIMIT == guid2 % U32_LIMIT
  {
  }

  // ---- single-row statements ----

  /** `INSERT ... ON DUPLICATE KEY UPDATE item_subclass=..., amount=...`. */
  function Upsert(t: Table, key: RowKey, subclass: nat, amount: nat): (r: Table)
    ensures r.Keys == t.Keys + {key}
    ensures r[key] == Row(subclass, amount)
    ensures forall k | k in t && k != key :: r[k] == t[k]
  {
    t[key := Row(subclass, amount)]
  }

  /** `DELETE ... WHERE account_id, guid, item_entry`. */
  function Delete(t: Table, key: RowKey): (r: Table)
    ensures r.Keys == t.Keys - {key}
    ensures forall k | k in r :: r[k] == t[k]
  {
    t - {key}
  }

  /** `UPDATE ... SET amount = ... WHERE ...`: touches the row only if it exists. */
  function SetAmount(t: Table, key: RowKey, amount: nat): (r: Table)
    ensures r.Keys == t.Keys
    ensures key in t ==> r[key] == Row(t[key].subclass, amount)
    ensures forall k | k in t && k != key :: r[k] == t[k]
  {
    if key in t then t[key := t[key].(amount := amount)] else t
  }

  // ---- reads ----

  function ScopeEntries(t: Table, scope: StorageKey): (s: set<nat>)
    ensures forall e :: e in s <==> KeyOf(scope, e) in t
  {
    set k | k in t && k.accountId == scope.accountId && k.guid == scope.guid :: k.entry
  }

  /** `SELECT item_entry, item_subclass, amount ... WHERE account_id AND guid`. */
  function ScopeRows(t: Table, scope: StorageKey): (m: map<nat, Row>)
    ensures forall e :: e in m <==> KeyOf(scope, e) in t
    ensures forall e | e in m :: m[e] == t[KeyOf(scope, e)]
  {
    map e | e in ScopeEntries(t, scope) :: t[KeyOf(scope, e)]
  }

  /** `SELECT item_entry, amount ... WHERE account_id AND guid AND item_subclass`. */
  function CategoryAmounts(t: Table, scope: StorageKey, subclass: nat): (m: map<nat, nat>)
    ensures forall e :: e in m <==> KeyOf(scope, e) in t && t[KeyOf(scope, e)].subclass == subclass
    ensures forall e | e in m :: m[e] == t[KeyOf(scope, e)].amount
  {
    map e | e in ScopeEntries(t, scope) && t[KeyOf(scope, e)].subclass == subclass :: t[KeyOf(scope, e)].amount
  }

  lemma MinExists(s: set<nat>)
    requires s != {}
    ensures exists m :: m in s && forall x | x in s :: m <= x
  {
    var x :| x in s;
    var smaller := set y | y in s && y < x;
    if smaller == {} {
      assert forall y | y in s :: x <= y by {
        forall y | y in s ensures x <= y {
          assert y < x ==> y in smaller;
        }
      }
    } else {
      assert x !in smaller;
      MinExists(smaller);
      var m :| m in smaller && forall y | y in smaller :: m <= y;
      assert forall y | y in s :: m <= y by {
        forall y | y in s ensures m <= y {
          assert y < x ==> y in smaller;
        }
      }
    }
  }

  function MinKey(s: set<nat>): (m: nat)
    requires s != {}
    ensures m in s && forall x | x in s :: m <= x
  {
    MinExists(s);
    var m :| m in s && forall x | x in s :: m <= x;
    m
  }

  /** The keys of a `std::map` in iteration order (ascending). */
  function AscendingKeys(s: set<nat>): (r: seq<nat>)
    ensures |r| == |s|
    ensures forall x :: x in r <==> x in s
    ensures forall i, j | 0 <= i < j < |r| :: r[i] < r[j]
    decreases s
  {
    if s == {} then []
    else
      var m := MinKey(s);
      var rest := AscendingKeys(s - {m});
      assert forall j | 0 <= j < |rest| :: m < rest[j] by {
        forall j | 0 <= j < |rest| ensures m < rest[j] {
          assert rest[j] in s - {m};
        }
      }
      [m] + rest
  }

  /** Sum of the values of a map, keys taken in ascending order (SQL `COALESCE(SUM(amount), 0)`). */
  function SumAmounts(m: map<nat, nat>): nat
    decreases |m|
  {
    if m == map[] then 0
    else
      var k := MinKey(m.Keys);
      m[k] + SumAmounts(m - {k})
  }

  /** `SELECT COUNT(*), COALESCE(SUM(amount),0)` over one category of one pool. */
  function ComputeSummary(t: Table, scope: StorageKey, subclass: nat): (s: Summary)
    ensures s.distinctItems == |CategoryAmounts(t, scope, subclass)|
    ensures s.totalAmount == SumAmounts(CategoryAmounts(t, scope, subclass))
  {
    var m := CategoryAmounts(t, scope, subclass);
    Summary(|m|, SumAmounts(m))
  }

  /** The sum does not depend on the order of the keys: any key can be taken out first. */
  lemma {:induction false} SumAmountsRemove(m: map<nat, nat>, k: nat)
    requires k in m
    ensures SumAmounts(m) == m[k] + SumAmounts(m - {k})
    decreases |m|
  {
    var j := MinKey(m.Keys);
    if j != k {
      assert (m - {j}) - {k} == (m - {k}) - {j};
      SumAmountsRemove(m - {j}, k);
      SumAmountsRemove(m - {k}, j);
    }
  }

  /** Replacing one value changes the sum by the difference of the two values. */
  lemma SumAmountsUpdate(m: map<nat, nat>, k: nat, v: nat)
    requires k in m
    ensures SumAmounts(m[k := v]) + m[k] == SumAmounts(m) + v
  {
    assert m[k := v] - {k} == m - {k};
    SumAmountsRemove(m[k := v], k);
    SumAmountsRemove(m, k);
  }

  /** `UPDATE ... SET amount` on a row moves its category's total by the change and keeps its count. */
  lemma SummaryAfterSetAmount(t: Table, scope: StorageKey, entry: nat, v: nat)
    requires KeyOf(scope, entry) in t
    ensures var c := t[KeyOf(scope, entry)].subclass;
      var after := ComputeSummary(SetAmount(t, KeyOf(scope, entry), v), scope, c);
      && after.totalAmount + t[KeyOf(scope, entry)].amount == ComputeSummary(t, scope, c).totalAmount + v
      && after.distinctItems == ComputeSummary(t, scope, c).distinctItems
  {
    var key := KeyOf(scope, entry);
    var c := t[key].subclass;
    var before := CategoryAmounts(t, scope, c);
    assert CategoryAmounts(SetAmount(t, key, v), scope, c) == before[entry := v];
    SumAmountsUpdate(before, entry, v);
  }

  /** `DELETE` of a row takes its amount and one distinct item off its category's summary. */
  lemma SummaryAfterDelete(t: Table, scope: StorageKey, entry: nat)
    requires KeyOf(scope, entry) in t
    ensures var c := t[KeyOf(scope, entry)].subclass;
      var after := ComputeSummary(Delete(t, KeyOf(scope, entry)), scope, c);
      && after.totalAmount + t[KeyOf(scope, entry)].amount == ComputeSummary(t, scope, c).totalAmount
      && after.distinctItems + 1 == ComputeSummary(t, scope, c).distinctItems
  {
    var key := KeyOf(scope, entry);
    var c := t[key].subclass;
    var before := CategoryAmounts(t, scope, c);
    assert CategoryAmounts(Delete(t, key), scope, c) == before - {entry};
    SumAmountsRemove(before, entry);
  }

  // ---- deposit merge ----

  /**
   * `finalAmounts = existingAmounts`, then `finalAmounts[e] = existingAmounts[e] + count` for
   * each deposited entry in `order`; the `uint32` sum wraps.
   */
  function MergeDeposit(existing: map<nat, nat>, added: map<nat, nat>, order: seq<nat>): map<nat, nat> {
    if order == [] then existing
    else
      var e := order[|order| - 1];
      MergeDeposit(existing, added, order[..|order| - 1])[e := Wrap32(Get0(existing, e) + Get0(added, e))]
  }

  /** Each merged entry holds its stored amount plus its deposit; every other entry keeps its stored amount. */
  lemma {:induction false} MergeDepositAt(existing: map<nat, nat>, added: map<nat, nat>, order: seq<nat>, e: nat)
    ensures e in MergeDeposit(existing, added, order) <==> e in existing || e in order
    ensures Get0(MergeDeposit(existing, added, order), e)
         == if e in order then Wrap32(Get0(existing, e) + Get0(added, e)) else Get0(existing, e)
  {
    if order != [] {
      var init := order[..|order| - 1];
      MergeDepositAt(existing, added, init, e);
      assert order == init + [order[|order| - 1]];
    }
  }

  /** Without overflow, the merged balance exceeds the stored one by exactly the deposited amount. */
  lemma MergeDepositAddsExactly(existing: map<nat, nat>, added: map<nat, nat>, order: seq<nat>, e: nat)
    requires e in order
    requires Get0(existing, e) + Get0(added, e) < U32_LIMIT
    ensures Get0(MergeDeposit(existing, added, order), e) - Get0(existing, e) == Get0(added, e)
  {
    MergeDepositAt(existing, added, order, e);
  }

  /** Only an overflow can make the merged balance smaller than the stored one. */
  lemma MergeDepositWrapLoses(existing: map<nat, nat>, added: map<nat, nat>, order: seq<nat>, e: nat)
    requires e in order && IsU32(Get0(added, e)) && IsU32(Get0(existing, e))
    ensures Get0(MergeDeposit(existing, added, order), e) < Get0(existing, e)
        <==> Get0(existing, e) + Get0(added, e) >= U32_LIMIT
  {
    MergeDepositAt(existing, added, order, e);
  }

  /** `mergedSubclass = subclassByEntry`, then `mergedSubclass[e] = seen[e]` for each entry in `order`. */
  function MergeSubclass(stored: map<nat, nat>, seen: map<nat, nat>, order: seq<nat>): map<nat, nat> {
    if order == [] then stored
    else
      var e := order[|order| - 1];
      MergeSubclass(stored, seen, order[..|order| - 1])[e := Get0(seen, e)]
  }

  /** Freshly seen metadata wins; the stored subclass survives only for entries not in `order`. */
  lemma {:induction false} MergeSubclassAt(stored: map<nat, nat>, seen: map<nat, nat>, order: seq<nat>, e: nat)
    ensures e in MergeSubclass(stored, seen, order) <==> e in stored || e in order
    ensures Get0(MergeSubclass(stored, seen, order), e) == if e in order then Get0(seen, e) else Get0(stored, e)
  {
    if order != [] {
      var init := order[..|order| - 1];
      MergeSubclassAt(stored, seen, init, e);
      assert order == init + [order[|order| - 1]];
    }
  }

  /** The merged amounts as one map: each stored or deposited entry, the deposit added to the stored amount. */
  function Merged(existing: map<nat, nat>, added: map<nat, nat>): map<nat, nat> {
    map e | e in existing.Keys + added.Keys :: if e in added then Wrap32(Get0(existing, e) + added[e]) else existing[e]
  }

  lemma MergedAt(existing: map<nat, nat>, added: map<nat, nat>, e: nat)
    ensures e in Merged(existing, added) <==> e in existing || e in added
    ensures Get0(Merged(existing, added), e) == if e in added then Wrap32(Get0(existing, e) + added[e]) else Get0(existing, e)
  {
  }

  /** Merging the deposits one by one, in any order that lists each of them, gives the merged amounts. */
  lemma MergeDepositIsMerged(existing: map<nat, nat>, added: map<nat, nat>, order: seq<nat>)
    requires forall e :: e in order <==> e in added
    ensures MergeDeposit(existing, added, order) == Merged(existing, added)
  {
    var m := MergeDeposit(existing, added, order);
    forall e ensures (e in m <==> e in Merged(existing, added)) && (e in m ==> m[e] == Merged(existing, added)[e]) {
      MergeDepositAt(existing, added, order, e);
    }
  }

  /** The stored subclasses overridden by the freshly seen ones, as one map. */
  function Overlay(stored: map<nat, nat>, seen: map<nat, nat>): map<nat, nat> {
    map e | e in stored.Keys + seen.Keys :: if e in seen then seen[e] else stored[e]
  }

  lemma OverlayAt(stored: map<nat, nat>, seen: map<nat, nat>, e: nat)
    ensures Get0(Overlay(stored, seen), e) == if e in seen then seen[e] else Get0(stored, e)
  {
  }

  /** Overriding the subclasses one by one, in any order that lists each seen entry, gives the overlay. */
  lemma MergeSubclassIsOverlay(stored: map<nat, nat>, seen: map<nat, nat>, order: seq<nat>)
    requires forall e :: e in order <==> e in seen
    ensures MergeSubclass(stored, seen, order) == Overlay(stored, seen)
  {
    var m := MergeSubclass(stored, seen, order);
    forall e ensures (e in m <==> e in Overlay(stored, seen)) && (e in m ==> m[e] == Overlay(stored, seen)[e]) {
      MergeSubclassAt(stored, seen, order, e);
    }
  }

  /** `subclassMap[e] = item_subclass` for each entry in `order`, starting from an empty map. */
  function UniformSubclass(subclass: nat, order: seq<nat>): map<nat, nat> {
    if order == [] then map[]
    else UniformSubclass(subclass, order[..|order| - 1])[order[|order| - 1] := subclass]
  }

  /** A category deposit stamps its own subclass on every entry it lists, and on no other. */
  lemma {:induction false} UniformSubclassAt(subclass: nat, order: seq<nat>, e: nat)
    ensures e in UniformSubclass(subclass, order) <==> e in order
    ensures Get0(UniformSubclass(subclass, order), e) == if e in order then subclass else 0
  {
    if order != [] {
      var init := order[..|order| - 1];
      UniformSubclassAt(subclass, init, e);
      assert order == init + [order[|order| - 1]];
    }
  }

  /** Every entry of `entries` stamped with one subclass. */
  function Stamp(subclass: nat, entries: set<nat>): map<nat, nat> {
    map e | e in entries :: subclass
  }

  lemma StampAt(subclass: nat, entries: set<nat>, e: nat)
    ensures Get0(Stamp(subclass, entries), e) == if e in entries then subclass else 0
  {
  }

  /** Stamping the entries one by one, in any order that lists each of them, gives the uniform map. */
  lemma UniformSubclassIsStamp(subclass: nat, order: seq<nat>, entries: set<nat>)
    requires forall e :: e in order <==> e in entries
    ensures UniformSubclass(subclass, order) == Stamp(subclass, entries)
  {
    var m := UniformSubclass(subclass, order);
    forall e ensures (e in m <==> e in entries) && (e in m ==> m[e] == subclass) {
      UniformSubclassAt(subclass, order, e);
    }
  }

  /** The upserts of `FlushReagentState` for the entries of `order`, one after the other. */
  function UpsertAll(t: Table, scope: StorageKey, order: seq<nat>, final: map<nat, nat>, subclassByEntry: map<nat, nat>): Table {
    if order == [] then t
    else
      var e := order[|order| - 1];
      Upsert(UpsertAll(t, scope, order[..|order| - 1], final, subclassByEntry), KeyOf(scope, e), Get0(subclassByEntry, e), Get0(final, e))
  }

  /** After the upserts, each listed entry of the pool holds its final row; every other row is as before. */
  lemma {:induction false} UpsertAllAt(t: Table, scope: StorageKey, order: seq<nat>, final: map<nat, nat>,
                                       subclassByEntry: map<nat, nat>, k: RowKey)
    ensures RowAt(UpsertAll(t, scope, order, final, subclassByEntry), k)
         == if InPool(k, scope) && k.entry in order
            then Some(Row(Get0(subclassByEntry, k.entry), Get0(final, k.entry)))
            else RowAt(t, k)
  {
    if order != [] {
      var init := order[..|order| - 1];
      var e := order[|order| - 1];
      UpsertAllAt(t, scope, init, final, subclassByEntry, k);
      assert order == init + [e];
      assert k == KeyOf(scope, e) <==> InPool(k, scope) && k.entry == e;
    }
  }

  /** The row keys of the pool `scope` for the given entries. */
  function PoolKeys(scope: StorageKey, entries: set<nat>): (s: set<RowKey>)
    ensures forall k :: k in s <==> InPool(k, scope) && k.entry in entries
  {
    set e | e in entries :: KeyOf(scope, e)
  }

  /**
   * `FlushReagentState`: each final entry of the pool holds its final amount under the subclass
   * `subclassByEntry` gives it (0 when it has none); every other row is kept; an empty batch
   * writes nothing.
   */
  function FlushReagentState(t: Table, scope: StorageKey, final: map<nat, nat>, subclassByEntry: map<nat, nat>): Table {
    if final == map[] then t
    else
      map k | k in t.Keys + PoolKeys(scope, final.Keys)
        :: if InPool(k, scope) && k.entry in final then Row(Get0(subclassByEntry, k.entry), final[k.entry]) else t[k]
  }

  /** After a flush, each final entry of the pool holds its final amount; every other row is as before. */
  lemma FlushRowAt(t: Table, scope: StorageKey, final: map<nat, nat>, subclassByEntry: map<nat, nat>, k: RowKey)
    ensures RowAt(FlushReagentState(t, scope, final, subclassByEntry), k)
         == if InPool(k, scope) && k.entry in final
            then Some(Row(Get0(subclassByEntry, k.entry), final[k.entry]))
            else RowAt(t, k)
  {
  }

  /** Two tables with the same row at every key are the same table. */
  lemma RowAtExtensional(a: Table, b: Table)
    requires forall k :: RowAt(a, k) == RowAt(b, k)
    ensures a == b
  {
    forall k ensures (k in a <==> k in b) && (k in a ==> a[k] == b[k]) {
      assert RowAt(a, k) == RowAt(b, k);
    }
  }

  /** Upserting the final entries one by one, in any order that lists each of them, is the flush. */
  lemma UpsertsAreFlush(t: Table, scope: StorageKey, order: seq<nat>, final: map<nat, nat>, subclassByEntry: map<nat, nat>)
    requires forall e :: e in order <==> e in final
    ensures UpsertAll(t, scope, order, final, subclassByEntry) == FlushReagentState(t, scope, final, subclassByEntry)
  {
    forall k ensures RowAt(UpsertAll(t, scope, order, final, subclassByEntry), k) == RowAt(FlushReagentState(t, scope, final, subclassByEntry), k) {
      UpsertAllAt(t, scope, order, final, subclassByEntry, k);
      FlushRowAt(t, scope, final, subclassByEntry, k);
    }
    RowAtExtensional(UpsertAll(t, scope, order, final, subclassByEntry), FlushReagentState(t, scope, final, subclassByEntry));
  }
}
