/**
 * The reagent banker script: the balance table, the audit log, the category-summary cache and
 * the time of the last audit sweep, with the flows that change them.
 *
 * Each flow runs to completion on the state it reads (the model is sequential); the player's
 * storage, the item catalogue, the store-check oracle and the clock are parameters.
 */
module Bank {
  import opened Wrappers
  import opened Numeric
  import opened Catalog
  import opened Ledger
  import opened Inventory
  import opened Simulator
  import opened Audit
  import opened Settlement

  /** Default `ReagentBankAccount.AuditRetentionSeconds`: seven days. */
  const DEFAULT_AUDIT_RETENTION_SECONDS: nat := 7 * 86400

  /** Default `ReagentBankAccount.AuditCleanupIntervalSeconds`: one hour. */
  const DEFAULT_AUDIT_CLEANUP_INTERVAL_SECONDS: nat := 3600

  // ======== the summary cache ========

  type SummaryCache = map<nat, Summary>

  /** `InvalidateCategorySummary`: subclass 0 clears every entry, any other value erases only its own. */
  function Invalidate(cache: SummaryCache, subclass: nat): (r: SummaryCache)
    ensures subclass == 0 ==> r == map[]
    ensures subclass != 0 ==> r.Keys == cache.Keys - {subclass} && forall c | c in r :: r[c] == cache[c]
  {
    if subclass == 0 then map[] else cache - {subclass}
  }

  /** Invalidations one after the other, in the given order. */
  function InvalidateEach(cache: SummaryCache, subclasses: seq<nat>): SummaryCache {
    if subclasses == [] then cache
    else Invalidate(InvalidateEach(cache, subclasses[..|subclasses| - 1]), subclasses[|subclasses| - 1])
  }

  /** Invalidating several categories drops exactly those, or everything when 0 is among them. */
  lemma {:induction false} InvalidateEachResult(cache: SummaryCache, subclasses: seq<nat>)
    ensures InvalidateEach(cache, subclasses)
         == if 0 in subclasses then map[] else cache - (set c | c in subclasses)
  {
    if subclasses != [] {
      var init := subclasses[..|subclasses| - 1];
      InvalidateEachResult(cache, init);
      assert forall c :: c in subclasses <==> c in init || c == subclasses[|subclasses| - 1];
    }
  }

  // ======== the deposit flows ========

  /** The batch shape every sweep produces: each counted entry has a subclass and no other does. */
  predicate BatchShaped(acc: Accumulated) {
    acc.addedCounts.Keys == acc.subclassByEntry.Keys
  }

  /** `existingAmounts`: the stored amount of each entry of the pool. */
  function AmountsOf(stored: map<nat, Row>): (m: map<nat, nat>)
    ensures m.Keys == stored.Keys && forall e | e in m :: m[e] == stored[e].amount
  {
    map e | e in stored :: stored[e].amount
  }

  /** The stored subclass of each entry of the pool. */
  function SubclassesOf(stored: map<nat, Row>): (m: map<nat, nat>)
    ensures m.Keys == stored.Keys && forall e | e in m :: m[e] == stored[e].subclass
  {
    map e | e in stored :: stored[e].subclass
  }

  /** What the full deposit reads for the pool: each row's balance, and its whole row when it has one. */
  lemma StoredRows(rows: Table, scope: StorageKey)
    ensures forall k | InPool(k, scope) :: Get0(AmountsOf(ScopeRows(rows, scope)), k.entry) == Balance(rows, k)
    ensures forall k | InPool(k, scope) && k.entry in AmountsOf(ScopeRows(rows, scope)) ::
      RowAt(rows, k) == Some(Row(Get0(SubclassesOf(ScopeRows(rows, scope)), k.entry), Get0(AmountsOf(ScopeRows(rows, scope)), k.entry)))
  {
    forall k | InPool(k, scope) ensures k == KeyOf(scope, k.entry) {
    }
  }

  /** What the category deposit reads for the pool: rows of the category, with their amounts. */
  lemma CategoryRows(rows: Table, scope: StorageKey, subclass: nat)
    ensures forall k | InPool(k, scope) :: Get0(CategoryAmounts(rows, scope, subclass), k.entry) == CategoryBalance(rows, k, subclass)
    ensures forall k | InPool(k, scope) && k.entry in CategoryAmounts(rows, scope, subclass) ::
      RowAt(rows, k) == Some(Row(subclass, Get0(CategoryAmounts(rows, scope, subclass), k.entry)))
  {
    forall k | InPool(k, scope) ensures k == KeyOf(scope, k.entry) {
    }
  }

  /**
   * What `DepositAllReagents` does to the balance table: each deposited entry's row of the pool
   * becomes its old balance plus the batch count (wrapping at 2^32) under the freshly seen
   * subclass; every other row is kept.
   */
  function DepositAll(rows: Table, scope: StorageKey, acc: Accumulated): Table {
    if acc.addedCounts == map[] then rows
    else
      map k | k in rows.Keys + PoolKeys(scope, acc.addedCounts.Keys)
        :: if InPool(k, scope) && k.entry in acc.addedCounts
           then Row(Get0(acc.subclassByEntry, k.entry), Wrap32(Balance(rows, k) + acc.addedCounts[k.entry]))
           else rows[k]
  }

  /** The amount stored at `key` under `subclass`; 0 when there is no row or it is of another category. */
  function CategoryBalance(t: Table, key: RowKey, subclass: nat): nat {
    if key in t && t[key].subclass == subclass then t[key].amount else 0
  }

  /**
   * What `DepositAllReagentsForCategory` does to the balance table: each deposited entry's row
   * becomes its balance in that category plus the batch count, stamped with the category (an
   * entry stored under another category restarts from 0); every other row is kept.
   */
  function DepositCategory(rows: Table, scope: StorageKey, subclass: nat, acc: Accumulated): Table {
    if acc.addedCounts == map[] then rows
    else
      map k | k in rows.Keys + PoolKeys(scope, acc.addedCounts.Keys)
        :: if InPool(k, scope) && k.entry in acc.addedCounts
           then Row(subclass, Wrap32(CategoryBalance(rows, k, subclass) + acc.addedCounts[k.entry]))
           else rows[k]
  }

  /** The row a full deposit leaves at one key. */
  lemma DepositAllAt(rows: Table, scope: StorageKey, acc: Accumulated, k: RowKey)
    ensures RowAt(DepositAll(rows, scope, acc), k)
         == if InPool(k, scope) && k.entry in acc.addedCounts
            then Some(Row(Get0(acc.subclassByEntry, k.entry), Wrap32(Balance(rows, k) + acc.addedCounts[k.entry])))
            else RowAt(rows, k)
  {
  }

  /** A full deposit stores wrapped sums, so every amount still fits its `uint32` column. */
  lemma DepositAllKeepsFit(rows: Table, scope: StorageKey, acc: Accumulated)
    requires AmountsFit(rows)
    ensures AmountsFit(DepositAll(rows, scope, acc))
  {
  }

  /** The row a full deposit leaves at one key, from what the merge, the overlay and the flush give there. */
  lemma DepositRowGlue(after: Option<Row>, rows: Table, scope: StorageKey, existing: map<nat, nat>, storedSub: map<nat, nat>,
                       final: map<nat, nat>, merged: map<nat, nat>, added: map<nat, nat>, seen: map<nat, nat>, k: RowKey)
    requires after == if InPool(k, scope) && k.entry in final then Some(Row(Get0(merged, k.entry), final[k.entry])) else RowAt(rows, k)
    requires k.entry in final <==> k.entry in existing || k.entry in added
    requires Get0(final, k.entry) == if k.entry in added then Wrap32(Get0(existing, k.entry) + added[k.entry]) else Get0(existing, k.entry)
    requires Get0(merged, k.entry) == if k.entry in seen then seen[k.entry] else Get0(storedSub, k.entry)
    requires added.Keys == seen.Keys
    requires InPool(k, scope) ==> Get0(existing, k.entry) == Balance(rows, k)
    requires InPool(k, scope) && k.entry in existing ==> RowAt(rows, k) == Some(Row(Get0(storedSub, k.entry), Get0(existing, k.entry)))
    ensures after == if InPool(k, scope) && k.entry in added then Some(Row(Get0(seen, k.entry), Wrap32(Balance(rows, k) + added[k.entry]))) else RowAt(rows, k)
  {
  }

  /** The full deposit's merge, overlay and flush, seen from one row key. */
  lemma MergeFlushAt(rows: Table, scope: StorageKey, existing: map<nat, nat>, storedSub: map<nat, nat>,
                     added: map<nat, nat>, seen: map<nat, nat>, k: RowKey)
    requires added.Keys == seen.Keys
    requires InPool(k, scope) ==> Get0(existing, k.entry) == Balance(rows, k)
    requires InPool(k, scope) && k.entry in existing ==> RowAt(rows, k) == Some(Row(Get0(storedSub, k.entry), Get0(existing, k.entry)))
    ensures RowAt(FlushReagentState(rows, scope, Merged(existing, added), Overlay(storedSub, seen)), k)
         == if InPool(k, scope) && k.entry in added then Some(Row(Get0(seen, k.entry), Wrap32(Balance(rows, k) + added[k.entry]))) else RowAt(rows, k)
  {
    var final := Merged(existing, added);
    var merged := Overlay(storedSub, seen);
    MergedAt(existing, added, k.entry);
    OverlayAt(storedSub, seen, k.entry);
    FlushRowAt(rows, scope, final, merged, k);
    DepositRowGlue(RowAt(FlushReagentState(rows, scope, final, merged), k), rows, scope, existing, storedSub, final, merged, added, seen, k);
  }

  lemma MergeFlushAgrees(rows: Table, scope: StorageKey, acc: Accumulated, existing: map<nat, nat>, storedSub: map<nat, nat>, k: RowKey)
    requires BatchShaped(acc)
    requires InPool(k, scope) ==> Get0(existing, k.entry) == Balance(rows, k)
    requires InPool(k, scope) && k.entry in existing ==> RowAt(rows, k) == Some(Row(Get0(storedSub, k.entry), Get0(existing, k.entry)))
    ensures RowAt(FlushReagentState(rows, scope, Merged(existing, acc.addedCounts), Overlay(storedSub, acc.subclassByEntry)), k)
         == RowAt(DepositAll(rows, scope, acc), k)
  {
    MergeFlushAt(rows, scope, existing, storedSub, acc.addedCounts, acc.subclassByEntry, k);
    DepositAllAt(rows, scope, acc, k);
  }

  /**
   * Adding the batch to the amounts the deposit read, letting the fresh subclasses win and
   * flushing the result is exactly the full deposit.
   */
  lemma MergeFlushIsDepositAll(rows: Table, scope: StorageKey, acc: Accumulated, existing: map<nat, nat>, storedSub: map<nat, nat>)
    requires BatchShaped(acc)
    requires forall k | InPool(k, scope) :: Get0(existing, k.entry) == Balance(rows, k)
    requires forall k | InPool(k, scope) && k.entry in existing :: RowAt(rows, k) == Some(Row(Get0(storedSub, k.entry), Get0(existing, k.entry)))
    ensures FlushReagentState(rows, scope, Merged(existing, acc.addedCounts), Overlay(storedSub, acc.subclassByEntry)) == DepositAll(rows, scope, acc)
  {
    var flushed := FlushReagentState(rows, scope, Merged(existing, acc.addedCounts), Overlay(storedSub, acc.subclassByEntry));
    forall k ensures RowAt(flushed, k) == RowAt(DepositAll(rows, scope, acc), k) {
      MergeFlushAgrees(rows, scope, acc, existing, storedSub, k);
    }
    RowAtExtensional(flushed, DepositAll(rows, scope, acc));
  }

  /** The category counterpart of `DepositRowGlue`: every final entry is stamped with the category. */
  lemma CategoryRowGlue(after: Option<Row>, rows: Table, scope: StorageKey, subclass: nat, existing: map<nat, nat>,
                        final: map<nat, nat>, stamped: map<nat, nat>, added: map<nat, nat>, k: RowKey)
    requires after == if InPool(k, scope) && k.entry in final then Some(Row(Get0(stamped, k.entry), final[k.entry])) else RowAt(rows, k)
    requires k.entry in final <==> k.entry in existing || k.entry in added
    requires Get0(final, k.entry) == if k.entry in added then Wrap32(Get0(existing, k.entry) + added[k.entry]) else Get0(existing, k.entry)
    requires Get0(stamped, k.entry) == if k.entry in final.Keys then subclass else 0
    requires InPool(k, scope) && k.entry in existing ==> RowAt(rows, k) == Some(Row(subclass, Get0(existing, k.entry)))
    ensures after == if InPool(k, scope) && k.entry in added then Some(Row(subclass, Wrap32(Get0(existing, k.entry) + added[k.entry]))) else RowAt(rows, k)
  {
  }

  /** The category deposit's merge, stamp and flush, seen from one row key. */
  lemma MergeFlushCategoryAt(rows: Table, scope: StorageKey, subclass: nat, existing: map<nat, nat>, added: map<nat, nat>, k: RowKey)
    requires InPool(k, scope) && k.entry in existing ==> RowAt(rows, k) == Some(Row(subclass, Get0(existing, k.entry)))
    ensures RowAt(FlushReagentState(rows, scope, Merged(existing, added), Stamp(subclass, Merged(existing, added).Keys)), k)
         == if InPool(k, scope) && k.entry in added then Some(Row(subclass, Wrap32(Get0(existing, k.entry) + added[k.entry]))) else RowAt(rows, k)
  {
    var final := Merged(existing, added);
    MergedAt(existing, added, k.entry);
    StampAt(subclass, final.Keys, k.entry);
    FlushRowAt(rows, scope, final, Stamp(subclass, final.Keys), k);
    CategoryRowGlue(RowAt(FlushReagentState(rows, scope, final, Stamp(subclass, final.Keys)), k), rows, scope, subclass, existing,
                    final, Stamp(subclass, final.Keys), added, k);
  }

  /** The row a category deposit leaves at one key. */
  lemma DepositCategoryAt(rows: Table, scope: StorageKey, subclass: nat, acc: Accumulated, k: RowKey)
    ensures RowAt(DepositCategory(rows, scope, subclass, acc), k)
         == if InPool(k, scope) && k.entry in acc.addedCounts
            then Some(Row(subclass, Wrap32(CategoryBalance(rows, k, subclass) + acc.addedCounts[k.entry])))
            else RowAt(rows, k)
  {
  }

  /** A category deposit stores wrapped sums, so every amount still fits its `uint32` column. */
  lemma DepositCategoryKeepsFit(rows: Table, scope: StorageKey, subclass: nat, acc: Accumulated)
    requires AmountsFit(rows)
    ensures AmountsFit(DepositCategory(rows, scope, subclass, acc))
  {
  }

  /** The same row, in terms of amounts that agree with the category's balances. */
  lemma DepositCategoryFrom(rows: Table, scope: StorageKey, subclass: nat, acc: Accumulated, existing: map<nat, nat>, k: RowKey)
    requires InPool(k, scope) ==> Get0(existing, k.entry) == CategoryBalance(rows, k, subclass)
    ensures RowAt(DepositCategory(rows, scope, subclass, acc), k)
         == if InPool(k, scope) && k.entry in acc.addedCounts
            then Some(Row(subclass, Wrap32(Get0(existing, k.entry) + acc.addedCounts[k.entry])))
            else RowAt(rows, k)
  {
    DepositCategoryAt(rows, scope, subclass, acc, k);
  }

  lemma MergeFlushCategoryAgrees(rows: Table, scope: StorageKey, subclass: nat, acc: Accumulated, existing: map<nat, nat>, k: RowKey)
    requires InPool(k, scope) ==> Get0(existing, k.entry) == CategoryBalance(rows, k, subclass)
    requires InPool(k, scope) && k.entry in existing ==> RowAt(rows, k) == Some(Row(subclass, Get0(existing, k.entry)))
    ensures var final := Merged(existing, acc.addedCounts);
      RowAt(FlushReagentState(rows, scope, final, Stamp(subclass, final.Keys)), k) == RowAt(DepositCategory(rows, scope, subclass, acc), k)
  {
    MergeFlushCategoryAt(rows, scope, subclass, existing, acc.addedCounts, k);
    DepositCategoryFrom(rows, scope, subclass, acc, existing, k);
  }

  /**
   * Adding the batch to the category's amounts, stamping every result with the category and
   * flushing it is exactly the category deposit.
   */
  lemma MergeFlushIsDepositCategory(rows: Table, scope: StorageKey, subclass: nat, acc: Accumulated)
    ensures var final := Merged(CategoryAmounts(rows, scope, subclass), acc.addedCounts);
      FlushReagentState(rows, scope, final, Stamp(subclass, final.Keys)) == DepositCategory(rows, scope, subclass, acc)
  {
    var existing := CategoryAmounts(rows, scope, subclass);
    var final := Merged(existing, acc.addedCounts);
    var flushed := FlushReagentState(rows, scope, final, Stamp(subclass, final.Keys));
    CategoryRows(rows, scope, subclass);
    forall k ensures RowAt(flushed, k) == RowAt(DepositCategory(rows, scope, subclass, acc), k) {
      MergeFlushCategoryAgrees(rows, scope, subclass, acc, existing, k);
    }
    RowAtExtensional(flushed, DepositCategory(rows, scope, subclass, acc));
  }

  /**
   * End to end, a full deposit loses nothing without an overflow: for each entry, the bank's
   * balance plus what the player still holds is what it was before.
   */
  lemma DepositConserves(storage: seq<Position>, catalog: ItemCatalog, rows: Table, scope: StorageKey, e: nat)
    requires Balance(rows, KeyOf(scope, e)) + TakenTotal(storage, catalog, None, e) < U32_LIMIT
    ensures var acc := Sweep(storage, catalog, None);
      Balance(DepositAll(rows, scope, acc), KeyOf(scope, e)) + HeldCount(Swept(storage, catalog, None), e)
      == Balance(rows, KeyOf(scope, e)) + HeldCount(storage, e)
  {
    var acc := Sweep(storage, catalog, None);
    var key := KeyOf(scope, e);
    SweepKeys(storage, catalog, None, e);
    SweepTotal(storage, catalog, None, e);
    SweepConserves(storage, catalog, None, e);
    DepositAllAt(rows, scope, acc, key);
    var after := DepositAll(rows, scope, acc);
    var total := TakenTotal(storage, catalog, None, e);
    if e in acc.addedCounts {
      assert Wrap32(total) == total;
      assert acc.addedCounts[e] == total;
      assert Balance(after, key) == Wrap32(Balance(rows, key) + total);
    } else {
      NoTakeNoTotal(storage, catalog, None, e);
      assert Balance(after, key) == Balance(rows, key);
    }
  }

  /** An entry the sweep does not take has a taken total of 0. */
  lemma {:induction false} NoTakeNoTotal(ps: seq<Position>, catalog: ItemCatalog, filter: Option<nat>, e: nat)
    requires !TakesEntry(ps, catalog, filter, e)
    ensures TakenTotal(ps, catalog, filter, e) == 0
  {
    if ps != [] {
      var init := ps[..|ps| - 1];
      forall i | 0 <= i < |init| ensures !(Taken(catalog, filter, init[i]) && init[i].content.value.entry == e) {
        assert init[i] == ps[i];
      }
      NoTakeNoTotal(init, catalog, filter, e);
    }
  }

  // ---- the categories a deposit touched ----

  /** `touched.insert(subclassByEntry[e])` for each entry of `order`. */
  function TouchedBy(subclassOf: map<nat, nat>, order: seq<nat>): set<nat> {
    if order == [] then {}
    else TouchedBy(subclassOf, order[..|order| - 1]) + {Get0(subclassOf, order[|order| - 1])}
  }

  /** The categories a deposit batch touched: the subclasses recorded for its entries. */
  function Touched(acc: Accumulated): set<nat> {
    TouchedBy(acc.subclassByEntry, AscendingKeys(acc.subclassByEntry.Keys))
  }

  lemma {:induction false} TouchedByExact(subclassOf: map<nat, nat>, order: seq<nat>, c: nat)
    ensures c in TouchedBy(subclassOf, order) <==> exists e | e in order :: Get0(subclassOf, e) == c
  {
    if order != [] {
      var init := order[..|order| - 1];
      var last := order[|order| - 1];
      TouchedByExact(subclassOf, init, c);
      assert order == init + [last];
      if c in TouchedBy(subclassOf, init) {
        var e :| e in init && Get0(subclassOf, e) == c;
        assert e in order;
      }
      if exists e | e in order :: Get0(subclassOf, e) == c {
        var e :| e in order && Get0(subclassOf, e) == c;
        assert e in init || e == last;
      }
    }
  }

  /** A category is touched exactly when some deposited entry carries it. */
  lemma TouchedExact(acc: Accumulated, c: nat)
    ensures c in Touched(acc) <==> exists e | e in acc.subclassByEntry :: acc.subclassByEntry[e] == c
  {
    var order := AscendingKeys(acc.subclassByEntry.Keys);
    TouchedByExact(acc.subclassByEntry, order, c);
    if exists e | e in acc.subclassByEntry :: acc.subclassByEntry[e] == c {
      var e :| e in acc.subclassByEntry && acc.subclassByEntry[e] == c;
      assert e in order && Get0(acc.subclassByEntry, e) == c;
    }
  }

  /**
   * After a full deposit the cache holds no summary of a touched category, and keeps every other
   * summary unless category 0 was touched, which clears it.
   */
  lemma DepositCacheEffect(cache: SummaryCache, acc: Accumulated, c: nat)
    ensures c in InvalidateEach(cache, AscendingKeys(Touched(acc)))
        <==> c in cache && c !in Touched(acc) && 0 !in Touched(acc)
  {
    var order := AscendingKeys(Touched(acc));
    InvalidateEachResult(cache, order);
  }

  // ---- the audit rows of a deposit ----

  /** One DEPOSIT row; `category`, when given, overrides the per-entry subclass. */
  function DepositRecord(scope: StorageKey, e: nat, added: map<nat, nat>, subclassOf: map<nat, nat>, category: Option<nat>, now: int): AuditRecord {
    AuditRecord(now, scope.accountId, scope.guid, Deposit, e, category.GetOr(Get0(subclassOf, e)), Get0(added, e))
  }

  /** The DEPOSIT rows for the entries of `order`, in that order. */
  function Records(scope: StorageKey, order: seq<nat>, added: map<nat, nat>, subclassOf: map<nat, nat>, category: Option<nat>, now: int): Log {
    if order == [] then []
    else Records(scope, order[..|order| - 1], added, subclassOf, category, now)
         + [DepositRecord(scope, order[|order| - 1], added, subclassOf, category, now)]
  }

  /** The DEPOSIT rows of one batch, one per entry in ascending entry order. */
  function DepositRecords(scope: StorageKey, acc: Accumulated, category: Option<nat>, now: int): Log {
    Records(scope, AscendingKeys(acc.addedCounts.Keys), acc.addedCounts, acc.subclassByEntry, category, now)
  }

  lemma {:induction false} RecordsNet(scope: StorageKey, order: seq<nat>, added: map<nat, nat>, subclassOf: map<nat, nat>,
                                      category: Option<nat>, now: int, e: nat, subclass: nat)
    requires forall i, j | 0 <= i < j < |order| :: order[i] < order[j]
    ensures NetMovement(Records(scope, order, added, subclassOf, category, now), scope.accountId, scope.guid, e, subclass)
         == if e in order && category.GetOr(Get0(subclassOf, e)) == subclass then Get0(added, e) else 0
  {
    if order != [] {
      var init := order[..|order| - 1];
      var last := order[|order| - 1];
      assert forall i, j | 0 <= i < j < |init| :: init[i] < init[j] by {
        forall i, j | 0 <= i < j < |init| ensures init[i] < init[j] {
          assert init[i] == order[i] && init[j] == order[j];
        }
      }
      RecordsNet(scope, init, added, subclassOf, category, now, e, subclass);
      NetMovementPush(Records(scope, init, added, subclassOf, category, now), DepositRecord(scope, last, added, subclassOf, category, now),
                      scope.accountId, scope.guid, e, subclass);
      assert order == init + [last];
      if last == e {
        forall j | 0 <= j < |init| ensures init[j] != e {
          assert init[j] == order[j];
        }
      }
    }
  }

  /** The audit rows of a deposit add exactly each deposited count to its entry's net movement. */
  lemma DepositRecordsNet(log: Log, scope: StorageKey, acc: Accumulated, category: Option<nat>, now: int, e: nat, subclass: nat)
    ensures NetMovement(log + DepositRecords(scope, acc, category, now), scope.accountId, scope.guid, e, subclass)
         == NetMovement(log, scope.accountId, scope.guid, e, subclass)
            + (if e in acc.addedCounts && category.GetOr(Get0(acc.subclassByEntry, e)) == subclass then acc.addedCounts[e] else 0)
  {
    var order := AscendingKeys(acc.addedCounts.Keys);
    NetMovementAppend(log, DepositRecords(scope, acc, category, now), scope.accountId, scope.guid, e, subclass);
    RecordsNet(scope, order, acc.addedCounts, acc.subclassByEntry, category, now, e, subclass);
  }

  // ---- the loops of the deposit callbacks ----

  /** The merge loop over the deposited entries. */
  method MergeAmounts(existing: map<nat, nat>, added: map<nat, nat>, order: seq<nat>) returns (final: map<nat, nat>)
    ensures final == MergeDeposit(existing, added, order)
  {
    final := existing;
    for i := 0 to |order|
      invariant final == MergeDeposit(existing, added, order[..i])
    {
      assert order[..i + 1][..i] == order[..i];
      var e := order[i];
      final := final[e := Wrap32(Get0(existing, e) + Get0(added, e))];
    }
    assert order[..|order|] == order;
  }

  /** The loop that lets the freshly seen subclasses override the stored ones. */
  method MergeSubclasses(stored: map<nat, nat>, seen: map<nat, nat>, order: seq<nat>) returns (merged: map<nat, nat>)
    ensures merged == MergeSubclass(stored, seen, order)
  {
    merged := stored;
    for i := 0 to |order|
      invariant merged == MergeSubclass(stored, seen, order[..i])
    {
      assert order[..i + 1][..i] == order[..i];
      merged := merged[order[i] := Get0(seen, order[i])];
    }
    assert order[..|order|] == order;
  }

  /** The loop that builds the uniform subclass map of a category deposit. */
  method StampCategory(subclass: nat, order: seq<nat>) returns (stamped: map<nat, nat>)
    ensures stamped == UniformSubclass(subclass, order)
  {
    stamped := map[];
    for i := 0 to |order|
      invariant stamped == UniformSubclass(subclass, order[..i])
    {
      assert order[..i + 1][..i] == order[..i];
      stamped := stamped[order[i] := subclass];
    }
    assert order[..|order|] == order;
  }

  /** The loop that collects the touched categories. */
  method CollectTouched(subclassOf: map<nat, nat>, order: seq<nat>) returns (touched: set<nat>)
    ensures touched == TouchedBy(subclassOf, order)
  {
    touched := {};
    for i := 0 to |order|
      invariant touched == TouchedBy(subclassOf, order[..i])
    {
      assert order[..i + 1][..i] == order[..i];
      touched := touched + {Get0(subclassOf, order[i])};
    }
    assert order[..|order|] == order;
  }

  // ======== the audit sweep ========

  /** `EnsureAuditCleanup` runs only with auditing on, and at most once per interval (never, before the first run). */
  predicate CleanupDue(auditOn: bool, lastCleanup: int, now: int, interval: nat) {
    auditOn && !(lastCleanup != 0 && now - lastCleanup < interval)
  }

  /** After a sweep at a non-zero time, no other sweep runs until the interval has passed. */
  lemma CleanupDebounced(auditOn: bool, now1: int, now2: int, interval: nat)
    requires now1 != 0
    ensures CleanupDue(auditOn, now1, now2, interval) <==> auditOn && now2 - now1 >= interval
  {
  }

  // ======== the main menu ========

  /** The subclasses the pool holds rows under. */
  function PoolSubclasses(t: Table, scope: StorageKey): set<nat> {
    set k | k in t && InPool(k, scope) :: t[k].subclass
  }

  /**
   * `OnGossipHello`'s `SELECT item_subclass, COUNT(*), COALESCE(SUM(amount),0) ... GROUP BY item_subclass`:
   * one summary for each subclass the pool holds rows under, and none for the others.
   */
  function FreshSummaries(t: Table, scope: StorageKey): (f: SummaryCache)
    ensures forall sc :: sc in f <==> CategoryAmounts(t, scope, sc) != map[]
    ensures forall sc | sc in f :: f[sc] == ComputeSummary(t, scope, sc)
  {
    forall sc ensures sc in PoolSubclasses(t, scope) <==> CategoryAmounts(t, scope, sc) != map[] {
      if sc in PoolSubclasses(t, scope) {
        var k :| k in t && InPool(k, scope) && t[k].subclass == sc;
        assert k == KeyOf(scope, k.entry);
        assert k.entry in CategoryAmounts(t, scope, sc);
      }
    }
    map sc | sc in PoolSubclasses(t, scope) :: ComputeSummary(t, scope, sc)
  }

  /**
   * The summary `OnGossipHello` shows for one category, as written: the fresh summaries are stored
   * into the cache and the menu reads the cache back, `(0, 0)` when it holds nothing. A category the
   * pool holds no rows in therefore shows whatever the cache still holds for that subclass.
   */
  function HelloShown(cache: SummaryCache, t: Table, scope: StorageKey, sc: nat): (s: Summary)
    ensures CategoryAmounts(t, scope, sc) != map[] ==> s == ComputeSummary(t, scope, sc)
    ensures CategoryAmounts(t, scope, sc) == map[] ==> s == (if sc in cache then cache[sc] else Summary(0, 0))
  {
    var c := cache + FreshSummaries(t, scope);
    if sc in c then c[sc] else Summary(0, 0)
  }

  /**
   * The cache is keyed by subclass alone and shared by every pool: after a player of account 1
   * opens the menu with five Jewelcrafting items banked, a player of account 2, who has none,
   * is shown account 1's summary.
   */
  lemma HelloShowsOtherPool(entry: nat)
    ensures var a := StorageKey(1, 0);
            var b := StorageKey(2, 0);
            var t := map[KeyOf(a, entry) := Row(ITEM_SUBCLASS_JEWELCRAFTING, 5)];
            var cache := map[] + FreshSummaries(t, a);
      && HelloShown(cache, t, b, ITEM_SUBCLASS_JEWELCRAFTING) == Summary(1, 5)
      && ComputeSummary(t, b, ITEM_SUBCLASS_JEWELCRAFTING) == Summary(0, 0)
  {
    var a := StorageKey(1, 0);
    var b := StorageKey(2, 0);
    var t := map[KeyOf(a, entry) := Row(ITEM_SUBCLASS_JEWELCRAFTING, 5)];
    SingleRowCategory(a, entry, ITEM_SUBCLASS_JEWELCRAFTING, 5);
    assert entry in CategoryAmounts(t, a, ITEM_SUBCLASS_JEWELCRAFTING);
    assert CategoryAmounts(t, b, ITEM_SUBCLASS_JEWELCRAFTING) == map[];
  }

  /** The summary a menu row shows for `sc` when built from `latest` alone, `(0, 0)` when it has none. */
  function MenuSummary(latest: SummaryCache, sc: nat): Summary {
    if sc in latest then latest[sc] else Summary(0, 0)
  }

  /** The summary shown when the menu is built from the query's rows alone. */
  function HelloShownFixed(t: Table, scope: StorageKey, sc: nat): Summary {
    MenuSummary(FreshSummaries(t, scope), sc)
  }

  /** The menu's loop over `kCategories`: one summary per category row, in table order. */
  method MenuSummaries(latest: SummaryCache) returns (shown: seq<Summary>)
    ensures |shown| == |Categories|
    ensures forall n | 0 <= n < |shown| :: shown[n] == MenuSummary(latest, Categories[n].subclass)
  {
    shown := [];
    var j := 0;
    while j < |Categories|
      invariant 0 <= j <= |Categories|
      invariant |shown| == j
      invariant forall n | 0 <= n < j :: shown[n] == MenuSummary(latest, Categories[n].subclass)
    {
      shown := shown + [MenuSummary(latest, Categories[j].subclass)];
      j := j + 1;
    }
  }

  /** Built from the query alone, the menu shows every category's true summary for the player's own pool. */
  lemma HelloShownFixedIsSummary(t: Table, scope: StorageKey, sc: nat)
    ensures HelloShownFixed(t, scope, sc) == ComputeSummary(t, scope, sc)
  {
    if sc !in FreshSummaries(t, scope) {
      assert CategoryAmounts(t, scope, sc) == map[];
    }
  }

  class ReagentBank {
    // configuration, read once when the script is created
    const accountWide: bool
    const auditOn: bool
    const retentionSeconds: nat
    const cleanupIntervalSeconds: nat

    /** `mod_reagent_bank_account`. */
    var rows: Table
    /** `mod_reagent_bank_audit`. */
    var auditLog: Log
    /** `m_categorySummaryCache`, keyed by subclass alone. */
    var cache: SummaryCache
    /** `m_cacheAllCategoriesInvalid`: set when the script is created, written, never read. */
    var allInvalid: bool
    /** `g_reagentBankLastCleanup`: 0 until the first sweep. */
    var lastCleanup: int

    /** The table's schema: every `amount` fits its `INT UNSIGNED` column. */
    predicate Valid()
      reads this
    {
      AmountsFit(rows)
    }

    constructor(accountWide: bool, auditOn: bool, retentionSeconds: nat, cleanupIntervalSeconds: nat, rows: Table, auditLog: Log)
      requires AmountsFit(rows)
      ensures Valid()
      ensures this.accountWide == accountWide && this.auditOn == auditOn
      ensures this.retentionSeconds == retentionSeconds && this.cleanupIntervalSeconds == cleanupIntervalSeconds
      ensures this.rows == rows && this.auditLog == auditLog
      ensures cache == map[] && allInvalid && lastCleanup == 0
    {
      this.accountWide := accountWide;
      this.auditOn := auditOn;
      this.retentionSeconds := retentionSeconds;
      this.cleanupIntervalSeconds := cleanupIntervalSeconds;
      this.rows := rows;
      this.auditLog := auditLog;
      cache := map[];
      allInvalid := true;
      lastCleanup := 0;
    }

    // ---- the cache ----

    method InvalidateCategorySummary(subclass: nat)
      modifies this
      ensures cache == Invalidate(old(cache), subclass)
      ensures allInvalid == (old(allInvalid) || subclass == 0)
      ensures rows == old(rows) && auditLog == old(auditLog) && lastCleanup == old(lastCleanup)
    {
      if subclass == 0 {
        cache := map[];
        allInvalid := true;
      } else {
        cache := cache - {subclass};
      }
    }

    /** `GetCachedCategorySummary`. */
    function CachedCategorySummary(subclass: nat): (r: Option<Summary>)
      reads this
      ensures r.Some? <==> subclass in cache
      ensures r.Some? ==> r.value == cache[subclass]
    {
      if subclass in cache then Some(cache[subclass]) else None
    }

    method StoreCategorySummary(subclass: nat, summary: Summary)
      modifies this
      ensures cache == old(cache)[subclass := summary]
      ensures !allInvalid
      ensures rows == old(rows) && auditLog == old(auditLog) && lastCleanup == old(lastCleanup)
    {
      cache := cache[subclass := summary];
      allInvalid := false;
    }

    /**
     * `GetCategorySummary`: a cached summary is served as is; otherwise the summary is computed
     * (or `(0, 0)` when the query fails), stored and returned.
     */
    method GetCategorySummary(subclass: nat, scope: StorageKey, queryOk: bool) returns (s: Summary)
      modifies this
      ensures old(subclass in cache) ==> s == old(cache[subclass]) && cache == old(cache) && allInvalid == old(allInvalid)
      ensures old(subclass !in cache) ==>
        && s == (if queryOk then ComputeSummary(rows, scope, subclass) else Summary(0, 0))
        && cache == old(cache)[subclass := s] && !allInvalid
      ensures rows == old(rows) && auditLog == old(auditLog) && lastCleanup == old(lastCleanup)
    {
      var cached := CachedCategorySummary(subclass);
      if cached.Some? {
        return cached.value;
      }
      if queryOk {
        s := ComputeSummary(rows, scope, subclass);
      } else {
        s := Summary(0, 0);
      }
      StoreCategorySummary(subclass, s);
    }

    /**
     * `StoreCategorySummary` for every summary of `latest`, in whatever order the `unordered_map`
     * iterates it.
     */
    method StoreSummaries(latest: SummaryCache)
      modifies this
      ensures cache == old(cache) + latest
      ensures allInvalid == (old(allInvalid) && latest == map[])
      ensures rows == old(rows) && auditLog == old(auditLog) && lastCleanup == old(lastCleanup)
    {
      var todo := latest.Keys;
      while todo != {}
        invariant todo <= latest.Keys
        invariant rows == old(rows) && auditLog == old(auditLog) && lastCleanup == old(lastCleanup)
        invariant cache == old(cache) + map k | k in latest && k !in todo :: latest[k]
        invariant allInvalid == (old(allInvalid) && todo == latest.Keys)
        decreases todo
      {
        var k :| k in todo;
        ghost var before := map n | n in latest && n !in todo :: latest[n];
        StoreCategorySummary(k, latest[k]);
        todo := todo - {k};
        assert (map n | n in latest && n !in todo :: latest[n]) == before[k := latest[k]];
      }
      assert (map k | k in latest && k !in todo :: latest[k]) == latest;
    }

    /**
     * `OnGossipHello`'s callback, corrected: the fresh summaries are stored into the cache, and
     * every category row of the menu shows its fresh summary, or `(0, 0)` when the pool holds
     * nothing in it, rather than reading the shared cache back.
     */
    method GossipHello(scope: StorageKey) returns (shown: seq<Summary>)
      modifies this
      ensures |shown| == |Categories|
      ensures forall i | 0 <= i < |shown| :: shown[i] == ComputeSummary(rows, scope, Categories[i].subclass)
      ensures cache == old(cache) + FreshSummaries(rows, scope)
      ensures allInvalid == (old(allInvalid) && FreshSummaries(rows, scope) == map[])
      ensures rows == old(rows) && auditLog == old(auditLog) && lastCleanup == old(lastCleanup)
    {
      var latest := FreshSummaries(rows, scope);
      StoreSummaries(latest);
      shown := MenuSummaries(latest);
      forall n | 0 <= n < |shown| ensures shown[n] == ComputeSummary(rows, scope, Categories[n].subclass) {
        HelloShownFixedIsSummary(rows, scope, Categories[n].subclass);
      }
    }

    // ---- the audit sweep ----

    method EnsureAuditCleanup(now: int)
      modifies this
      ensures CleanupDue(auditOn, old(lastCleanup), now, cleanupIntervalSeconds) ==>
        lastCleanup == now && auditLog == Expire(old(auditLog), now - retentionSeconds)
      ensures !CleanupDue(auditOn, old(lastCleanup), now, cleanupIntervalSeconds) ==>
        lastCleanup == old(lastCleanup) && auditLog == old(auditLog)
      ensures rows == old(rows) && cache == old(cache) && allInvalid == old(allInvalid)
    {
      if !auditOn {
        return;
      }
      if lastCleanup != 0 && now - lastCleanup < cleanupIntervalSeconds {
        return;
      }
      lastCleanup := now;
      var cutoff := now - retentionSeconds;
      auditLog := Expire(auditLog, cutoff);
    }

    // ---- withdraw one item ----

    /**
     * `WithdrawItem`: one stack at most; `accepted` is the answer of its one store check. The
     * category invalidated is the one the row is stored under (see `Settlement.WithdrawOneFixed`).
     */
    method WithdrawItem(catalog: ItemCatalog, accountId: nat, playerGuid: nat, entry: nat, accepted: bool)
      returns (reply: WithdrawReply)
      requires Valid()
      modifies this
      ensures Valid()
      ensures var w := WithdrawOneFixed(old(rows), GetStorageKeys(accountId, playerGuid, accountWide), entry, catalog, accepted);
        && reply == w.reply && rows == w.rows
        && cache == (if w.invalidated.Some? then Invalidate(old(cache), w.invalidated.value) else old(cache))
        && allInvalid == (old(allInvalid) || w.invalidated == Some(0))
      ensures auditLog == old(auditLog) && lastCleanup == old(lastCleanup)
    {
      var scope := GetStorageKeys(accountId, playerGuid, accountWide);
      WithdrawOneKeepsFit(rows, scope, entry, catalog, accepted);
      var key := KeyOf(scope, entry);
      if key !in rows {
        return NoStoredRow;
      }
      var storedAmount := rows[key].amount;
      if entry !in catalog {
        return NoTemplate;
      }
      var stackSize := catalog[entry].maxStack;
      var category := rows[key].subclass;
      if storedAmount <= stackSize {
        if accepted {
          rows := Delete(rows, key);
          reply := Withdrew(storedAmount);
          InvalidateCategorySummary(category);
        } else {
          reply := NoSpace(storedAmount);
        }
      } else {
        if accepted {
          rows := SetAmount(rows, key, storedAmount - stackSize);
          reply := Withdrew(stackSize);
          InvalidateCategorySummary(category);
        } else {
          reply := NoSpace(stackSize);
        }
      }
    }

    // ---- deposits ----

    /** Invalidates the touched categories in ascending order, as the `std::set` iterates them. */
    method InvalidateTouched(touched: set<nat>)
      modifies this
      ensures cache == InvalidateEach(old(cache), AscendingKeys(touched))
      ensures allInvalid == (old(allInvalid) || 0 in touched)
      ensures rows == old(rows) && auditLog == old(auditLog) && lastCleanup == old(lastCleanup)
    {
      InvalidateInOrder(AscendingKeys(touched));
    }

    /** `InvalidateCategorySummary` for each category of `order`, in turn. */
    method InvalidateInOrder(order: seq<nat>)
      modifies this
      ensures cache == InvalidateEach(old(cache), order)
      ensures allInvalid == (old(allInvalid) || 0 in order)
      ensures rows == old(rows) && auditLog == old(auditLog) && lastCleanup == old(lastCleanup)
    {
      for i := 0 to |order|
        invariant cache == InvalidateEach(old(cache), order[..i])
        invariant allInvalid == (old(allInvalid) || 0 in order[..i])
        invariant rows == old(rows) && auditLog == old(auditLog) && lastCleanup == old(lastCleanup)
      {
        assert order[..i + 1][..i] == order[..i];
        InvalidateCategorySummary(order[i]);
        assert 0 in order[..i + 1] <==> 0 in order[..i] || order[i] == 0;
      }
      assert order[..|order|] == order;
    }

    /** The upsert loop of `FlushReagentState` over the entries of `order`. */
    method UpsertInOrder(scope: StorageKey, order: seq<nat>, final: map<nat, nat>, subclassByEntry: map<nat, nat>)
      modifies this
      ensures rows == UpsertAll(old(rows), scope, order, final, subclassByEntry)
      ensures auditLog == old(auditLog) && cache == old(cache) && allInvalid == old(allInvalid) && lastCleanup == old(lastCleanup)
    {
      for i := 0 to |order|
        invariant rows == UpsertAll(old(rows), scope, order[..i], final, subclassByEntry)
        invariant auditLog == old(auditLog) && cache == old(cache) && allInvalid == old(allInvalid) && lastCleanup == old(lastCleanup)
      {
        assert order[..i + 1][..i] == order[..i];
        var e := order[i];
        rows := Upsert(rows, KeyOf(scope, e), Get0(subclassByEntry, e), Get0(final, e));
      }
      assert order[..|order|] == order;
    }

    /** `FlushReagentState`: one upsert per final entry, in ascending entry order; an empty batch writes nothing. */
    method Flush(scope: StorageKey, final: map<nat, nat>, subclassByEntry: map<nat, nat>)
      modifies this
      ensures rows == FlushReagentState(old(rows), scope, final, subclassByEntry)
      ensures auditLog == old(auditLog) && cache == old(cache) && allInvalid == old(allInvalid) && lastCleanup == old(lastCleanup)
    {
      if final == map[] {
        return;
      }
      UpsertInOrder(scope, AscendingKeys(final.Keys), final, subclassByEntry);
      UpsertsAreFlush(old(rows), scope, AscendingKeys(final.Keys), final, subclassByEntry);
    }

    /** The audit transaction of a deposit: one DEPOSIT row per entry of `order`. */
    method AppendDepositRecords(scope: StorageKey, order: seq<nat>, added: map<nat, nat>, subclassOf: map<nat, nat>,
                                category: Option<nat>, now: int)
      modifies this
      ensures auditLog == old(auditLog) + Records(scope, order, added, subclassOf, category, now)
      ensures rows == old(rows) && cache == old(cache) && allInvalid == old(allInvalid) && lastCleanup == old(lastCleanup)
    {
      for i := 0 to |order|
        invariant auditLog == old(auditLog) + Records(scope, order[..i], added, subclassOf, category, now)
        invariant rows == old(rows) && cache == old(cache) && allInvalid == old(allInvalid) && lastCleanup == old(lastCleanup)
      {
        assert order[..i + 1][..i] == order[..i];
        var r := DepositRecord(scope, order[i], added, subclassOf, category, now);
        assert Records(scope, order[..i + 1], added, subclassOf, category, now)
            == Records(scope, order[..i], added, subclassOf, category, now) + [r];
        auditLog := auditLog + [r];
      }
      assert order[..|order|] == order;
    }

    /**
     * `DepositAllReagents`: sweeps every bankable item out of the player's storage into the pool,
     * audits the batch, writes the merged rows and invalidates the touched categories.
     */
    method DepositAllReagents(storage: array<Position>, catalog: ItemCatalog, accountId: nat, playerGuid: nat, now: int)
      returns (deposited: map<nat, nat>)
      requires Valid()
      modifies this, storage
      ensures Valid()
      ensures var scope := GetStorageKeys(accountId, playerGuid, accountWide);
              var acc := Sweep(old(storage[..]), catalog, None);
        && storage[..] == Swept(old(storage[..]), catalog, None)
        && deposited == acc.addedCounts
        && rows == DepositAll(old(rows), scope, acc)
        && auditLog == old(auditLog) + (if auditOn && acc.addedCounts != map[] then DepositRecords(scope, acc, None, now) else [])
        && cache == (if acc.addedCounts == map[] then old(cache) else InvalidateEach(old(cache), AscendingKeys(Touched(acc))))
        && allInvalid == (old(allInvalid) || (acc.addedCounts != map[] && 0 in Touched(acc)))
        && lastCleanup == old(lastCleanup)
    {
      var scope := GetStorageKeys(accountId, playerGuid, accountWide);
      var stored := ScopeRows(rows, scope);
      var existing := AmountsOf(stored);
      var fromDb := SubclassesOf(stored);
      var accum := AccumulateInventory(storage, catalog, None);
      deposited := accum.addedCounts;
      if accum.addedCounts == map[] {
        return;
      }
      var addedOrder := AscendingKeys(accum.addedCounts.Keys);
      var seenOrder := AscendingKeys(accum.subclassByEntry.Keys);
      if auditOn {
        AppendDepositRecords(scope, addedOrder, accum.addedCounts, accum.subclassByEntry, None, now);
      }
      var final := MergeAmounts(existing, accum.addedCounts, addedOrder);
      var merged := MergeSubclasses(fromDb, accum.subclassByEntry, seenOrder);
      MergeDepositIsMerged(existing, accum.addedCounts, addedOrder);
      MergeSubclassIsOverlay(fromDb, accum.subclassByEntry, seenOrder);
      SweepKeys(old(storage[..]), catalog, None, 0);
      StoredRows(old(rows), scope);
      MergeFlushIsDepositAll(old(rows), scope, accum, existing, fromDb);
      Flush(scope, final, merged);
      var touched := CollectTouched(accum.subclassByEntry, seenOrder);
      InvalidateTouched(touched);
      DepositAllKeepsFit(old(rows), scope, accum);
    }

    /** `DepositAllReagentsForCategory`: the same, restricted to the items stored under `subclass`. */
    method DepositAllReagentsForCategory(storage: array<Position>, catalog: ItemCatalog, accountId: nat, playerGuid: nat,
                                         subclass: nat, now: int)
      returns (deposited: map<nat, nat>)
      requires Valid()
      modifies this, storage
      ensures Valid()
      ensures var scope := GetStorageKeys(accountId, playerGuid, accountWide);
              var acc := Sweep(old(storage[..]), catalog, Some(subclass));
        && storage[..] == Swept(old(storage[..]), catalog, Some(subclass))
        && deposited == acc.addedCounts
        && rows == DepositCategory(old(rows), scope, subclass, acc)
        && auditLog == old(auditLog) + (if auditOn && acc.addedCounts != map[] then DepositRecords(scope, acc, Some(subclass), now) else [])
        && cache == (if acc.addedCounts == map[] then old(cache) else Invalidate(old(cache), subclass))
        && allInvalid == (old(allInvalid) || (acc.addedCounts != map[] && subclass == 0))
        && lastCleanup == old(lastCleanup)
    {
      var scope := GetStorageKeys(accountId, playerGuid, accountWide);
      var existing := CategoryAmounts(rows, scope, subclass);
      var accum := AccumulateInventory(storage, catalog, Some(subclass));
      deposited := accum.addedCounts;
      if accum.addedCounts == map[] {
        return;
      }
      var addedOrder := AscendingKeys(accum.addedCounts.Keys);
      if auditOn {
        AppendDepositRecords(scope, addedOrder, accum.addedCounts, accum.subclassByEntry, Some(subclass), now);
      }
      var final := MergeAmounts(existing, accum.addedCounts, addedOrder);
      var stamped := StampCategory(subclass, AscendingKeys(final.Keys));
      MergeDepositIsMerged(existing, accum.addedCounts, addedOrder);
      UniformSubclassIsStamp(subclass, AscendingKeys(final.Keys), final.Keys);
      MergeFlushIsDepositCategory(old(rows), scope, subclass, accum);
      Flush(scope, final, stamped);
      InvalidateCategorySummary(subclass);
      DepositCategoryKeepsFit(old(rows), scope, subclass, accum);
    }

    // ---- withdraw a category ----

    /** One iteration of the give loop of `WithdrawAllInCategory`, auditing what it handed out. */
    method GiveRow(ctx: Context, it: Request, any0: bool, calls0: nat, ghost handed0: map<nat, nat>)
      returns (any: bool, calls: nat, ghost handed: map<nat, nat>)
      requires StackSizesKnown(ctx) && ctx.auditOn == auditOn
      modifies this
      ensures Progress(rows, auditLog, any, calls, handed)
           == Apply(Progress(old(rows), old(auditLog), any0, calls0, handed0), ctx, SinglePass, it)
      ensures cache == old(cache) && allInvalid == old(allInvalid) && lastCleanup == old(lastCleanup)
    {
      any, calls, handed := any0, calls0, handed0;
      var allowed := Get0(ctx.sim, it.entry);
      if allowed == 0 || it.entry !in ctx.catalog {
        return;
      }
      var stackSize := ctx.catalog[it.entry].maxStack;
      var given, remainingBank;
      given, remainingBank, calls := HandOut(allowed, it.amount, stackSize, ctx.accepts, calls);
      any := any || given > 0;
      var key := KeyOf(ctx.scope, it.entry);
      if remainingBank == 0 {
        rows := Delete(rows, key);
      } else if remainingBank != it.amount {
        rows := SetAmount(rows, key, remainingBank);
      }
      if auditOn && given > 0 {
        auditLog := auditLog + [WithdrawRecord(ctx, it.entry, given)];
      }
      handed := handed[it.entry := given];
    }

    /** The give loop of `WithdrawAllInCategory` over the category's rows. */
    method GiveLoop(ctx: Context, items: seq<Request>) returns (any: bool, calls: nat, ghost handed: map<nat, nat>)
      requires StackSizesKnown(ctx) && ctx.auditOn == auditOn
      modifies this
      ensures Progress(rows, auditLog, any, calls, handed)
           == Run(Progress(old(rows), old(auditLog), false, 0, map[]), ctx, SinglePass, items)
      ensures cache == old(cache) && allInvalid == old(allInvalid) && lastCleanup == old(lastCleanup)
    {
      ghost var p0 := Progress(rows, auditLog, false, 0, map[]);
      any, calls, handed := false, 0, map[];
      for i := 0 to |items|
        invariant Progress(rows, auditLog, any, calls, handed) == Run(p0, ctx, SinglePass, items[..i])
        invariant lastCleanup == old(lastCleanup) && cache == old(cache) && allInvalid == old(allInvalid)
      {
        assert items[..i + 1][..i] == items[..i];
        any, calls, handed := GiveRow(ctx, items[i], any, calls, handed);
      }
      assert items[..|items|] == items;
    }

    /**
     * `WithdrawAllInCategory`: simulates the grants for the category's rows, hands the stacks out,
     * and debits and audits what was handed out (the corrected settlement,
     * `Settlement.WithdrawCategoryFixed`); when a stack was handed out it also runs the audit sweep
     * and invalidates the category.
     */
    method WithdrawAllInCategory(storage: seq<Position>, catalog: ItemCatalog, accountId: nat, playerGuid: nat,
                                 subclass: nat, accepts: nat -> bool, now: int)
      returns (any: bool)
      requires Valid()
      modifies this
      ensures Valid()
      ensures var scope := GetStorageKeys(accountId, playerGuid, accountWide);
              var r := WithdrawCategoryFixed(old(rows), old(auditLog), storage, catalog, scope, subclass, accepts, auditOn, now);
              var due := CleanupDue(auditOn, old(lastCleanup), now, cleanupIntervalSeconds);
        && any == r.any
        && rows == r.rows
        && auditLog == (if r.any && due then Expire(r.log, now - retentionSeconds) else r.log)
        && lastCleanup == (if r.any && due then now else old(lastCleanup))
        && cache == (if r.any then Invalidate(old(cache), subclass) else old(cache))
        && allInvalid == (old(allInvalid) || (r.any && subclass == 0))
    {
      var scope := GetStorageKeys(accountId, playerGuid, accountWide);
      var items := CategoryItems(rows, scope, subclass);
      CategorySound(rows, storage, catalog, scope, subclass, accepts, auditOn, now);
      WithdrawCategoryFixedKeepsFit(rows, auditLog, storage, catalog, scope, subclass, accepts, auditOn, now);
      var sim := SimulateBatchAdd(storage, items, catalog);
      var ctx := Context(scope, subclass, catalog, sim, accepts, auditOn, now);
      var calls;
      ghost var handed;
      any, calls, handed := GiveLoop(ctx, items);
      if !any {
        return;
      }
      if auditOn {
        EnsureAuditCleanup(now);
      }
      InvalidateCategorySummary(subclass);
    }
  }
}
