/**
 * The withdraw settlements: the single-item withdraw capped at one stack, and the
 * category withdraw, which hands stacks out against the store check and then writes the balance
 * table and the audit log.
 *
 * `CanStoreNewItem` is an oracle: `accepts(c)` is the answer of the c-th store check of the flow,
 * which covers every behaviour of the host's inventory code.
 */
module Settlement {
  import opened Wrappers
  import opened Numeric
  import opened Catalog
  import opened Ledger
  import opened Audit
  import opened Inventory
  import opened Simulator

  // ======== single-item withdraw ========

  datatype WithdrawReply = NoStoredRow | NoTemplate | NoSpace(count: nat) | Withdrew(count: nat)

  /** What one `WithdrawItem` does: the reply, the new table and the category it invalidates. */
  datatype SingleWithdraw = SingleWithdraw(reply: WithdrawReply, rows: Table, invalidated: Option<nat>)

  /**
   * `WithdrawItem` as written: at most one stack, one store check whose answer is `accepted`;
   * on success the category named by the template's own subclass is invalidated.
   */
  function WithdrawOne(t: Table, scope: StorageKey, entry: nat, catalog: ItemCatalog, accepted: bool): SingleWithdraw {
    WithdrawOneInvalidating(t, scope, entry, catalog, accepted, false)
  }

  /** The same flow, invalidating the category the row is stored under. */
  function WithdrawOneFixed(t: Table, scope: StorageKey, entry: nat, catalog: ItemCatalog, accepted: bool): SingleWithdraw {
    WithdrawOneInvalidating(t, scope, entry, catalog, accepted, true)
  }

  function WithdrawOneInvalidating(t: Table, scope: StorageKey, entry: nat, catalog: ItemCatalog, accepted: bool, byRow: bool): SingleWithdraw {
    var key := KeyOf(scope, entry);
    if key !in t then SingleWithdraw(NoStoredRow, t, None)
    else if entry !in catalog then SingleWithdraw(NoTemplate, t, None)
    else
      var stored := t[key].amount;
      var stackSize := catalog[entry].maxStack;
      var category := if byRow then t[key].subclass else catalog[entry].subClass;
      if stored <= stackSize then
        if accepted then SingleWithdraw(Withdrew(stored), Delete(t, key), Some(category))
        else SingleWithdraw(NoSpace(stored), t, None)
      else if accepted then SingleWithdraw(Withdrew(stackSize), SetAmount(t, key, stored - stackSize), Some(category))
      else SingleWithdraw(NoSpace(stackSize), t, None)
  }

  /**
   * One stack at most: a successful withdraw hands out `min(stored, stackSize)` and leaves the rest,
   * deleting the row when nothing is left; any failure leaves the table alone and invalidates nothing.
   */
  lemma WithdrawOneSettles(t: Table, scope: StorageKey, entry: nat, catalog: ItemCatalog, accepted: bool, byRow: bool)
    ensures var w := WithdrawOneInvalidating(t, scope, entry, catalog, accepted, byRow);
      && (w.reply.Withdrew? <==> KeyOf(scope, entry) in t && entry in catalog && accepted)
      && (!w.reply.Withdrew? ==> w.rows == t && w.invalidated == None)
      && (w.reply.Withdrew? ==>
            && w.reply.count == Min(t[KeyOf(scope, entry)].amount, catalog[entry].maxStack)
            && Balance(w.rows, KeyOf(scope, entry)) + w.reply.count == t[KeyOf(scope, entry)].amount
            && (KeyOf(scope, entry) in w.rows <==> t[KeyOf(scope, entry)].amount > catalog[entry].maxStack)
            && w.invalidated.Some?)
      && (w.reply.NoSpace? ==> w.reply.count == Min(t[KeyOf(scope, entry)].amount, catalog[entry].maxStack))
      && (forall k | k != KeyOf(scope, entry) :: RowAt(w.rows, k) == RowAt(t, k))
  {
  }

  /** A single withdraw only lowers a balance, so every amount still fits its `uint32` column. */
  lemma WithdrawOneKeepsFit(t: Table, scope: StorageKey, entry: nat, catalog: ItemCatalog, accepted: bool)
    requires AmountsFit(t)
    ensures AmountsFit(WithdrawOneFixed(t, scope, entry, catalog, accepted).rows)
  {
    WithdrawOneSettles(t, scope, entry, catalog, accepted, true);
  }

  /** The single-item withdraw never touches a category other than the stored row's. */
  lemma {:induction false} OtherCategoriesUnchanged(t: Table, scope: StorageKey, entry: nat, catalog: ItemCatalog, accepted: bool, c: nat)
    requires KeyOf(scope, entry) in t && t[KeyOf(scope, entry)].subclass != c
    ensures var w := WithdrawOneFixed(t, scope, entry, catalog, accepted);
      ComputeSummary(w.rows, scope, c) == ComputeSummary(t, scope, c)
  {
    var w := WithdrawOneFixed(t, scope, entry, catalog, accepted);
    WithdrawOneSettles(t, scope, entry, catalog, accepted, true);
    var key := KeyOf(scope, entry);
    assert forall k | k in w.rows :: k in t && w.rows[k].subclass == t[k].subclass;
    assert CategoryAmounts(w.rows, scope, c) == CategoryAmounts(t, scope, c) by {
      forall e ensures KeyOf(scope, e) in w.rows && w.rows[KeyOf(scope, e)].subclass == c
                   <==> KeyOf(scope, e) in t && t[KeyOf(scope, e)].subclass == c {
        assert RowAt(w.rows, KeyOf(scope, e)) == RowAt(t, KeyOf(scope, e)) || KeyOf(scope, e) == key;
      }
    }
  }

  /**
   * The stored row's category loses exactly what a successful withdraw hands out, and one
   * distinct item when the row is deleted; a failed withdraw leaves it as it was.
   */
  lemma WithdrawOneLowersSummary(t: Table, scope: StorageKey, entry: nat, catalog: ItemCatalog, accepted: bool)
    requires KeyOf(scope, entry) in t
    ensures var w := WithdrawOneFixed(t, scope, entry, catalog, accepted);
      var c := t[KeyOf(scope, entry)].subclass;
      && (w.reply.Withdrew? ==>
            && ComputeSummary(w.rows, scope, c).totalAmount + w.reply.count == ComputeSummary(t, scope, c).totalAmount
            && ComputeSummary(w.rows, scope, c).distinctItems
               == ComputeSummary(t, scope, c).distinctItems - (if KeyOf(scope, entry) in w.rows then 0 else 1))
      && (!w.reply.Withdrew? ==> ComputeSummary(w.rows, scope, c) == ComputeSummary(t, scope, c))
  {
    var key := KeyOf(scope, entry);
    if entry in catalog && accepted {
      var stored := t[key].amount;
      var stackSize := catalog[entry].maxStack;
      if stored <= stackSize {
        SummaryAfterDelete(t, scope, entry);
      } else {
        SummaryAfterSetAmount(t, scope, entry, stored - stackSize);
      }
    }
  }

  /**
   * The corrected withdraw invalidates the category whose summary can have changed, so every
   * category it leaves cached still has the summary it had.
   */
  lemma WithdrawOneFixedInvalidatesStoredCategory(t: Table, scope: StorageKey, entry: nat, catalog: ItemCatalog, accepted: bool, c: nat)
    requires KeyOf(scope, entry) in t
    requires WithdrawOneFixed(t, scope, entry, catalog, accepted).invalidated != Some(c)
    ensures ComputeSummary(WithdrawOneFixed(t, scope, entry, catalog, accepted).rows, scope, c) == ComputeSummary(t, scope, c)
  {
    if t[KeyOf(scope, entry)].subclass != c {
      OtherCategoriesUnchanged(t, scope, entry, catalog, accepted, c);
    }
  }

  /**
   * As written, withdrawing the last blue gem (gem subclass 1, stored under Jewelcrafting) invalidates
   * category 1 (Parts) while the Jewelcrafting summary drops from one item of 5 to nothing.
   */
  lemma GemWithdrawInvalidatesWrongCategory(scope: StorageKey, entry: nat)
    ensures var t := map[KeyOf(scope, entry) := Row(ITEM_SUBCLASS_JEWELCRAFTING, 5)];
            var catalog := map[entry := ItemTemplate(ITEM_CLASS_GEM, 1, 20, 0)];
            var w := WithdrawOne(t, scope, entry, catalog, true);
      && w.invalidated == Some(ITEM_SUBCLASS_PARTS)
      && ComputeSummary(t, scope, ITEM_SUBCLASS_JEWELCRAFTING) == Summary(1, 5)
      && ComputeSummary(w.rows, scope, ITEM_SUBCLASS_JEWELCRAFTING) == Summary(0, 0)
  {
    var t := map[KeyOf(scope, entry) := Row(ITEM_SUBCLASS_JEWELCRAFTING, 5)];
    var catalog := map[entry := ItemTemplate(ITEM_CLASS_GEM, 1, 20, 0)];
    var w := WithdrawOne(t, scope, entry, catalog, true);
    assert w.rows == map[];
    SingleRowCategory(scope, entry, ITEM_SUBCLASS_JEWELCRAFTING, 5);
    EmptyCategory(scope, ITEM_SUBCLASS_JEWELCRAFTING);
  }

  lemma SingleRowCategory(scope: StorageKey, entry: nat, subclass: nat, amount: nat)
    ensures ComputeSummary(map[KeyOf(scope, entry) := Row(subclass, amount)], scope, subclass) == Summary(1, amount)
  {
    var m := CategoryAmounts(map[KeyOf(scope, entry) := Row(subclass, amount)], scope, subclass);
    assert m == map[entry := amount];
    assert MinKey(m.Keys) == entry;
    assert m - {entry} == map[];
    assert m.Keys == {entry};
    assert |m| == |m.Keys| == 1;
    assert SumAmounts(m) == amount + SumAmounts(map[]);
  }

  lemma EmptyCategory(scope: StorageKey, subclass: nat)
    ensures ComputeSummary(map[], scope, subclass) == Summary(0, 0)
  {
    assert CategoryAmounts(map[], scope, subclass) == map[];
  }

  // ======== the give loop of the category withdraw ========

  /** What the give loop hands out, and the store-check counter after it. */
  datatype Handout = Handout(given: nat, calls: nat)

  /** Stacks of `min(stackSize, remaining)` while the store check accepts; the first refusal ends the loop. */
  function GiveStacks(remaining: nat, stackSize: nat, accepts: nat -> bool, call: nat): (h: Handout)
    requires stackSize > 0
    decreases remaining
  {
    if remaining == 0 then Handout(0, call)
    else if !accepts(call) then Handout(0, call + 1)
    else
      var toGive := Min(stackSize, remaining);
      var rest := GiveStacks(remaining - toGive, stackSize, accepts, call + 1);
      Handout(toGive + rest.given, rest.calls)
  }

  /** The loop never hands out more than it was allowed, and makes at least one check per stack. */
  lemma {:induction false} GiveStacksAtMost(remaining: nat, stackSize: nat, accepts: nat -> bool, call: nat)
    requires stackSize > 0
    ensures GiveStacks(remaining, stackSize, accepts, call).given <= remaining
    ensures call <= GiveStacks(remaining, stackSize, accepts, call).calls
    decreases remaining
  {
    if remaining > 0 && accepts(call) {
      GiveStacksAtMost(remaining - Min(stackSize, remaining), stackSize, accepts, call + 1);
    }
  }

  /** Everything allowed is handed out exactly when every store check the loop made was accepted. */
  lemma {:induction false} GiveStacksAllIff(remaining: nat, stackSize: nat, accepts: nat -> bool, call: nat)
    requires stackSize > 0
    ensures var h := GiveStacks(remaining, stackSize, accepts, call);
      h.given == remaining <==> forall c | call <= c < h.calls :: accepts(c)
    decreases remaining
  {
    var h := GiveStacks(remaining, stackSize, accepts, call);
    if remaining > 0 && accepts(call) {
      var toGive := Min(stackSize, remaining);
      GiveStacksAllIff(remaining - toGive, stackSize, accepts, call + 1);
      var rest := GiveStacks(remaining - toGive, stackSize, accepts, call + 1);
      if h.given == remaining {
        forall c | call <= c < h.calls ensures accepts(c) {
          if c != call {
            assert call + 1 <= c < rest.calls;
          }
        }
      }
    } else if remaining > 0 {
      assert call <= call < h.calls && !accepts(call);
    }
  }

  /** A short handout gives one full stack per accepted check, and the last check was the refused one. */
  lemma {:induction false} GiveStacksShort(remaining: nat, stackSize: nat, accepts: nat -> bool, call: nat)
    requires stackSize > 0
    requires GiveStacks(remaining, stackSize, accepts, call).given < remaining
    ensures var h := GiveStacks(remaining, stackSize, accepts, call);
      h.calls > call && h.given == (h.calls - call - 1) * stackSize && !accepts(h.calls - 1)
    decreases remaining
  {
    if accepts(call) {
      var toGive := Min(stackSize, remaining);
      var rest := GiveStacks(remaining - toGive, stackSize, accepts, call + 1);
      GiveStacksShort(remaining - toGive, stackSize, accepts, call + 1);
      assert toGive == stackSize;
      assert (rest.calls - (call + 1) - 1) * stackSize + stackSize == (rest.calls - call - 1) * stackSize;
    }
  }

  /** The give loop of `WithdrawAllInCategory`: counts `remainingToGive` and `remainingBank` down. */
  method HandOut(allowed: nat, amount: nat, stackSize: nat, accepts: nat -> bool, call0: nat)
    returns (given: nat, remainingBank: nat, calls: nat)
    requires stackSize > 0
    ensures Handout(given, calls) == GiveStacks(allowed, stackSize, accepts, call0)
    ensures remainingBank == Wrap32(amount - given)
  {
    var remainingToGive: nat := allowed;
    remainingBank := Wrap32(amount);
    calls := call0;
    while remainingToGive > 0
      invariant remainingToGive <= allowed
      invariant GiveStacks(allowed, stackSize, accepts, call0)
             == var h := GiveStacks(remainingToGive, stackSize, accepts, calls);
                Handout(allowed - remainingToGive + h.given, h.calls)
      invariant remainingBank == Wrap32(amount - (allowed - remainingToGive))
      decreases remainingToGive
    {
      var toGive := Min(stackSize, remainingToGive);
      if !accepts(calls) {
        calls := calls + 1;
        break;
      }
      calls := calls + 1;
      Wrap32Sub(amount - (allowed - remainingToGive), toGive);
      remainingToGive := remainingToGive - toGive;
      remainingBank := Wrap32(remainingBank - toGive);
    }
    given := allowed - remainingToGive;
  }

  // ======== the category withdraw ========

  /**
   * The fixed inputs of one `WithdrawAllInCategory`: the pool, the category, the simulator's grants,
   * the store-check oracle, whether auditing is on, and the audit timestamp.
   */
  datatype Context = Context(scope: StorageKey, subclass: nat, catalog: ItemCatalog, sim: map<nat, nat>,
                             accepts: nat -> bool, auditOn: bool, now: int)

  /** Every entry the simulator grants something has a template with a non-zero stack size. */
  predicate StackSizesKnown(ctx: Context) {
    forall e | e in ctx.sim && ctx.sim[e] > 0 :: e in ctx.catalog && ctx.catalog[e].maxStack > 0
  }

  /** The state threaded through the passes; `handed` is what the give loop stored per entry. */
  datatype Progress = Progress(rows: Table, log: Log, any: bool, calls: nat, handed: map<nat, nat>)

  /**
   * `FirstPass` and `SecondPass` are the two loops over the rows as written; `SinglePass` is the
   * corrected settlement: the first loop, auditing what was handed out, with no second loop.
   */
  datatype Pass = FirstPass | SecondPass | SinglePass

  /** `DELETE` when nothing is left, `UPDATE` when the balance changed, no statement otherwise. */
  function WriteBack(t: Table, key: RowKey, amount: nat, remaining: nat): Table {
    if remaining == 0 then Delete(t, key)
    else if remaining != amount then SetAmount(t, key, remaining)
    else t
  }

  function WithdrawRecord(ctx: Context, entry: nat, delta: nat): AuditRecord {
    AuditRecord(ctx.now, ctx.scope.accountId, ctx.scope.guid, Withdraw, entry, ctx.subclass, delta)
  }

  /** One loop body on one `(entry, amount)` row of the category. */
  function Apply(p: Progress, ctx: Context, pass: Pass, it: Request): Progress
    requires StackSizesKnown(ctx)
  {
    var allowed := Get0(ctx.sim, it.entry);
    var key := KeyOf(ctx.scope, it.entry);
    if allowed == 0 then p
    else if pass == SecondPass then
      var remaining := if it.amount > allowed then it.amount - allowed else 0;
      p.(rows := WriteBack(p.rows, key, it.amount, remaining),
         log := if ctx.auditOn then p.log + [WithdrawRecord(ctx, it.entry, allowed)] else p.log)
    else if it.entry !in ctx.catalog then p
    else
      var h := GiveStacks(allowed, ctx.catalog[it.entry].maxStack, ctx.accepts, p.calls);
      var delta := if pass == FirstPass then allowed else h.given;
      Progress(WriteBack(p.rows, key, it.amount, Wrap32(it.amount - h.given)),
               if ctx.auditOn && delta > 0 then p.log + [WithdrawRecord(ctx, it.entry, delta)] else p.log,
               p.any || h.given > 0,
               h.calls,
               p.handed[it.entry := h.given])
  }

  /** One loop over the rows, in order. */
  function Run(p: Progress, ctx: Context, pass: Pass, items: seq<Request>): Progress
    requires StackSizesKnown(ctx)
  {
    if items == [] then p
    else Apply(Run(p, ctx, pass, items[..|items| - 1]), ctx, pass, items[|items| - 1])
  }

  /** `WithdrawAllInCategory` as written: the first loop, and the second one when a stack was handed out. */
  function Settle(t: Table, log: Log, items: seq<Request>, ctx: Context): Progress
    requires StackSizesKnown(ctx)
  {
    var first := Run(Progress(t, log, false, 0, map[]), ctx, FirstPass, items);
    if first.any then Run(first, ctx, SecondPass, items) else first
  }

  /** The corrected settlement: debit and audit exactly what was handed out. */
  function SettleFixed(t: Table, log: Log, items: seq<Request>, ctx: Context): Progress
    requires StackSizesKnown(ctx)
  {
    Run(Progress(t, log, false, 0, map[]), ctx, SinglePass, items)
  }

  // ---- per-entry reasoning ----

  /** What the flow has done to one entry: its row, what it handed out, its audited net movement. */
  datatype View = View(row: Option<Row>, handed: nat, net: int)

  function ViewOf(p: Progress, ctx: Context, e: nat): View {
    View(RowAt(p.rows, KeyOf(ctx.scope, e)), Get0(p.handed, e),
         NetMovement(p.log, ctx.scope.accountId, ctx.scope.guid, e, ctx.subclass))
  }

  predicate DistinctEntries(items: seq<Request>) {
    forall i, j | 0 <= i < j < |items| :: items[i].entry != items[j].entry
  }

  /** The rows match the balance table, which holds `uint32` amounts, and the grants never exceed them. */
  predicate Sound(t: Table, ctx: Context, items: seq<Request>) {
    && StackSizesKnown(ctx)
    && DistinctEntries(items)
    && forall i | 0 <= i < |items| ::
         && KeyOf(ctx.scope, items[i].entry) in t
         && t[KeyOf(ctx.scope, items[i].entry)].amount == items[i].amount
         && IsU32(items[i].amount)
         && Get0(ctx.sim, items[i].entry) <= items[i].amount
  }

  lemma WriteBackOther(t: Table, key: RowKey, amount: nat, remaining: nat, k: RowKey)
    requires k != key
    ensures RowAt(WriteBack(t, key, amount, remaining), k) == RowAt(t, k)
  {
  }

  /** A loop body for one row leaves every other entry as it was. */
  lemma ApplyOther(p: Progress, ctx: Context, pass: Pass, it: Request, e: nat)
    requires StackSizesKnown(ctx)
    requires e != it.entry
    ensures ViewOf(Apply(p, ctx, pass, it), ctx, e) == ViewOf(p, ctx, e)
  {
    var q := Apply(p, ctx, pass, it);
    WriteBackOther(p.rows, KeyOf(ctx.scope, it.entry), it.amount, 0, KeyOf(ctx.scope, e));
    if q.log != p.log {
      var d :| q.log == p.log + [WithdrawRecord(ctx, it.entry, d)];
      NetMovementPush(p.log, WithdrawRecord(ctx, it.entry, d), ctx.scope.accountId, ctx.scope.guid, e, ctx.subclass);
    }
  }

  lemma {:induction false} RunOther(p: Progress, ctx: Context, pass: Pass, items: seq<Request>, e: nat)
    requires StackSizesKnown(ctx)
    requires forall i | 0 <= i < |items| :: items[i].entry != e
    ensures ViewOf(Run(p, ctx, pass, items), ctx, e) == ViewOf(p, ctx, e)
  {
    if items != [] {
      var init := items[..|items| - 1];
      RunOther(p, ctx, pass, init, e);
      ApplyOther(Run(p, ctx, pass, init), ctx, pass, items[|items| - 1], e);
    }
  }

  lemma {:induction false} RunAppend(p: Progress, ctx: Context, pass: Pass, a: seq<Request>, b: seq<Request>)
    requires StackSizesKnown(ctx)
    ensures Run(p, ctx, pass, a + b) == Run(Run(p, ctx, pass, a), ctx, pass, b)
    decreases |b|
  {
    if b == [] {
      assert a + b == a;
    } else {
      assert (a + b)[..|a + b| - 1] == a + b[..|b| - 1];
      RunAppend(p, ctx, pass, a, b[..|b| - 1]);
    }
  }

  /** With distinct entries, an entry's fate is decided by its own loop body alone. */
  lemma RunAt(p: Progress, ctx: Context, pass: Pass, items: seq<Request>, i: nat)
    requires StackSizesKnown(ctx) && DistinctEntries(items) && i < |items|
    ensures ViewOf(Run(p, ctx, pass, items[..i]), ctx, items[i].entry) == ViewOf(p, ctx, items[i].entry)
    ensures ViewOf(Run(p, ctx, pass, items), ctx, items[i].entry)
         == ViewOf(Apply(Run(p, ctx, pass, items[..i]), ctx, pass, items[i]), ctx, items[i].entry)
  {
    var e := items[i].entry;
    RunOther(p, ctx, pass, items[..i], e);
    assert items == items[..i + 1] + items[i + 1..];
    RunAppend(p, ctx, pass, items[..i + 1], items[i + 1..]);
    assert items[..i + 1][..i] == items[..i];
    RunOther(Run(p, ctx, pass, items[..i + 1]), ctx, pass, items[i + 1..], e);
  }

  /** Once a stack has been handed out, later loop bodies keep `any` set. */
  lemma {:induction false} RunKeepsAny(p: Progress, ctx: Context, pass: Pass, items: seq<Request>)
    requires StackSizesKnown(ctx) && p.any
    ensures Run(p, ctx, pass, items).any
  {
    if items != [] {
      RunKeepsAny(p, ctx, pass, items[..|items| - 1]);
    }
  }

  /** The second loop hands nothing out. */
  lemma {:induction false} SecondPassKeeps(p: Progress, ctx: Context, items: seq<Request>)
    requires StackSizesKnown(ctx)
    ensures Run(p, ctx, SecondPass, items).any == p.any
    ensures Run(p, ctx, SecondPass, items).handed == p.handed
  {
    if items != [] {
      SecondPassKeeps(p, ctx, items[..|items| - 1]);
    }
  }

  /** `any` is set after the loop exactly when it was set at the row's own body or elsewhere; a clear flag means this row got nothing. */
  lemma AnyClearMeansNothing(p: Progress, ctx: Context, pass: Pass, items: seq<Request>, i: nat)
    requires StackSizesKnown(ctx) && i < |items|
    requires !Run(p, ctx, pass, items).any
    ensures !Apply(Run(p, ctx, pass, items[..i]), ctx, pass, items[i]).any
  {
    assert items == items[..i + 1] + items[i + 1..];
    RunAppend(p, ctx, pass, items[..i + 1], items[i + 1..]);
    assert items[..i + 1][..i] == items[..i];
    if Apply(Run(p, ctx, pass, items[..i]), ctx, pass, items[i]).any {
      RunKeepsAny(Run(p, ctx, pass, items[..i + 1]), ctx, pass, items[i + 1..]);
    }
  }

  /** The row a give-and-write-back leaves: the old balance less what was handed out. */
  function AfterHandout(sc: nat, amount: nat, given: nat): Option<Row>
    requires given <= amount
  {
    if given == amount then None else Some(Row(sc, amount - given))
  }

  /** The first loop body (or the corrected one) on a row it has not touched yet. */
  lemma ApplyGiveView(p: Progress, ctx: Context, pass: Pass, it: Request, sc: nat)
    requires StackSizesKnown(ctx) && pass != SecondPass
    requires 0 < Get0(ctx.sim, it.entry) <= it.amount && IsU32(it.amount)
    requires RowAt(p.rows, KeyOf(ctx.scope, it.entry)) == Some(Row(sc, it.amount))
    ensures var q := Apply(p, ctx, pass, it);
            var g := Get0(q.handed, it.entry);
            var allowed := Get0(ctx.sim, it.entry);
      && g <= allowed
      && RowAt(q.rows, KeyOf(ctx.scope, it.entry)) == AfterHandout(sc, it.amount, g)
      && q.any == (p.any || g > 0)
      && ViewOf(q, ctx, it.entry).net
         == ViewOf(p, ctx, it.entry).net - (if ctx.auditOn then (if pass == FirstPass then allowed else g) else 0)
  {
    var allowed := Get0(ctx.sim, it.entry);
    var h := GiveStacks(allowed, ctx.catalog[it.entry].maxStack, ctx.accepts, p.calls);
    GiveStacksAtMost(allowed, ctx.catalog[it.entry].maxStack, ctx.accepts, p.calls);
    var q := Apply(p, ctx, pass, it);
    assert Wrap32(it.amount - h.given) == it.amount - h.given;
    var delta := if pass == FirstPass then allowed else h.given;
    if ctx.auditOn && delta > 0 {
      NetMovementPush(p.log, WithdrawRecord(ctx, it.entry, delta), ctx.scope.accountId, ctx.scope.guid, it.entry, ctx.subclass);
    }
  }

  /** The second loop body overwrites whatever the first one left with the old balance less the grant. */
  lemma ApplySecondView(p: Progress, ctx: Context, it: Request, sc: nat, g: nat)
    requires StackSizesKnown(ctx)
    requires 0 < Get0(ctx.sim, it.entry) <= it.amount && g <= Get0(ctx.sim, it.entry)
    requires RowAt(p.rows, KeyOf(ctx.scope, it.entry)) == AfterHandout(sc, it.amount, g)
    ensures var q := Apply(p, ctx, SecondPass, it);
            var allowed := Get0(ctx.sim, it.entry);
      && RowAt(q.rows, KeyOf(ctx.scope, it.entry)) == AfterHandout(sc, it.amount, allowed)
      && Get0(q.handed, it.entry) == Get0(p.handed, it.entry)
      && ViewOf(q, ctx, it.entry).net == ViewOf(p, ctx, it.entry).net - (if ctx.auditOn then allowed else 0)
  {
    var allowed := Get0(ctx.sim, it.entry);
    if ctx.auditOn {
      NetMovementPush(p.log, WithdrawRecord(ctx, it.entry, allowed), ctx.scope.accountId, ctx.scope.guid, it.entry, ctx.subclass);
    }
  }

  // ---- what the settlement does to each row ----

  /**
   * As written: a row with no grant is untouched. When some stack was handed out the row ends at
   * its balance less the whole grant, whatever the store checks let through, and WITHDRAW is
   * audited twice; when nothing was handed out the row is untouched but the grant is still audited.
   */
  lemma SettleAsWritten(t: Table, log: Log, items: seq<Request>, ctx: Context, i: nat)
    requires Sound(t, ctx, items) && i < |items|
    ensures var r := Settle(t, log, items, ctx);
            var e := items[i].entry;
            var key := KeyOf(ctx.scope, e);
            var allowed := Get0(ctx.sim, e);
            var net0 := NetMovement(log, ctx.scope.accountId, ctx.scope.guid, e, ctx.subclass);
            var net := NetMovement(r.log, ctx.scope.accountId, ctx.scope.guid, e, ctx.subclass);
      && Get0(r.handed, e) <= allowed
      && (allowed == 0 ==> RowAt(r.rows, key) == RowAt(t, key) && Get0(r.handed, e) == 0 && net == net0)
      && (allowed > 0 && r.any ==>
            && Balance(r.rows, key) == items[i].amount - allowed
            && net == net0 - (if ctx.auditOn then 2 * allowed else 0))
      && (allowed > 0 && !r.any ==>
            && RowAt(r.rows, key) == RowAt(t, key) && Get0(r.handed, e) == 0
            && net == net0 - (if ctx.auditOn then allowed else 0))
  {
    var e := items[i].entry;
    var key := KeyOf(ctx.scope, e);
    var allowed := Get0(ctx.sim, e);
    var p0 := Progress(t, log, false, 0, map[]);
    var first := Run(p0, ctx, FirstPass, items);
    RunAt(p0, ctx, FirstPass, items, i);
    var before := Run(p0, ctx, FirstPass, items[..i]);
    if allowed > 0 {
      var sc := t[key].subclass;
      ApplyGiveView(before, ctx, FirstPass, items[i], sc);
      var g := Get0(first.handed, e);
      if first.any {
        RunAt(first, ctx, SecondPass, items, i);
        SecondPassKeeps(first, ctx, items);
        var mid := Run(first, ctx, SecondPass, items[..i]);
        ApplySecondView(mid, ctx, items[i], sc, g);
        SecondPassKeeps(first, ctx, items[..i]);
      } else {
        AnyClearMeansNothing(p0, ctx, FirstPass, items, i);
      }
    } else if first.any {
      RunAt(first, ctx, SecondPass, items, i);
    }
  }

  /**
   * The corrected settlement conserves items: what is left in the bank plus what was handed out is
   * the old balance, and the audited net movement drops by exactly what was handed out.
   */
  lemma SettleFixedConserves(t: Table, log: Log, items: seq<Request>, ctx: Context, i: nat)
    requires Sound(t, ctx, items) && i < |items|
    ensures var r := SettleFixed(t, log, items, ctx);
            var e := items[i].entry;
            var key := KeyOf(ctx.scope, e);
            var net0 := NetMovement(log, ctx.scope.accountId, ctx.scope.guid, e, ctx.subclass);
      && Get0(r.handed, e) <= Get0(ctx.sim, e)
      && Balance(r.rows, key) + Get0(r.handed, e) == items[i].amount
      && (key in r.rows ==> r.rows[key].subclass == t[key].subclass)
      && NetMovement(r.log, ctx.scope.accountId, ctx.scope.guid, e, ctx.subclass)
         == net0 - (if ctx.auditOn then Get0(r.handed, e) else 0)
      && (Get0(r.handed, e) == 0 ==> RowAt(r.rows, key) == RowAt(t, key))
  {
    var e := items[i].entry;
    var key := KeyOf(ctx.scope, e);
    var p0 := Progress(t, log, false, 0, map[]);
    RunAt(p0, ctx, SinglePass, items, i);
    if Get0(ctx.sim, e) > 0 {
      ApplyGiveView(Run(p0, ctx, SinglePass, items[..i]), ctx, SinglePass, items[i], t[key].subclass);
    }
  }

  /** The corrected settlement leaves every row outside the withdrawn list alone. */
  lemma SettleFixedOthers(t: Table, log: Log, items: seq<Request>, ctx: Context, e: nat)
    requires StackSizesKnown(ctx)
    requires forall i | 0 <= i < |items| :: items[i].entry != e
    ensures ViewOf(SettleFixed(t, log, items, ctx), ctx, e) == ViewOf(Progress(t, log, false, 0, map[]), ctx, e)
  {
    RunOther(Progress(t, log, false, 0, map[]), ctx, SinglePass, items, e);
  }

  /** A host that accepts the first store check of the flow and refuses every later one. */
  predicate FirstCheckOnly(c: nat) {
    c == 0
  }

  lemma OneStackOfTwo()
    ensures GiveStacks(40, 20, FirstCheckOnly, 0) == Handout(20, 2)
  {
    assert GiveStacks(20, 20, FirstCheckOnly, 1) == Handout(0, 2);
  }

  function LossContext(scope: StorageKey, subclass: nat, e: nat, auditOn: bool, now: int): Context {
    Context(scope, subclass, map[e := ItemTemplate(ITEM_CLASS_TRADE_GOODS, subclass, 20, 0)],
            map[e := 40], FirstCheckOnly, auditOn, now)
  }

  lemma LossFirstLoop(scope: StorageKey, subclass: nat, e: nat, auditOn: bool, now: int)
    ensures StackSizesKnown(LossContext(scope, subclass, e, auditOn, now))
    ensures var p0 := Progress(map[KeyOf(scope, e) := Row(subclass, 60)], [], false, 0, map[]);
            var first := Run(p0, LossContext(scope, subclass, e, auditOn, now), FirstPass, [Request(e, 60)]);
      first.any && Get0(first.handed, e) == 20
  {
    var ctx := LossContext(scope, subclass, e, auditOn, now);
    var p0 := Progress(map[KeyOf(scope, e) := Row(subclass, 60)], [], false, 0, map[]);
    assert [Request(e, 60)][..0] == [];
    OneStackOfTwo();
    assert Run(p0, ctx, FirstPass, [Request(e, 60)]) == Apply(p0, ctx, FirstPass, Request(e, 60));
  }

  /**
   * A row of 60 with a grant of 40 in stacks of 20, where the host refuses the second stack:
   * one stack of 20 is handed out, but the second loop still leaves only 20 in the bank.
   */
  lemma SecondPassLosesItems(scope: StorageKey, subclass: nat, e: nat, auditOn: bool, now: int)
    ensures StackSizesKnown(LossContext(scope, subclass, e, auditOn, now))
    ensures var r := Settle(map[KeyOf(scope, e) := Row(subclass, 60)], [], [Request(e, 60)], LossContext(scope, subclass, e, auditOn, now));
      && Get0(r.handed, e) == 20
      && Balance(r.rows, KeyOf(scope, e)) == 20
      && Balance(r.rows, KeyOf(scope, e)) + Get0(r.handed, e) < 60
  {
    var ctx := LossContext(scope, subclass, e, auditOn, now);
    var t := map[KeyOf(scope, e) := Row(subclass, 60)];
    var items := [Request(e, 60)];
    LossFirstLoop(scope, subclass, e, auditOn, now);
    assert Sound(t, ctx, items);
    SettleAsWritten(t, [], items, ctx, 0);
    SecondPassKeeps(Run(Progress(t, [], false, 0, map[]), ctx, FirstPass, items), ctx, items);
  }

  // ---- the rows the category withdraw reads ----

  /** `SELECT item_entry, amount ... WHERE item_subclass = c` as the simulator's request list, in ascending entry order. */
  function CategoryItems(t: Table, scope: StorageKey, subclass: nat): (items: seq<Request>)
    ensures |items| == |CategoryAmounts(t, scope, subclass)|
  {
    var m := CategoryAmounts(t, scope, subclass);
    var keys := AscendingKeys(m.Keys);
    seq(|keys|, i requires 0 <= i < |keys| => Request(keys[i], m[keys[i]]))
  }

  /** The list holds rows of the category, with their stored amounts. */
  lemma CategoryItemsRows(t: Table, scope: StorageKey, subclass: nat, i: nat)
    requires i < |CategoryItems(t, scope, subclass)|
    ensures var it := CategoryItems(t, scope, subclass)[i];
      KeyOf(scope, it.entry) in t && t[KeyOf(scope, it.entry)] == Row(subclass, it.amount)
  {
    var m := CategoryAmounts(t, scope, subclass);
    var keys := AscendingKeys(m.Keys);
    assert keys[i] in m;
  }

  /** Each entry appears once, in ascending order. */
  lemma CategoryItemsAscending(t: Table, scope: StorageKey, subclass: nat)
    ensures DistinctEntries(CategoryItems(t, scope, subclass))
    ensures var items := CategoryItems(t, scope, subclass);
      forall i, j | 0 <= i < j < |items| :: items[i].entry < items[j].entry
  {
  }

  /** Every row of the category is in the list. */
  lemma CategoryItemsCover(t: Table, scope: StorageKey, subclass: nat, e: nat)
    requires KeyOf(scope, e) in t && t[KeyOf(scope, e)].subclass == subclass
    ensures exists i :: 0 <= i < |CategoryItems(t, scope, subclass)| && CategoryItems(t, scope, subclass)[i].entry == e
  {
    var m := CategoryAmounts(t, scope, subclass);
    var keys := AscendingKeys(m.Keys);
    assert e in keys;
    var i :| 0 <= i < |keys| && keys[i] == e;
    assert CategoryItems(t, scope, subclass)[i].entry == e;
  }

  /** Only the category's rows are in the list. */
  lemma CategoryItemsOnly(t: Table, scope: StorageKey, subclass: nat, e: nat)
    requires KeyOf(scope, e) !in t || t[KeyOf(scope, e)].subclass != subclass
    ensures forall i | 0 <= i < |CategoryItems(t, scope, subclass)| :: CategoryItems(t, scope, subclass)[i].entry != e
  {
    forall i | 0 <= i < |CategoryItems(t, scope, subclass)| ensures CategoryItems(t, scope, subclass)[i].entry != e {
      CategoryItemsRows(t, scope, subclass, i);
    }
  }

  /** With distinct entries, what was requested for an entry is its one row's amount. */
  lemma {:induction false} RequestedDistinct(items: seq<Request>, i: nat)
    requires DistinctEntries(items) && i < |items|
    ensures Requested(items, items[i].entry) == items[i].amount
  {
    var init := items[..|items| - 1];
    if i == |items| - 1 {
      NotRequested(init, items[i].entry);
    } else {
      RequestedDistinct(init, i);
    }
  }

  lemma {:induction false} NotRequested(items: seq<Request>, e: nat)
    requires forall j | 0 <= j < |items| :: items[j].entry != e
    ensures Requested(items, e) == 0
  {
    if items != [] {
      NotRequested(items[..|items| - 1], e);
    }
  }

  /** Every amount of the balance table fits its `uint32` column. */
  predicate AmountsFit(t: Table) {
    forall k | k in t :: IsU32(t[k].amount)
  }

  function CategoryContext(t: Table, storage: seq<Position>, catalog: ItemCatalog, scope: StorageKey, subclass: nat,
                           accepts: nat -> bool, auditOn: bool, now: int): Context
  {
    var items := CategoryItems(t, scope, subclass);
    Context(scope, subclass, catalog, Granted(storage, items, catalog), accepts, auditOn, now)
  }

  /** The simulator's grants for the category's rows meet what the settlement relies on. */
  lemma CategorySound(t: Table, storage: seq<Position>, catalog: ItemCatalog, scope: StorageKey, subclass: nat,
                      accepts: nat -> bool, auditOn: bool, now: int)
    requires AmountsFit(t)
    ensures Sound(t, CategoryContext(t, storage, catalog, scope, subclass, accepts, auditOn, now), CategoryItems(t, scope, subclass))
  {
    var items := CategoryItems(t, scope, subclass);
    var ctx := CategoryContext(t, storage, catalog, scope, subclass, accepts, auditOn, now);
    CategoryItemsAscending(t, scope, subclass);
    forall i | 0 <= i < |items| ensures KeyOf(scope, items[i].entry) in t && t[KeyOf(scope, items[i].entry)].amount == items[i].amount {
      CategoryItemsRows(t, scope, subclass, i);
    }
    forall e | e in ctx.sim && ctx.sim[e] > 0 ensures e in ctx.catalog && ctx.catalog[e].maxStack > 0 {
      GrantedHasTemplate(SnapshotOf(storage, catalog), items, catalog, e);
    }
    forall i | 0 <= i < |items| ensures Get0(ctx.sim, items[i].entry) <= items[i].amount {
      GrantedAtMostRequested(SnapshotOf(storage, catalog), items, catalog, items[i].entry);
      RequestedDistinct(items, i);
    }
  }

  /** `WithdrawAllInCategory` on the balance and audit tables, as written. */
  function WithdrawCategory(t: Table, log: Log, storage: seq<Position>, catalog: ItemCatalog, scope: StorageKey, subclass: nat,
                            accepts: nat -> bool, auditOn: bool, now: int): Progress
    requires AmountsFit(t)
  {
    CategorySound(t, storage, catalog, scope, subclass, accepts, auditOn, now);
    Settle(t, log, CategoryItems(t, scope, subclass), CategoryContext(t, storage, catalog, scope, subclass, accepts, auditOn, now))
  }

  /** The corrected `WithdrawAllInCategory`: one give loop that debits and audits what it handed out. */
  function WithdrawCategoryFixed(t: Table, log: Log, storage: seq<Position>, catalog: ItemCatalog, scope: StorageKey, subclass: nat,
                                 accepts: nat -> bool, auditOn: bool, now: int): Progress
    requires AmountsFit(t)
  {
    CategorySound(t, storage, catalog, scope, subclass, accepts, auditOn, now);
    SettleFixed(t, log, CategoryItems(t, scope, subclass), CategoryContext(t, storage, catalog, scope, subclass, accepts, auditOn, now))
  }

  /** The corrected settlement writes only `uint32` balances, so every amount still fits its column. */
  lemma {:induction false} SinglePassKeepsFit(p: Progress, ctx: Context, items: seq<Request>)
    requires StackSizesKnown(ctx)
    requires AmountsFit(p.rows)
    ensures AmountsFit(Run(p, ctx, SinglePass, items).rows)
  {
    if items != [] {
      SinglePassKeepsFit(p, ctx, items[..|items| - 1]);
    }
  }

  /** The corrected category withdraw keeps every amount of the table within `uint32`. */
  lemma WithdrawCategoryFixedKeepsFit(t: Table, log: Log, storage: seq<Position>, catalog: ItemCatalog, scope: StorageKey, subclass: nat,
                                      accepts: nat -> bool, auditOn: bool, now: int)
    requires AmountsFit(t)
    ensures AmountsFit(WithdrawCategoryFixed(t, log, storage, catalog, scope, subclass, accepts, auditOn, now).rows)
  {
    CategorySound(t, storage, catalog, scope, subclass, accepts, auditOn, now);
    SinglePassKeepsFit(Progress(t, log, false, 0, map[]), CategoryContext(t, storage, catalog, scope, subclass, accepts, auditOn, now),
                       CategoryItems(t, scope, subclass));
  }

  /** Either way, a row outside the category is never touched, and its entry gets no audit record. */
  lemma WithdrawCategoryOthers(t: Table, log: Log, storage: seq<Position>, catalog: ItemCatalog, scope: StorageKey, subclass: nat,
                               accepts: nat -> bool, auditOn: bool, now: int, e: nat)
    requires AmountsFit(t)
    requires KeyOf(scope, e) !in t || t[KeyOf(scope, e)].subclass != subclass
    ensures var ctx := CategoryContext(t, storage, catalog, scope, subclass, accepts, auditOn, now);
      ViewOf(WithdrawCategory(t, log, storage, catalog, scope, subclass, accepts, auditOn, now), ctx, e)
      == ViewOf(Progress(t, log, false, 0, map[]), ctx, e)
    ensures var ctx := CategoryContext(t, storage, catalog, scope, subclass, accepts, auditOn, now);
      ViewOf(WithdrawCategoryFixed(t, log, storage, catalog, scope, subclass, accepts, auditOn, now), ctx, e)
      == ViewOf(Progress(t, log, false, 0, map[]), ctx, e)
  {
    var items := CategoryItems(t, scope, subclass);
    var ctx := CategoryContext(t, storage, catalog, scope, subclass, accepts, auditOn, now);
    CategorySound(t, storage, catalog, scope, subclass, accepts, auditOn, now);
    CategoryItemsOnly(t, scope, subclass, e);
    var p0 := Progress(t, log, false, 0, map[]);
    RunOther(p0, ctx, FirstPass, items, e);
    RunOther(p0, ctx, SinglePass, items, e);
    var first := Run(p0, ctx, FirstPass, items);
    if first.any {
      RunOther(first, ctx, SecondPass, items, e);
    }
  }

  /**
   * The corrected category withdraw conserves every row of the category: the bank keeps what was
   * not handed out, under the same category, and the audited net movement drops by what was handed out.
   */
  lemma WithdrawCategoryConserves(t: Table, log: Log, storage: seq<Position>, catalog: ItemCatalog, scope: StorageKey, subclass: nat,
                                  accepts: nat -> bool, auditOn: bool, now: int, e: nat)
    requires AmountsFit(t)
    requires KeyOf(scope, e) in t && t[KeyOf(scope, e)].subclass == subclass
    ensures var r := WithdrawCategoryFixed(t, log, storage, catalog, scope, subclass, accepts, auditOn, now);
            var key := KeyOf(scope, e);
      && Balance(r.rows, key) + Get0(r.handed, e) == t[key].amount
      && (key in r.rows ==> r.rows[key].subclass == subclass)
      && NetMovement(r.log, scope.accountId, scope.guid, e, subclass)
         == NetMovement(log, scope.accountId, scope.guid, e, subclass) - (if auditOn then Get0(r.handed, e) else 0)
  {
    var items := CategoryItems(t, scope, subclass);
    var ctx := CategoryContext(t, storage, catalog, scope, subclass, accepts, auditOn, now);
    CategorySound(t, storage, catalog, scope, subclass, accepts, auditOn, now);
    CategoryItemsCover(t, scope, subclass, e);
    var i :| 0 <= i < |items| && items[i].entry == e;
    CategoryItemsRows(t, scope, subclass, i);
    SettleFixedConserves(t, log, items, ctx, i);
  }
}
