/**
 * The audit table `mod_reagent_bank_audit` as an append-only sequence of records, the
 * filtered deletes run against it, and the net-movement aggregate the operator command reports.
 */
module Audit {

  datatype Action = Deposit | Withdraw

  /** One audit row. `ts` is a Unix time in seconds; `delta` is the number of items moved. */
  datatype AuditRecord = AuditRecord(ts: int, accountId: nat, guid: nat, action: Action, entry: nat, subclass: nat, delta: int)

  type Log = seq<AuditRecord>

  // ---- filtered delete and count ----

  /** `DELETE FROM mod_reagent_bank_audit WHERE doomed`: the surviving rows, in their original order. */
  function Remove(log: Log, doomed: AuditRecord -> bool): Log {
    if log == [] then []
    else Remove(log[..|log| - 1], doomed) + (if doomed(log[|log| - 1]) then [] else [log[|log| - 1]])
  }

  /** `SELECT COUNT(*) FROM mod_reagent_bank_audit WHERE p`. */
  function CountWhere(log: Log, p: AuditRecord -> bool): nat {
    if log == [] then 0
    else CountWhere(log[..|log| - 1], p) + (if p(log[|log| - 1]) then 1 else 0)
  }

  /** The rows a delete keeps are exactly the rows that fail its predicate. */
  lemma {:induction false} RemoveExact(log: Log, doomed: AuditRecord -> bool, x: AuditRecord)
    ensures x in Remove(log, doomed) <==> x in log && !doomed(x)
  {
    if log != [] {
      var init := log[..|log| - 1];
      RemoveExact(init, doomed, x);
      assert log == init + [log[|log| - 1]];
    }
  }

  /** A count taken with the delete's own predicate is the number of rows the delete removes. */
  lemma {:induction false} CountIsRemoved(log: Log, p: AuditRecord -> bool)
    ensures CountWhere(log, p) + |Remove(log, p)| == |log|
  {
    if log != [] {
      CountIsRemoved(log[..|log| - 1], p);
    }
  }

  /** A delete whose predicate no row satisfies leaves the table as it was. */
  lemma {:induction false} RemoveNothing(log: Log, doomed: AuditRecord -> bool)
    requires forall i | 0 <= i < |log| :: !doomed(log[i])
    ensures Remove(log, doomed) == log
  {
    if log != [] {
      var init := log[..|log| - 1];
      RemoveNothing(init, doomed);
      assert log == init + [log[|log| - 1]];
    }
  }

  /** Rows appended after a delete are not affected by it. */
  lemma {:induction false} RemoveAppend(log: Log, extra: Log, doomed: AuditRecord -> bool)
    ensures Remove(log + extra, doomed) == Remove(log, doomed) + Remove(extra, doomed)
    decreases |extra|
  {
    if extra == [] {
      assert log + extra == log;
    } else {
      var init := extra[..|extra| - 1];
      assert (log + extra)[..|log + extra| - 1] == log + init;
      RemoveAppend(log, init, doomed);
    }
  }

  // ---- retention sweep ----

  /** `DELETE FROM mod_reagent_bank_audit WHERE ts < cutoff`. */
  function Expire(log: Log, cutoff: int): Log {
    Remove(log, (r: AuditRecord) => r.ts < cutoff)
  }

  /** The sweep keeps exactly the rows stamped at or after the cutoff. */
  lemma ExpireExact(log: Log, cutoff: int, x: AuditRecord)
    ensures x in Expire(log, cutoff) <==> x in log && x.ts >= cutoff
  {
    RemoveExact(log, (r: AuditRecord) => r.ts < cutoff, x);
  }

  // ---- net movement ----

  /** The `WHERE account_id = a [AND guid = g]` of the operator commands: the guid test only when `g != 0`. */
  predicate InScope(r: AuditRecord, accountId: nat, guid: nat) {
    r.accountId == accountId && (guid == 0 || r.guid == guid)
  }

  predicate OfItem(r: AuditRecord, accountId: nat, guid: nat, entry: nat, subclass: nat) {
    InScope(r, accountId, guid) && r.entry == entry && r.subclass == subclass
  }

  /** `CASE WHEN action='DEPOSIT' THEN delta ELSE -delta END`. */
  function Signed(r: AuditRecord): int {
    if r.action == Deposit then r.delta else -r.delta
  }

  /** `SUM(CASE ...)` for one `(item_entry, item_subclass)` group of the scope. */
  function NetMovement(log: Log, accountId: nat, guid: nat, entry: nat, subclass: nat): int {
    if log == [] then 0
    else
      var r := log[|log| - 1];
      NetMovement(log[..|log| - 1], accountId, guid, entry, subclass)
        + (if OfItem(r, accountId, guid, entry, subclass) then Signed(r) else 0)
  }

  /** One more record changes the net movement by its signed delta when it is of the group. */
  lemma NetMovementPush(log: Log, r: AuditRecord, accountId: nat, guid: nat, entry: nat, subclass: nat)
    ensures NetMovement(log + [r], accountId, guid, entry, subclass)
         == NetMovement(log, accountId, guid, entry, subclass) + (if OfItem(r, accountId, guid, entry, subclass) then Signed(r) else 0)
  {
    assert (log + [r])[..|log + [r]| - 1] == log;
  }

  /** Sum of the deltas of one action in one group. */
  function ActionTotal(log: Log, accountId: nat, guid: nat, entry: nat, subclass: nat, action: Action): int {
    if log == [] then 0
    else
      var r := log[|log| - 1];
      ActionTotal(log[..|log| - 1], accountId, guid, entry, subclass, action)
        + (if OfItem(r, accountId, guid, entry, subclass) && r.action == action then r.delta else 0)
  }

  /** Net movement is everything deposited minus everything withdrawn. */
  lemma {:induction false} NetIsDepositsMinusWithdrawals(log: Log, accountId: nat, guid: nat, entry: nat, subclass: nat)
    ensures NetMovement(log, accountId, guid, entry, subclass)
         == ActionTotal(log, accountId, guid, entry, subclass, Deposit) - ActionTotal(log, accountId, guid, entry, subclass, Withdraw)
  {
    if log != [] {
      NetIsDepositsMinusWithdrawals(log[..|log| - 1], accountId, guid, entry, subclass);
    }
  }

  /** Appending records adds their signed deltas to the net movement. */
  lemma {:induction false} NetMovementAppend(log: Log, extra: Log, accountId: nat, guid: nat, entry: nat, subclass: nat)
    ensures NetMovement(log + extra, accountId, guid, entry, subclass)
         == NetMovement(log, accountId, guid, entry, subclass) + NetMovement(extra, accountId, guid, entry, subclass)
    decreases |extra|
  {
    if extra == [] {
      assert log + extra == log;
    } else {
      var init := extra[..|extra| - 1];
      assert (log + extra)[..|log + extra| - 1] == log + init;
      NetMovementAppend(log, init, accountId, guid, entry, subclass);
    }
  }
}
