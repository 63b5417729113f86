# Reagent bank account — a Dafny model

A model of the reagent bank of the `mod-reagent-bank-account` server module:
- A banker NPC keeps players' crafting reagents (trade goods and gems) in a balance table of one row per `(account, guid, item entry)`. `guid` is 0 when the bank is account-wide.
- Players deposit every bankable item they carry, or one category of them.
- Players withdraw a single item, one stack at a time, or a whole category. The category withdraw runs against a simulation of their bag space.
- Players browse the categories page by page.
- An optional audit log records every movement. An hourly sweep expires audit rows older than the retention time.
- Two operator commands summarise and purge the audit log.

The modules follow the program's parts:

| file | module | what it holds |
|---|---|---|
| `numeric.dfy` | `Numeric` | `uint32` wrap-around, `std::min`, `std::map` reads that default to 0 |
| `catalog.dfy` | `Catalog` | item templates, the bankable test, the stored category of an item (gems all go to Jewelcrafting), the fifteen reagent categories and their names |
| `ledger.dfy` | `Ledger` | the balance table `mod_reagent_bank_account`: the pool key of a player, the SQL statements on the table, the category summary, the deposit merge and `FlushReagentState` |
| `inventory.dfy` | `Inventory` | the player's storage positions (backpack, then bags) and `AccumulateInventory`, the sweep that counts and destroys bankable items, as a method on an `array` |
| `simulator.dfy` | `Simulator` | `SimulateBatchAdd`: the snapshot of partial stacks and empty slots by bag family, the two placing phases, and the grant per entry |
| `settlement.dfy` | `Settlement` | the single-item withdraw and the category withdraw's give loop, the balance write-back and the WITHDRAW audit rows, as written and corrected |
| `audit.dfy` | `Audit` | the audit table `mod_reagent_bank_audit`: deletes, counts, expiry and net movement per item |
| `bank.dfy` | `Bank` | the banker script as a class: the two tables, the category-summary cache, the time of the last sweep and every flow that changes them |
| `gossip.dfy` | `Gossip` | the routing of a menu selection and the paging of the item listing |
| `commands.dfy` | `Commands` | argument parsing of `.reagentbank audit` and `.reagentbank purge`, and the purge's effect on the audit table |

Each flow is modelled in two parts:
- **Methods** do what the C++ does, step by step, with loops over the same collections in the same order. The exceptions are the flows the source gets wrong (see "## Findings" and "## Left out"): there the methods run the corrected behaviour, and functions model the code as written.
- **Functions** state the outcome of a flow on its inputs, and the methods are proved to compute them.

The lemmas state what the flows promise about those functions:
- conservation of items across a deposit or a withdraw;
- no over-allocation by the simulator;
- which summaries the cache may still hold after a flow;
- the net audit movement of each flow;
- paging;
- the round trip of the argument parser.

Most of the host calls (`CanStoreNewItem`, the clock, the item catalogue, the player's storage) are parameters. The one exception is `StoreNewItem`; see "## Left out". Behaviours that depend on the host are ranged over. `accepts(c)` is the answer of the c-th store check of a flow.

## Model

`src/…` paths are relative to the repository root.

| member | source | states |
|---|---|---|
| Numeric.Wrap32 | src/ReagentBankAccount.cpp:515-517 | The value a `uint32` holds after an assignment: always in range, unchanged when it fits, `x - 2^32` just above the range, `x + 2^32` just below 0. |
| Numeric.Wrap32Sub | src/ReagentBankAccount.cpp:653-654 | Subtracting from a wrapped `uint32` is the same as subtracting first and wrapping once. |
| Catalog.StoredSubclass | src/ReagentBankAccount.cpp:418 | Gems are stored under Jewelcrafting whatever their own subclass; every other item under its template subclass. |
| Catalog.NameIn | src/ReagentBankAccount.cpp:62-68 | The name of the first table row with the subclass; the default name "Reagents" when no row has it. |
| Catalog.InTableIff | src/ReagentBankAccount.cpp:71-77 | The linear scan finds a subclass exactly when some row of the table carries it. |
| Catalog.CategorySubclassesDistinct | src/ReagentBankAccount.cpp:39-55 | No two category rows share a subclass, so each category is found by its own id. |
| Catalog.IsReagentCategoryIff | src/ReagentBankAccount.cpp:71-77 | `IsReagentCategory` holds exactly for the subclasses of `kCategories`. |
| Catalog.CategoriesAreSubclassesOneToFifteen | src/ReagentBankAccount.cpp:39-77 | The reagent categories are exactly the trade-goods subclasses 1 to 15. Plain trade goods (0) is not one. |
| Catalog.GetCategoryNameOfCategory | src/ReagentBankAccount.cpp:62-68 | Every category row is named by its own table entry. |
| Catalog.GetCategoryNameIff | src/ReagentBankAccount.cpp:62-77 | A subclass gets a name other than the default exactly when it is a reagent category. |
| Catalog.NameIsNotDefault | src/ReagentBankAccount.cpp:39-68 | No category is named like the fallback, so the default name identifies an unknown subclass. |
| Ledger.GetStorageKeys | src/ReagentBankAccount.cpp:111-116 | The pool key keeps the account id and holds a `uint32` guid: 0 in account-wide mode, otherwise the player's raw GUID when it fits (truncated modulo 2^32 when not). |
| Ledger.AccountWidePoolShared | src/ReagentBankAccount.cpp:111-116 | In account-wide mode every character of an account uses the same pool. |
| Ledger.PerCharacterPoolsDistinct | src/ReagentBankAccount.cpp:111-116 | In per-character mode two characters share a pool exactly when their GUIDs agree modulo 2^32. |
| Ledger.Upsert | src/ReagentBankAccount.cpp:456-463 | `INSERT … ON DUPLICATE KEY UPDATE` adds or replaces exactly one row and keeps every other row. |
| Ledger.Delete | src/ReagentBankAccount.cpp:217 | `DELETE` removes exactly the keyed row and keeps every other row. |
| Ledger.SetAmount | src/ReagentBankAccount.cpp:234 | `UPDATE … SET amount` keeps the key set and the row's subclass, changes only that row's amount, and does nothing when the row is missing. |
| Ledger.ScopeEntries | src/ReagentBankAccount.cpp:484-486 | The entries of a pool are exactly those with a row under the pool's key. |
| Ledger.ScopeRows | src/ReagentBankAccount.cpp:484-496 | The pool's `SELECT` returns every row of the pool and only those, with the stored row. |
| Ledger.CategoryAmounts | src/ReagentBankAccount.cpp:560-569 | The category's `SELECT` returns exactly the pool's rows stored under that subclass, with their amounts. |
| Ledger.MinKey | src/ReagentBankAccount.cpp:456 | The least key of a non-empty key set. |
| Ledger.AscendingKeys | src/ReagentBankAccount.cpp:456 | The `std::map`/`std::set` iteration order: every key once, strictly ascending. |
| Ledger.ComputeSummary | src/ReagentBankAccount.cpp:376-390 | `COUNT(*)` and `SUM(amount)` of a category: the number of the pool's rows in it, and the sum of their amounts. |
| Ledger.SumAmountsRemove | src/ReagentBankAccount.cpp:380 | `SUM` does not depend on the order of the rows: any row can be taken out first. |
| Ledger.SumAmountsUpdate | src/ReagentBankAccount.cpp:380 | Replacing one amount moves the `SUM` by the difference. |
| Ledger.SummaryAfterSetAmount | src/ReagentBankAccount.cpp:234 | Setting a row's amount moves its category's total by the change and keeps its count. |
| Ledger.SummaryAfterDelete | src/ReagentBankAccount.cpp:217 | Deleting a row takes its amount and one distinct item off its category's summary. |
| Ledger.MergeDepositAt | src/ReagentBankAccount.cpp:515-517 | After the merge loop, each deposited entry holds its stored amount plus the batch count, wrapping at 2^32. Every other stored entry keeps its amount. |
| Ledger.MergeDepositAddsExactly | src/ReagentBankAccount.cpp:517 | Without overflow, the merged balance exceeds the stored one by exactly the deposit. |
| Ledger.MergeDepositWrapLoses | src/ReagentBankAccount.cpp:517 | An overflowing deposit leaves a balance smaller than before: the stored items are lost. |
| Ledger.MergeSubclassAt | src/ReagentBankAccount.cpp:520-522 | The freshly seen subclass of a deposited entry wins. Other entries keep their stored subclass. |
| Ledger.MergedAt | src/ReagentBankAccount.cpp:515-517 | The order-free merged map: stored or deposited entries, each at its wrapped sum. |
| Ledger.MergeDepositIsMerged | src/ReagentBankAccount.cpp:515-517 | The merge loop gives the same map in any order that lists each deposited entry. |
| Ledger.OverlayAt | src/ReagentBankAccount.cpp:520-522 | The overlay gives the seen subclass where there is one, and the stored subclass elsewhere. |
| Ledger.MergeSubclassIsOverlay | src/ReagentBankAccount.cpp:520-522 | The subclass loop gives the overlay in any order that lists each seen entry. |
| Ledger.UniformSubclassAt | src/ReagentBankAccount.cpp:590-592 | A category deposit stamps its own subclass on every final entry and on no other. |
| Ledger.StampAt | src/ReagentBankAccount.cpp:590-592 | The order-free stamp maps each listed entry to the category. |
| Ledger.UniformSubclassIsStamp | src/ReagentBankAccount.cpp:590-592 | The stamp loop gives the same map in any order that lists the entries. |
| Ledger.UpsertAllAt | src/ReagentBankAccount.cpp:456-463 | After the upsert loop, each listed entry of the pool holds its final amount and subclass. Every other row is as before. |
| Ledger.PoolKeys | src/ReagentBankAccount.cpp:456-463 | The row keys a flush may write: the pool's keys for the final entries. |
| Ledger.FlushRowAt | src/ReagentBankAccount.cpp:451-465 | `FlushReagentState` writes each final entry's row (subclass 0 when none is known). It touches no row of another pool or entry, and writes nothing for an empty batch. |
| Ledger.UpsertsAreFlush | src/ReagentBankAccount.cpp:451-465 | The upserts done in map order are the flush, whatever order lists the final entries. |
| Inventory.InContainer | src/ReagentBankAccount.cpp:434-445 | Each slot of a container becomes one position carrying the container's bag family. |
| Inventory.LayoutEmptyCount | src/ReagentBankAccount.cpp:284-308 | The empty positions of a family are the backpack's empty slots (family 0) plus the empty slots of the equipped bags of that family. |
| Inventory.Swept | src/ReagentBankAccount.cpp:430 | After the sweep, each taken position is empty and every other position is unchanged. |
| Inventory.SweepKeys | src/ReagentBankAccount.cpp:425-428 | An entry is counted exactly when some taken position holds it, and every counted entry has a recorded subclass. |
| Inventory.SweepTotal | src/ReagentBankAccount.cpp:425 | An entry's count is the total of its taken stacks, modulo 2^32 (`uint32 +=`). |
| Inventory.SweepSubclass | src/ReagentBankAccount.cpp:418-428 | The recorded subclass is the category the entry is stored under, which is the filter's category in a category deposit. |
| Inventory.SweepConserves | src/ReagentBankAccount.cpp:425-430 | No item vanishes: what the player held is what is left plus what the sweep took. |
| Inventory.FilteredSweepSparesOthers | src/ReagentBankAccount.cpp:419-420 | A category sweep leaves every position of another category in place. |
| Inventory.ConsiderItem | src/ReagentBankAccount.cpp:405-431 | `considerItem` takes a position exactly when the item has a template, is bankable and passes the filter, and accumulates it. |
| Inventory.AccumulateInventory | src/ReagentBankAccount.cpp:401-448 | The sweep over the storage array, in scan order: the array ends as `Swept` and the result is the accumulated batch. |
| Simulator.Find | src/ReagentBankAccount.cpp:358-359 | `emptySlotsByFamily.find`: a found family key is at the returned position. |
| Simulator.BumpCounts | src/ReagentBankAccount.cpp:268-290 | `emptySlotsByFamily[mask]++` adds one slot to that family and changes no other family's count. |
| Simulator.BumpDistinct | src/ReagentBankAccount.cpp:268-290 | The increment keeps each family key once. |
| Simulator.SnapshotDistinct | src/ReagentBankAccount.cpp:260-308 | The snapshot's family table has each family once. |
| Simulator.SnapshotEmptyCounts | src/ReagentBankAccount.cpp:260-308 | The snapshot counts, per family, exactly the empty positions of that family. |
| Simulator.SnapshotPartials | src/ReagentBankAccount.cpp:260-301 | The partial stacks recorded for an entry all have free space, and their free space is the total free space the storage offers that entry. |
| Simulator.FillAtUses | src/ReagentBankAccount.cpp:322-331 | Phase 1 places `min(remaining, free space of the stacks)`, and exactly that much free space is used. |
| Simulator.FillStacksUses | src/ReagentBankAccount.cpp:322-331 | The same for the whole partial-stack list. |
| Simulator.RemoveExhaustedKeeps | src/ReagentBankAccount.cpp:333-335 | After `remove_if`, every kept stack has free space and no free space is lost. |
| Simulator.SpecialtyNoneIff | src/ReagentBankAccount.cpp:343-355 | The specialty search fails exactly when no family key is an open specialty slot for the item. |
| Simulator.PickSlotNoneIff | src/ReagentBankAccount.cpp:339-369 | The placing loop stops exactly when no slot the item fits is free. |
| Simulator.PickSlotPrefersSpecialty | src/ReagentBankAccount.cpp:343-366 | When a fitting specialty slot is open, a specialty slot is used rather than a generic one. |
| Simulator.EligibleAfterTake | src/ReagentBankAccount.cpp:352-364 | Using one slot lowers the eligible count of a family by one exactly when the slot fits that family. |
| Simulator.FillEmptyConsumed | src/ReagentBankAccount.cpp:339-369 | Phase 2 uses only empty slots that fit the item, and keeps the family keys. |
| Simulator.FillEmptyClosedForm | src/ReagentBankAccount.cpp:339-369 | Phase 2 places `min(remaining, maxStack * fitting empty slots)`. |
| Simulator.Grant | src/ReagentBankAccount.cpp:330-364 | `granted[entry] += x` adds x to that entry, and creates the key only for a positive x. |
| Simulator.GrantOther | src/ReagentBankAccount.cpp:330-364 | Granting one entry leaves every other entry as it was. |
| Simulator.StepDistinct | src/ReagentBankAccount.cpp:311-371 | One request keeps the family table a map. |
| Simulator.SimulateDistinct | src/ReagentBankAccount.cpp:311-371 | So does any batch of requests. |
| Simulator.StepClosedForm | src/ReagentBankAccount.cpp:311-371 | A request is granted `min(requested, free space on its partial stacks + maxStack * fitting empty slots)`, and nothing without a template or with stack size 0. |
| Simulator.StepConsumes | src/ReagentBankAccount.cpp:311-371 | A request never changes another entry's partial stacks and never adds an empty slot. |
| Simulator.StepPartials | src/ReagentBankAccount.cpp:322-335 | After a request, its entry's kept partial stacks all have free space, lowered by exactly what phase 1 placed. |
| Simulator.GrantedAtMostRequested | src/ReagentBankAccount.cpp:311-371 | No over-allocation: an entry never gets more than was requested for it, and an unrequested entry gets nothing. |
| Simulator.GrantedHasTemplate | src/ReagentBankAccount.cpp:315-320 | A granted entry has a template with a non-zero stack size. |
| Simulator.SnapshotEligible | src/ReagentBankAccount.cpp:260-308 | The snapshot offers an item exactly the empty positions its bag family fits. |
| Simulator.SingleRequestGrant | src/ReagentBankAccount.cpp:248-373 | On the player's actual storage, a lone request is granted `min(requested, free space on its stacks + maxStack * fitting empty positions)`. |
| Simulator.FirstRequestTakesLastSlot | src/ReagentBankAccount.cpp:311-369 | With one free slot, the first of two requests gets it and the second gets nothing. |
| Simulator.RequestOrderMatters | src/ReagentBankAccount.cpp:311-369 | The same two requests in the other order grant a different item. |
| Simulator.PartialStackFirst | src/ReagentBankAccount.cpp:322-366 | A partial stack is topped up before an empty slot is used: 5 on the stack and 3 in a new one. |
| Simulator.BuildSnapshot | src/ReagentBankAccount.cpp:260-308 | The scan loops build exactly `SnapshotOf(storage)`. |
| Simulator.FindFamily | src/ReagentBankAccount.cpp:358 | The `find` loop computes `Find`: the first position of the key, or none. |
| Simulator.FillPartialStacks | src/ReagentBankAccount.cpp:322-331 | The phase-1 loop computes `FillStacks`. |
| Simulator.FindSpecialty | src/ReagentBankAccount.cpp:343-355 | The specialty loop finds the first open specialty slot in iteration order. |
| Simulator.FillEmptySlots | src/ReagentBankAccount.cpp:339-369 | The `while (remaining > 0)` loop computes `FillEmpty`. |
| Simulator.ProcessRequest | src/ReagentBankAccount.cpp:311-371 | One iteration of the request loop computes `Step`. |
| Simulator.SimulateBatchAdd | src/ReagentBankAccount.cpp:248-373 | The method computes `Granted(storage, items)`, which the lemmas above characterise. |
| Settlement.WithdrawOneKeepsFit | src/ReagentBankAccount.cpp:211-243 | A single withdraw only lowers a balance, so every amount still fits its `uint32` column. |
| Settlement.WithdrawOneSettles | src/ReagentBankAccount.cpp:189-245 | A single withdraw succeeds exactly when the row and the template exist and the store check passes. It then hands out `min(stored, stackSize)` and leaves the rest, deleting the row when nothing is left. Failures change nothing. No other row is touched. |
| Settlement.OtherCategoriesUnchanged | src/ReagentBankAccount.cpp:211-243 | A single withdraw changes no summary except that of the category the row is stored under. |
| Settlement.WithdrawOneLowersSummary | src/ReagentBankAccount.cpp:211-243 | A successful single withdraw lowers the total of the row's category by exactly what it hands out, and its count by one when the row is deleted. A failed one changes nothing. |
| Settlement.WithdrawOneFixedInvalidatesStoredCategory | src/ReagentBankAccount.cpp:221-237 | The corrected withdraw invalidates the category whose summary can change. So, for the withdrawing pool, every summary left cached is still right. Summaries cached from other pools are a separate issue (see "## Findings"). |
| Settlement.GemWithdrawInvalidatesWrongCategory | src/ReagentBankAccount.cpp:221-237 | As written, withdrawing the last gem of its kind invalidates the gem's own subclass (Parts), while the Jewelcrafting summary drops from one item of 5 to none. |
| Settlement.GiveStacksAtMost | src/ReagentBankAccount.cpp:645-655 | The give loop never hands out more than the grant, and the store-check counter only grows. |
| Settlement.GiveStacksAllIff | src/ReagentBankAccount.cpp:645-655 | The whole grant is handed out exactly when every store check of the loop passes. |
| Settlement.GiveStacksShort | src/ReagentBankAccount.cpp:645-655 | A short handout is one full stack per accepted check, and its last check is the refused one. |
| Settlement.HandOut | src/ReagentBankAccount.cpp:643-655 | The give loop computes `GiveStacks`, and `remainingBank` ends as the stored amount less what was handed out, in `uint32`. |
| Settlement.SettleAsWritten | src/ReagentBankAccount.cpp:614-687 | As written, once anything is handed out, each granted row ends at its balance less the whole grant, and WITHDRAW is audited twice. When nothing is handed out, the rows are untouched but the grant is still audited. |
| Settlement.SettleFixedConserves | src/ReagentBankAccount.cpp:635-664 | The corrected settlement conserves items. Bank balance plus handed out is the old balance. The row keeps its category. The audited net movement drops by exactly what was handed out. |
| Settlement.SettleFixedOthers | src/ReagentBankAccount.cpp:635-664 | The corrected settlement leaves every entry outside the list alone, in the table and in the audit log. |
| Settlement.SecondPassLosesItems | src/ReagentBankAccount.cpp:670-683 | A row of 60 with a grant of 40, where the host refuses the second stack: 20 are handed out but only 20 stay in the bank. |
| Settlement.CategoryItems | src/ReagentBankAccount.cpp:627-632 | The rows the category withdraw reads, one per row of the category. |
| Settlement.CategoryItemsRows | src/ReagentBankAccount.cpp:627-632 | Every listed row is a row of the category with its stored amount. |
| Settlement.CategoryItemsAscending | src/ReagentBankAccount.cpp:627-632 | Each entry is listed once, in ascending order. |
| Settlement.CategoryItemsCover | src/ReagentBankAccount.cpp:627-632 | Every row of the category is listed. |
| Settlement.CategoryItemsOnly | src/ReagentBankAccount.cpp:627-632 | No row of another category is listed. |
| Settlement.CategorySound | src/ReagentBankAccount.cpp:633 | The simulator's grants for the category's rows never exceed a row's amount and always have a usable template. |
| Settlement.WithdrawCategoryOthers | src/ReagentBankAccount.cpp:614-687 | As written and corrected, the category withdraw never touches a row outside the category, and audits nothing for it. |
| Settlement.SinglePassKeepsFit | src/ReagentBankAccount.cpp:643-664 | The corrected give loop writes only `uint32` balances, so every amount still fits its column. |
| Settlement.WithdrawCategoryFixedKeepsFit | src/ReagentBankAccount.cpp:614-687 | The corrected category withdraw keeps every amount of the table within `uint32`. |
| Settlement.WithdrawCategoryConserves | src/ReagentBankAccount.cpp:614-687 | The corrected category withdraw conserves each row of the category, keeps it in the category, and lowers its net audit movement by exactly what was handed out. |
| Audit.RemoveExact | src/ReagentBankAccountCommands.cpp:172 | A `DELETE … WHERE p` keeps exactly the rows that fail `p`. |
| Audit.CountIsRemoved | src/ReagentBankAccountCommands.cpp:170-172 | A count with the delete's own filter is the number of rows the delete removes. |
| Audit.RemoveAppend | src/ReagentBankAccountCommands.cpp:172 | A delete acts on old and new rows independently. |
| Audit.ExpireExact | src/ReagentBankAccount.cpp:710-711 | The retention sweep keeps exactly the rows stamped at or after the cutoff. |
| Audit.NetMovementPush | src/ReagentBankAccountCommands.cpp:100-103 | One more record changes an item's net movement by its signed delta, when it is of the item's group. |
| Audit.NetIsDepositsMinusWithdrawals | src/ReagentBankAccountCommands.cpp:100-103 | The net movement is everything deposited minus everything withdrawn. |
| Audit.NetMovementAppend | src/ReagentBankAccountCommands.cpp:100-103 | Appending records adds their net movement. |
| Bank.Invalidate | src/ReagentBankAccount.cpp:80-92 | Invalidating category 0 clears the whole cache. Any other category erases only its own summary. |
| Bank.InvalidateEachResult | src/ReagentBankAccount.cpp:526-528 | Invalidating several categories drops exactly those, or everything when 0 is among them. |
| Bank.AmountsOf | src/ReagentBankAccount.cpp:484-496 | `existingAmounts`: each stored entry of the pool with its amount. |
| Bank.SubclassesOf | src/ReagentBankAccount.cpp:484-496 | `subclassByEntry`: each stored entry of the pool with its subclass. |
| Bank.StoredRows | src/ReagentBankAccount.cpp:484-496 | What the full deposit reads agrees with the table's balance and row at every key of the pool. |
| Bank.CategoryRows | src/ReagentBankAccount.cpp:560-569 | What the category deposit reads agrees with the category's balance at every key of the pool. |
| Bank.DepositAllKeepsFit | src/ReagentBankAccount.cpp:515-517 | A full deposit stores wrapped `uint32` sums, so every amount still fits its column. |
| Bank.DepositAllAt | src/ReagentBankAccount.cpp:467-545 | A full deposit sets each deposited entry's row to the old balance plus the batch count (wrapping), with the freshly seen subclass. It keeps every other row. |
| Bank.MergeFlushIsDepositAll | src/ReagentBankAccount.cpp:515-524 | The merge, the subclass overlay and the flush of `DepositAllReagents` together give `DepositAll`. |
| Bank.DepositCategoryKeepsFit | src/ReagentBankAccount.cpp:586-593 | A category deposit stores wrapped `uint32` sums, so every amount still fits its column. |
| Bank.DepositCategoryAt | src/ReagentBankAccount.cpp:586-593 | A category deposit sets each deposited entry's row to its balance in the category plus the batch count, stamped with the category. It keeps every other row. |
| Bank.MergeFlushIsDepositCategory | src/ReagentBankAccount.cpp:586-593 | The merge, the stamp and the flush of `DepositAllReagentsForCategory` together give `DepositCategory`. |
| Bank.DepositConserves | src/ReagentBankAccount.cpp:499-524 | End to end, without overflow, a full deposit loses nothing: bank balance plus what the player holds is unchanged, per entry. |
| Bank.TouchedExact | src/ReagentBankAccount.cpp:525-527 | A category is touched exactly when some deposited entry carries it. |
| Bank.DepositCacheEffect | src/ReagentBankAccount.cpp:525-528 | After a full deposit the cache holds no summary of a touched category. It keeps every other summary unless category 0 was touched. |
| Bank.DepositRecordsNet | src/ReagentBankAccount.cpp:504-513 | The DEPOSIT rows of a batch raise each deposited entry's net movement by exactly its count, under its category. |
| Bank.MergeAmounts | src/ReagentBankAccount.cpp:515-517 | The merge loop computes `MergeDeposit`. |
| Bank.MergeSubclasses | src/ReagentBankAccount.cpp:520-522 | The subclass loop computes `MergeSubclass`. |
| Bank.StampCategory | src/ReagentBankAccount.cpp:590-592 | The stamp loop computes `UniformSubclass`. |
| Bank.CollectTouched | src/ReagentBankAccount.cpp:526-527 | The `touched.insert` loop collects exactly the subclasses of the listed entries. |
| Bank.CleanupDebounced | src/ReagentBankAccount.cpp:702-712 | After a sweep at a non-zero time, the next sweep is due exactly when auditing is on and the interval has passed. |
| Bank.ReagentBank.constructor | src/ReagentBankAccount.cpp:691-700 | The script starts with the configured mode, audit flag, retention and interval, an empty summary cache, the all-invalid flag set, and no sweep yet. Given a table whose amounts fit their `uint32` column, the class invariant `Valid()` holds from the start. |
| Bank.ReagentBank.InvalidateCategorySummary | src/ReagentBankAccount.cpp:80-92 | The cache becomes `Invalidate(cache, subclass)`. The all-invalid flag is set for 0. Nothing else changes. |
| Bank.ReagentBank.CachedCategorySummary | src/ReagentBankAccount.cpp:94-101 | A summary is returned exactly when the category is cached, and it is the cached one. |
| Bank.ReagentBank.StoreCategorySummary | src/ReagentBankAccount.cpp:103-108 | Stores the summary under its category and clears the all-invalid flag. |
| Bank.FreshSummaries | src/ReagentBankAccount.cpp:727-744 | The `GROUP BY item_subclass` query gives one summary for each subclass the pool holds rows under, and it is that subclass's summary. |
| Bank.HelloShown | src/ReagentBankAccount.cpp:746-756 | As written, a menu row shows the fresh summary when the pool holds rows in the category. Otherwise it shows whatever the cache holds for that subclass, or `(0, 0)`. |
| Bank.HelloShowsOtherPool | src/ReagentBankAccount.cpp:746-756 | As written, after account 1 opens the menu with five Jewelcrafting items, account 2, who has none, is shown account 1's `1/5`. |
| Bank.HelloShownFixedIsSummary | src/ReagentBankAccount.cpp:746-756 | A menu built from the query alone shows every category's true summary for the player's own pool. |
| Bank.MenuSummaries | src/ReagentBankAccount.cpp:748-756 | The loop over `kCategories` gives one summary per category row, in table order. |
| Bank.ReagentBank.StoreSummaries | src/ReagentBankAccount.cpp:746 | Storing every fresh summary overlays them on the cache and keeps every other entry. |
| Bank.ReagentBank.GossipHello | src/ReagentBankAccount.cpp:715-759 | The corrected menu refresh: the cache gains the fresh summaries, and each category row shows the pool's own summary of that category. |
| Bank.ReagentBank.GetCategorySummary | src/ReagentBankAccount.cpp:376-390 | Serves a cached summary as is. Otherwise it computes the category summary, or `(0, 0)` when the query fails, then stores and returns it. |
| Bank.ReagentBank.EnsureAuditCleanup | src/ReagentBankAccount.cpp:702-712 | When a sweep is due, the last sweep becomes `now` and the log loses exactly the rows older than the retention. Otherwise nothing changes. |
| Bank.ReagentBank.WithdrawItem | src/ReagentBankAccount.cpp:189-245 | Reply and table as `Settlement.WithdrawOneFixed`. The cache loses the stored row's category on success. The audit log is untouched. |
| Bank.ReagentBank.InvalidateTouched | src/ReagentBankAccount.cpp:525-528 | Invalidates the touched categories in ascending order. |
| Bank.ReagentBank.InvalidateInOrder | src/ReagentBankAccount.cpp:528 | The invalidation loop computes `InvalidateEach`. |
| Bank.ReagentBank.UpsertInOrder | src/ReagentBankAccount.cpp:456-463 | The upsert loop computes `UpsertAll`. |
| Bank.ReagentBank.Flush | src/ReagentBankAccount.cpp:451-465 | The table becomes `FlushReagentState` of the final amounts. |
| Bank.ReagentBank.AppendDepositRecords | src/ReagentBankAccount.cpp:504-513 | Appends one DEPOSIT row per listed entry, in order. |
| Bank.ReagentBank.DepositAllReagents | src/ReagentBankAccount.cpp:467-545 | Storage ends as `Swept`, and the table as `DepositAll` of the sweep's batch. The log gains the batch's DEPOSIT rows when auditing. The touched categories are invalidated. An empty batch changes nothing else. |
| Bank.ReagentBank.DepositAllReagentsForCategory | src/ReagentBankAccount.cpp:547-611 | The same for one category: the table becomes `DepositCategory` and only that category is invalidated. |
| Bank.ReagentBank.GiveRow | src/ReagentBankAccount.cpp:635-664 | One iteration of the give loop, auditing what it handed out (the corrected settlement). |
| Bank.ReagentBank.GiveLoop | src/ReagentBankAccount.cpp:635-664 | The give loop over the category's rows computes `SettleFixed`. |
| Bank.ReagentBank.WithdrawAllInCategory | src/ReagentBankAccount.cpp:614-687 | Table and log as `Settlement.WithdrawCategoryFixed`. When a stack was handed out, the audit sweep runs if due and the category is invalidated; otherwise the cache and the sweep time are unchanged. |
| Gossip.SelectWithdrawsItemIff | src/ReagentBankAccount.cpp:762-832 | A selection withdraws an item exactly when its action is no sentinel and no category id. The item is the action, and the answer goes back to the last view. |
| Gossip.SelectShowsCategoryIff | src/ReagentBankAccount.cpp:805-809 | A selection shows a category exactly for the ids 1 to 15, at the page it carries. |
| Gossip.SentinelsAreNotCategories | src/ReagentBankAccount.h:16-21 | The deposit, withdraw and main-menu action ids are never category ids. |
| Gossip.PageCountCovers | src/ReagentBankAccount.cpp:857-862 | The page count is the least number of pages that holds every item, and at least one. |
| Gossip.CalcPageNoWrap | src/ReagentBankAccount.cpp:857-862 | Without wrap-around, a page starts at `page * per` and ends at its last slot or at the last item. |
| Gossip.NextShownIff | src/ReagentBankAccount.cpp:907 | "Next Page" is shown exactly when items remain after this page. |
| Gossip.PrevShownIff | src/ReagentBankAccount.cpp:915 | "Previous Page" is shown exactly on a page after the first that starts at an existing item. |
| Gossip.PageItemsNoWrap | src/ReagentBankAccount.cpp:926-943 | A page lists the `per` entries from `page * per` on, or fewer at the end. |
| Gossip.EntryOnItsPage | src/ReagentBankAccount.cpp:926-943 | Every entry is listed on page `i / per`, at position `i % per`. |
| Gossip.PageOfIndex | src/ReagentBankAccount.cpp:857-862 | Every index lies on exactly one page. |
| Gossip.ListPage | src/ReagentBankAccount.cpp:926-943 | The listing loop lists the entries from `start` to `end`, stopping at the end of the list. |
| Gossip.ShowReagentItems | src/ReagentBankAccount.cpp:835-952 | The listed entries, "Next" and "Previous" are those of `PageItems`, `NextShown` and `PrevShown`. |
| Commands.WordLen | src/ReagentBankAccountCommands.cpp:33 | The length of the leading run of non-space characters. |
| Commands.Tokens | src/ReagentBankAccountCommands.cpp:31-33 | `iss >> token` yields words: non-empty, without whitespace. |
| Commands.TokensOfJoin | src/ReagentBankAccountCommands.cpp:31-33 | Tokenising words joined by spaces gives the words back. |
| Commands.Find | src/ReagentBankAccountCommands.cpp:35 | `find('=')` is the first index of `=`, or none exactly when there is none. |
| Commands.ParseArgs | src/ReagentBankAccountCommands.cpp:25-41 | A null argument list gives no options. Otherwise the options are those of the words, in order. |
| Commands.ArgsKeyIff | src/ReagentBankAccountCommands.cpp:35-38 | A key is set exactly when some word carries it before its first `=`. |
| Commands.ArgsLastWins | src/ReagentBankAccountCommands.cpp:38 | A duplicated key takes the value of its last word. |
| Commands.ArgsIgnorePlainWord | src/ReagentBankAccountCommands.cpp:36-37 | A word without `=` contributes nothing. |
| Commands.KeyValueSplit | src/ReagentBankAccountCommands.cpp:35-38 | A key never holds `=`, and the word is exactly key, `=`, value. |
| Commands.SplitFirstTokens | src/ReagentBankAccountCommands.cpp:51-58 | The first word and the tokens of the rest of the line are the line's tokens. |
| Commands.ShowNumber | src/ReagentBankAccountCommands.cpp:76-78 | `std::to_string` prints a non-empty run of digits. |
| Commands.ParseShowNumber | src/ReagentBankAccountCommands.cpp:55-78 | Parsing a printed number gives it back, so the id in a `WHERE` clause is the parsed one. |
| Commands.ParseNonNumber | src/ReagentBankAccountCommands.cpp:55 | A word that does not start with a digit parses as 0. |
| Commands.NormTop | src/ReagentBankAccountCommands.cpp:61-65 | `top` is 5 when absent or 0, the parsed value when it is 1 to 50, and 50 above that. |
| Commands.NormPage | src/ReagentBankAccountCommands.cpp:66-68 | `page` is 1 when absent or 0, and the parsed value otherwise. |
| Commands.NormPageSize | src/ReagentBankAccountCommands.cpp:69-73 | `pageSize` is 20 when absent or 0, the parsed value when it is 1 to 200, and 200 above that. |
| Commands.Offset | src/ReagentBankAccountCommands.cpp:74 | The offset is the rows of the earlier pages, when that fits in 32 bits. |
| Commands.ParseAudit | src/ReagentBankAccountCommands.cpp:43-74 | No query (the usage reply) exactly for an empty argument string. Otherwise the account id is the first word's number. `guid` is the option's number, or 0. `top`, `page` and `pageSize` are the normalised options, within their bounds. The offset matches page and page size. |
| Commands.AuditFilterGuid | src/ReagentBankAccountCommands.cpp:76-78 | The `guid` option narrows the summary to one character exactly when it is non-zero. |
| Commands.AuditTotalAtMost | src/ReagentBankAccountCommands.cpp:80-81 | The summary total counts exactly the rows in scope, never more than the table holds. |
| Commands.ParsePurge | src/ReagentBankAccountCommands.cpp:147-161 | No query exactly for an empty argument string. Otherwise the account id is the first word's number, and `guid` and `olderThan` come from the options, 0 when absent. |
| Commands.CutoffAsWritten | src/ReagentBankAccountCommands.cpp:162 | The cutoff as written is a `uint32`. |
| Commands.PurgeCutoffWraps | src/ReagentBankAccountCommands.cpp:162-168 | As written, an `olderThan` above the current time wraps the cutoff into the future, and the purge deletes a row written a second ago. |
| Commands.PurgeCutoffVanishes | src/ReagentBankAccountCommands.cpp:162-168 | As written, an `olderThan` equal to the current time gives cutoff 0, and the time filter disappears. |
| Commands.DoomedIff | src/ReagentBankAccountCommands.cpp:164-168 | The intended filter deletes a row exactly when it is in scope and, if `olderThan` is given, more than `olderThan` seconds old. |
| Commands.DoomedAgrees | src/ReagentBankAccountCommands.cpp:162-168 | When the time and the age fit and the age is below the time, the written filter is the intended one. |
| Commands.PurgeReportsRemoved | src/ReagentBankAccountCommands.cpp:170-173 | The reported count is the number of rows deleted, and the rows kept are exactly those the filter spares. |
| Commands.PurgeAllOfScope | src/ReagentBankAccountCommands.cpp:164-172 | Without `olderThan`, a purge removes every row of the account, or of the character with `guid`. |
| Commands.PurgeKeepsOthers | src/ReagentBankAccountCommands.cpp:164 | A purge never deletes a row of another account. |
| Commands.PurgeKeepsRecent | src/ReagentBankAccountCommands.cpp:162-172 | The intended purge keeps every row newer than the cutoff. |
| Commands.PurgeAsWrittenLosesRecent | src/ReagentBankAccountCommands.cpp:162-172 | The as-written purge deletes a recent row that the intended purge keeps. |

## Left out

**Host plumbing**
- Asynchronous queries, callbacks and the database connection are left out. Each flow runs to completion on the state it reads, so interleavings of two players' callbacks are not modelled. Neither are the mutex around the cache or the atomicity of the transaction.
- `CanStoreNewItem` is an oracle: `accepts(c)` answers the c-th check of a flow.
- `StoreNewItem`, `SendNewItem`, `SendEquipError` and the item the player receives are not part of this model. Only what the bank table and the audit log record is modelled.
- `DestroyItem` is the write of an empty position into the storage array.
- The clock (`time(nullptr)`, `UNIX_TIMESTAMP()`) is a parameter `now`.
- `emptySlotsByFamily` is an `unordered_map`, whose iteration order the language leaves open. The model iterates it in insertion order (`Simulator.Bump` appends a new family at the end), so it fixes one of the orders a specialty search can see.
- The inventory a player carries is a parameter. The backpack comes first, then the bags in bag order, so `Inventory.Layout` gives the scan order of both loops.

**Presentation**
- Every chat message, menu row, icon, item link and coloured string (lines 136-186), and the text of the command replies, are left out. `OnGossipHello` is modelled only for the summaries its menu shows (`Bank.ReagentBank.GossipHello`).
- `GetCategorySummary` (376-390) has no caller in this source. It is modelled on its own as the class method. The header of `ShowReagentItems` builds its totals from its own query (845, summed at 865-878), not from the cache.
- The header line of `ShowReagentItems` that shows the category's total is left out.
- The item-template cache (119-133) is left out. The catalogue is a map from entry to template.
- The write of `m_lastView` (839-842) is left out. `Gossip.Select` takes the last view as a parameter.

**Configuration**
- Configuration loading (691-700) is left out. The banker's options are constructor arguments, with the defaults as constants: seven days of retention and a one-hour interval. `g_maxOptionsPerPage` is the `per` parameter of the paging members, which require `per > 0` because it is a divisor.
- `g_reagentBankLastCleanup` is a process-wide static. The model holds it in the one banker object.

**Queries**
- The withdraw-all-categories loop (786-787) is left out. `Gossip.Select` routes it (`DoWithdrawAll`), but its per-category repetition of `WithdrawAllInCategory` is not modelled.
- The category withdraw's `SELECT` has no `ORDER BY`. `Settlement.CategoryItems` takes the rows in ascending entry order, the primary-key order of the table.
- `ShowReagentItems` takes its query result (`ORDER BY item_entry DESC`) as the `entries` parameter.
- The `GROUP BY`, `ORDER BY` and `LIMIT` formatting of the audit summary's three report queries is left out. Only their filter and the net movement of one group (`Audit.NetMovement`) are modelled.

**Numbers**
- `Commands.ParseNumber` is `strtoul` on a leading run of decimal digits, as an unbounded number. Leading whitespace, a sign, saturation at the `unsigned long` limit and the truncation to `uint32` are not modelled.
- The `uint64` totals of `COUNT`/`SUM` in `Ledger.ComputeSummary` are unbounded.
- Bank.ReagentBank.WithdrawAllInCategory: requires the class invariant `Valid()`: every stored amount fits the `uint32` column, as the table's schema guarantees. The constructor takes that of the initial table. `WithdrawItem`, both deposits and this method keep it; every other method leaves the table alone.
- Ledger.MergeDepositAddsExactly: holds only when the merged balance does not overflow. The overflowing case is `Ledger.MergeDepositWrapLoses`.
- Bank.ReagentBank.WithdrawItem: runs the corrected single withdraw, which invalidates the row's stored category. The source invalidates `temp->SubClass` (lines 221 and 237). That behaviour is `Settlement.WithdrawOne`.
- Bank.ReagentBank.GiveRow: runs the corrected single pass, writing each balance once, less what was handed out. The source writes it again in a second loop (656-683). That behaviour is `Settlement.Settle`.
- Bank.ReagentBank.GiveLoop: audits what was handed out, once. The source audits the whole grant at line 660 and again at lines 680-681. That behaviour is `Settlement.Settle`.
- Bank.ReagentBank.WithdrawAllInCategory: is built on `GiveLoop` and `GiveRow`, so it is the corrected category withdraw. The code as written is `Settlement.WithdrawCategory`.
- Bank.ReagentBank.GossipHello: builds the menu from the query's rows, with `(0, 0)` for a category the pool holds nothing in. The source reads the shared cache back (750-751). That behaviour is `Bank.HelloShown`.
- Bank.DepositConserves: requires, per entry, that the stored balance plus the deposit fits 32 bits. Beyond that the merge wraps and items are lost (see `Ledger.MergeDepositWrapLoses`).

## Findings

| source | as written | input that shows it | evidently intended | confidence | as-written member | corrected member |
|---|---|---|---|---|---|---|
| src/ReagentBankAccount.cpp:221 | After a single withdraw, the summary of `temp->SubClass` is invalidated, but gems are stored under Jewelcrafting (line 418) | The last blue gem (gem subclass 1) held in the bank: category 1 (Parts) is invalidated while Jewelcrafting drops from 1 item of 5 to none and stays cached | Invalidate the category the row is stored under | not executed | Settlement.GemWithdrawInvalidatesWrongCategory | Settlement.WithdrawOneFixedInvalidatesStoredCategory |
| src/ReagentBankAccount.cpp:670-683 | After the give loop has written each row's balance less what it handed out, the second loop writes the balance less the whole grant | A row of 60, a grant of 40 in stacks of 20, the second store check refused: 20 handed out, the bank keeps 20 | Debit only what was handed out (one pass) | not executed | Settlement.SecondPassLosesItems | Settlement.SettleFixedConserves |
| src/ReagentBankAccount.cpp:660-681 | WITHDRAW is audited by both loops with the whole grant, and by the first even when the store check refused every stack | Any granted row once a stack was handed out: net movement falls by twice the grant; with no bag space, by the grant though nothing moved | Audit what was handed out, once | not executed | Settlement.SettleAsWritten | Settlement.WithdrawCategoryConserves |
| src/ReagentBankAccount.cpp:746-756 | The menu reads each category's summary back from `m_categorySummaryCache`. That cache is keyed by subclass alone and shared by every pool (line 29), so a category the pool has no rows in shows whatever another pool left cached | Account 1 opens the menu with five Jewelcrafting items banked; account 2, who has none, is then shown `1/5` | Show `(0, 0)` for a category the player's own pool holds nothing in | not executed | Bank.HelloShowsOtherPool | Bank.HelloShownFixedIsSummary |
| src/ReagentBankAccountCommands.cpp:162 | `cutoff = (uint32)time - olderThan` wraps when `olderThan` exceeds the time, and is 0 (no time filter) when they are equal | now = 1000, olderThan = 2000: cutoff is 2^32 - 1000, and a row stamped 999 is deleted | Delete only rows older than `olderThan` seconds | not executed | Commands.PurgeAsWrittenLosesRecent | Commands.PurgeKeepsRecent |

The banker class uses the corrected members: `WithdrawItem` invalidates the stored row's category, `WithdrawAllInCategory` runs the single give loop, and `GossipHello` builds the menu from the query's rows. The as-written behaviour is kept in `Settlement.WithdrawOne`, `Settlement.Settle`, `Settlement.WithdrawCategory`, `Bank.HelloShown` and `Commands.PurgeAsWritten`, with the lemmas above.
