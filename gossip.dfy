/**
 * The banker's gossip menu: how a selection is routed (`OnGossipSelect`) and the page
 * arithmetic and item listing of `ShowReagentItems`. Menu rows, icons and links are not part
 * of the model; the listing's query result is a parameter.
 */
module Gossip {
  import opened Wrappers
  import opened Numeric
  import opened Catalog

  /** The action ids of the `GossipItemType` enum. */
  const DEPOSIT_ALL_REAGENTS: nat := 16
  const MAIN_MENU: nat := 17
  const WITHDRAW_ALL_REAGENTS: nat := 102

  /** `DEFAULT_MAX_OPTIONS`: items per page when the configuration does not say. */
  const DEFAULT_MAX_OPTIONS: nat := 7

  /** The gossip page number reaches `ShowReagentItems` as a `uint16`. */
  const U16_LIMIT: nat := 0x1_0000

  // ======== routing ========

  /** The category and page a player last viewed (`m_lastView`). */
  datatype LastView = LastView(subclass: nat, page: nat)

  /** What a selection does. */
  datatype Route =
    | DoDepositAll                              // DepositAllReagents
    | DoDepositCategory(subclass: nat)          // DepositAllReagentsForCategory
    | DoWithdrawAll                             // WithdrawAllInCategory for every category
    | DoWithdrawCategory(subclass: nat)         // WithdrawAllInCategory for one category
    | ShowMainMenu                              // OnGossipHello
    | ShowCategory(subclass: nat, page: nat)    // ShowReagentItems
    | DoWithdrawItem(entry: nat, back: Option<LastView>)  // WithdrawItem, then the last view or the main menu

  /**
   * `OnGossipSelect`: the deposit-all and withdraw-all actions carry a category in the page
   * number (0 meaning every category), then the main menu, then a category id, and anything
   * else is an item entry.
   */
  function Select(action: nat, page: nat, lastView: Option<LastView>): Route {
    if action == DEPOSIT_ALL_REAGENTS then
      (if page == 0 then DoDepositAll else DoDepositCategory(page))
    else if action == WITHDRAW_ALL_REAGENTS then
      (if page == 0 then DoWithdrawAll else DoWithdrawCategory(page))
    else if action == MAIN_MENU then ShowMainMenu
    else if IsReagentCategory(action) then ShowCategory(action, page % U16_LIMIT)
    else DoWithdrawItem(action, lastView)
  }

  /** A selection withdraws a single item exactly when its action is no sentinel and no category id (1..15). */
  lemma SelectWithdrawsItemIff(action: nat, page: nat, lastView: Option<LastView>)
    ensures Select(action, page, lastView).DoWithdrawItem?
        <==> action != DEPOSIT_ALL_REAGENTS && action != WITHDRAW_ALL_REAGENTS && action != MAIN_MENU && !(1 <= action <= 15)
    ensures Select(action, page, lastView).DoWithdrawItem? ==> Select(action, page, lastView) == DoWithdrawItem(action, lastView)
  {
    CategoriesAreSubclassesOneToFifteen(action);
  }

  /** A selection shows a category's items exactly for the ids 1..15, at the page it carries (as a `uint16`). */
  lemma SelectShowsCategoryIff(action: nat, page: nat, lastView: Option<LastView>)
    ensures Select(action, page, lastView).ShowCategory? <==> 1 <= action <= 15
    ensures 1 <= action <= 15 && page < U16_LIMIT ==> Select(action, page, lastView) == ShowCategory(action, page)
  {
    CategoriesAreSubclassesOneToFifteen(action);
  }

  /** The sentinel action ids are not categories, so the deposit, withdraw and menu actions are never shadowed. */
  lemma SentinelsAreNotCategories()
    ensures !IsReagentCategory(DEPOSIT_ALL_REAGENTS) && !IsReagentCategory(WITHDRAW_ALL_REAGENTS) && !IsReagentCategory(MAIN_MENU)
  {
    CategoriesAreSubclassesOneToFifteen(DEPOSIT_ALL_REAGENTS);
    CategoriesAreSubclassesOneToFifteen(WITHDRAW_ALL_REAGENTS);
    CategoriesAreSubclassesOneToFifteen(MAIN_MENU);
  }

  // ======== paging ========

  /** The `PageInfo` of `ShowReagentItems`: first and last index shown, page count and 1-based page. */
  datatype PageInfo = PageInfo(start: nat, end: nat, totalPages: nat, currentPage: nat)

  /**
   * `CalcPage` with `uint32` arithmetic for `totalItems` items, the 0-based `page` and `per`
   * items per page (`g_maxOptionsPerPage`, which must not be 0: it is a divisor).
   */
  function CalcPage(totalItems: nat, page: nat, per: nat): PageInfo
    requires per > 0
  {
    var start := Wrap32(page * per);
    var last := if totalItems == 0 then 0 else totalItems - 1;
    PageInfo(start,
             if Wrap32(start + per - 1) <= last then Wrap32(start + per - 1) else last,
             PageCount(totalItems, per),
             page + 1)
  }

  /** `totalPages`: one page when there are no items. */
  function PageCount(totalItems: nat, per: nat): nat
    requires per > 0
  {
    if totalItems == 0 then 1 else (totalItems - 1) / per + 1
  }

  /** The page count is the least number of pages of `per` items that holds every item (one page when there are none). */
  lemma PageCountCovers(totalItems: nat, per: nat)
    requires per > 0
    ensures PageCount(totalItems, per) >= 1
    ensures totalItems <= PageCount(totalItems, per) * per
    ensures totalItems > 0 ==> (PageCount(totalItems, per) - 1) * per < totalItems
  {
    if totalItems > 0 {
      var q := (totalItems - 1) / per;
      assert q * per <= totalItems - 1 < q * per + per;
      assert PageCount(totalItems, per) == q + 1;
      assert (q + 1) * per == q * per + per;
    }
  }

  /** When the page fits in 32 bits, it starts at `page * per` and ends at its last item or the last item overall. */
  lemma CalcPageNoWrap(totalItems: nat, page: nat, per: nat)
    requires per > 0 && IsU32(totalItems) && (page + 1) * per <= U32_LIMIT
    ensures CalcPage(totalItems, page, per).start == page * per
    ensures totalItems > 0 ==> CalcPage(totalItems, page, per).end == Min(page * per + per - 1, totalItems - 1)
  {
    var lo := page * per;
    assert (page + 1) * per == lo + per;
    assert IsU32(lo) && IsU32(lo + per - 1);
    assert Wrap32(lo) == lo;
    assert Wrap32(lo + per - 1) == lo + per - 1;
  }

  /** The "Next Page" row is shown iff the entry after the page's last shown one exists. */
  predicate NextShown(totalItems: nat, page: nat, per: nat)
    requires per > 0
  {
    CalcPage(totalItems, page, per).end + 1 < totalItems
  }

  /** The "Previous Page" row is shown iff this is not the first page and the page is within the page count. */
  predicate PrevShown(totalItems: nat, page: nat, per: nat)
    requires per > 0
  {
    page > 0 && CalcPage(totalItems, page, per).currentPage <= CalcPage(totalItems, page, per).totalPages
  }

  /** Without wrap-around, "Next Page" appears exactly when items remain after this page. */
  lemma NextShownIff(totalItems: nat, page: nat, per: nat)
    requires per > 0 && IsU32(totalItems) && (page + 1) * per <= U32_LIMIT
    ensures NextShown(totalItems, page, per) <==> (page + 1) * per < totalItems
  {
    CalcPageNoWrap(totalItems, page, per);
  }

  /** "Previous Page" appears exactly on a page after the first that still starts at an existing item. */
  lemma PrevShownIff(totalItems: nat, page: nat, per: nat)
    requires per > 0
    ensures PrevShown(totalItems, page, per) <==> page > 0 && page * per < totalItems
  {
    if totalItems > 0 {
      FloorDivBound(totalItems - 1, per, page);
    }
  }

  /** `p <= a / d` exactly when `p * d <= a`. */
  lemma FloorDivBound(a: nat, d: nat, p: nat)
    requires d > 0
    ensures p <= a / d <==> p * d <= a
  {
    var q := a / d;
    assert q * d <= a < q * d + d;
    MulMonotone(p, q, d);
    MulMonotone(q + 1, p, d);
    assert (q + 1) * d == q * d + d;
  }

  lemma MulMonotone(x: nat, y: nat, d: nat)
    ensures x <= y ==> x * d <= y * d
  {
    if x <= y {
      assert y * d == x * d + (y - x) * d;
    }
  }

  // ======== the item listing ========

  /** The entries at indexes `start..end`, cut short at the end of the list. */
  function Slice(entries: seq<nat>, start: nat, end: nat): seq<nat> {
    if start <= end && start < |entries| then entries[start..if end + 1 < |entries| then end + 1 else |entries|] else []
  }

  /** The entries one page lists. */
  function PageItems(entries: seq<nat>, page: nat, per: nat): seq<nat>
    requires per > 0
  {
    var info := CalcPage(|entries|, page, per);
    Slice(entries, info.start, info.end)
  }

  /** Without wrap-around, a page lists the `per` entries from `page * per` on, or fewer at the end. */
  lemma PageItemsNoWrap(entries: seq<nat>, page: nat, per: nat)
    requires per > 0 && IsU32(|entries|) && (page + 1) * per <= U32_LIMIT
    ensures PageItems(entries, page, per)
         == if page * per < |entries| then entries[page * per..Min((page + 1) * per, |entries|)] else []
  {
    CalcPageNoWrap(|entries|, page, per);
  }

  /** The entry `r` places after the start of page `p` is listed at position `r` of that page. */
  lemma EntryOnItsPage(entries: seq<nat>, per: nat, p: nat, r: nat)
    requires per > 0 && IsU32(|entries|) && r < per && p * per + r < |entries| && (p + 1) * per <= U32_LIMIT
    ensures var s := PageItems(entries, p, per); r < |s| && s[r] == entries[p * per + r]
  {
    var lo, hi := p * per, (p + 1) * per;
    assert hi == lo + per;
    PageItemsNoWrap(entries, p, per);
    var s := PageItems(entries, p, per);
    assert lo < |entries|;
    assert s == entries[lo..Min(hi, |entries|)];
    assert lo + r < Min(hi, |entries|);
  }

  /** Every index lies on exactly one page: page `i / per`, at position `i % per`. */
  lemma PageOfIndex(i: nat, per: nat, p: nat, r: nat)
    requires per > 0 && r < per
    ensures i == p * per + r <==> p == i / per && r == i % per
  {
    if i == p * per + r {
      DivModUnique(i, per, p, r);
    }
  }

  lemma DivModUnique(i: nat, per: nat, p: nat, r: nat)
    requires per > 0 && r < per && i == p * per + r
    ensures p == i / per && r == i % per
  {
    var q, m := i / per, i % per;
    assert i == q * per + m && m < per;
    assert p < q ==> (p + 1) * per <= q * per;
    assert q < p ==> (q + 1) * per <= p * per;
  }

  /** The listing loop: from index `start` up to `end`, stopping at the end of the list. */
  method ListPage(entries: seq<nat>, info: PageInfo) returns (shown: seq<nat>)
    ensures shown == Slice(entries, info.start, info.end)
  {
    shown := [];
    var i := info.start;
    while i <= info.end
      invariant info.start <= i <= info.end + 1 || (i == info.start && info.start > info.end)
      invariant i == info.start ==> shown == []
      invariant i > info.start ==> i <= |entries| && shown == entries[info.start..i]
      decreases info.end + 1 - i
    {
      if |entries| == 0 || i > |entries| - 1 {
        break;
      }
      shown := shown + [entries[i]];
      i := i + 1;
    }
  }

  /** What `ShowReagentItems` lists for a category's entries (in the query's order) and page. */
  method ShowReagentItems(entries: seq<nat>, page: nat, per: nat) returns (shown: seq<nat>, next: bool, prev: bool)
    requires per > 0
    ensures shown == PageItems(entries, page, per)
    ensures next == NextShown(|entries|, page, per)
    ensures prev == PrevShown(|entries|, page, per)
  {
    var info := CalcPage(|entries|, page, per);
    shown := ListPage(entries, info);
    next := info.end + 1 < |entries|;
    prev := page > 0 && info.currentPage <= info.totalPages;
  }
}
