/**
 * Item catalogue and the reagent category table.
 * The catalogue (`sObjectMgr->GetItemTemplate`) is a read-only map from item entry to template;
 * class and subclass numbers are the host's item enumeration (WotLK numbering).
 */
module Catalog {
  import opened Wrappers

  const ITEM_CLASS_GEM: nat := 3
  const ITEM_CLASS_TRADE_GOODS: nat := 7

  // Trade-goods subclasses
  const ITEM_SUBCLASS_TRADE_GOODS: nat := 0
  const ITEM_SUBCLASS_PARTS: nat := 1
  const ITEM_SUBCLASS_EXPLOSIVES: nat := 2
  const ITEM_SUBCLASS_DEVICES: nat := 3
  const ITEM_SUBCLASS_JEWELCRAFTING: nat := 4
  const ITEM_SUBCLASS_CLOTH: nat := 5
  const ITEM_SUBCLASS_LEATHER: nat := 6
  const ITEM_SUBCLASS_METAL_STONE: nat := 7
  const ITEM_SUBCLASS_MEAT: nat := 8
  const ITEM_SUBCLASS_HERB: nat := 9
  const ITEM_SUBCLASS_ELEMENTAL: nat := 10
  const ITEM_SUBCLASS_TRADE_GOODS_OTHER: nat := 11
  const ITEM_SUBCLASS_ENCHANTING: nat := 12
  const ITEM_SUBCLASS_MATERIAL: nat := 13
  const ITEM_SUBCLASS_ARMOR_ENCHANTMENT: nat := 14
  const ITEM_SUBCLASS_WEAPON_ENCHANTMENT: nat := 15

  /** The part of an item template the bank looks at. `bagFamily` is the bag-family bit mask. */
  datatype ItemTemplate = ItemTemplate(itemClass: nat, subClass: nat, maxStack: nat, bagFamily: bv32)

  type ItemCatalog = map<nat, ItemTemplate>

  /** `GetItemTemplate(entry)`: a missing template (null) becomes `None`. */
  function Lookup(catalog: ItemCatalog, entry: nat): Option<ItemTemplate> {
    if entry in catalog then Some(catalog[entry]) else None
  }

  /** Only trade goods and gems that stack are bankable (items with a stack size of 1 are not). */
  predicate Bankable(t: ItemTemplate) {
    (t.itemClass == ITEM_CLASS_TRADE_GOODS || t.itemClass == ITEM_CLASS_GEM) && t.maxStack != 1
  }

  /** The category a deposited item is stored under: gems all go to Jewelcrafting. */
  function StoredSubclass(t: ItemTemplate): (c: nat)
    ensures t.itemClass == ITEM_CLASS_GEM ==> c == ITEM_SUBCLASS_JEWELCRAFTING
    ensures t.itemClass != ITEM_CLASS_GEM ==> c == t.subClass
  {
    if t.itemClass == ITEM_CLASS_GEM then ITEM_SUBCLASS_JEWELCRAFTING else t.subClass
  }

  datatype CategoryInfo = CategoryInfo(subclass: nat, sampleIconItem: nat, name: string)

  /** `kCategories`: the fifteen reagent categories in menu order. */
  const Categories: seq<CategoryInfo> := [
    CategoryInfo(ITEM_SUBCLASS_CLOTH, 2589, "Cloth"),
    CategoryInfo(ITEM_SUBCLASS_MEAT, 12208, "Meat"),
    CategoryInfo(ITEM_SUBCLASS_METAL_STONE, 2772, "Metal & Stone"),
    CategoryInfo(ITEM_SUBCLASS_ENCHANTING, 10940, "Enchanting"),
    CategoryInfo(ITEM_SUBCLASS_ELEMENTAL, 7068, "Elemental"),
    CategoryInfo(ITEM_SUBCLASS_PARTS, 4359, "Parts"),
    CategoryInfo(ITEM_SUBCLASS_TRADE_GOODS_OTHER, 2604, "Other Trade Goods"),
    CategoryInfo(ITEM_SUBCLASS_HERB, 2453, "Herb"),
    CategoryInfo(ITEM_SUBCLASS_LEATHER, 2318, "Leather"),
    CategoryInfo(ITEM_SUBCLASS_JEWELCRAFTING, 1206, "Jewelcrafting"),
    CategoryInfo(ITEM_SUBCLASS_EXPLOSIVES, 4358, "Explosives"),
    CategoryInfo(ITEM_SUBCLASS_DEVICES, 4388, "Devices"),
    CategoryInfo(ITEM_SUBCLASS_MATERIAL, 23572, "Nether Material"),
    CategoryInfo(ITEM_SUBCLASS_ARMOR_ENCHANTMENT, 38682, "Armor Vellum"),
    CategoryInfo(ITEM_SUBCLASS_WEAPON_ENCHANTMENT, 39349, "Weapon Vellum")
  ]

  const DEFAULT_CATEGORY_NAME: string := "Reagents"

  /** Linear scan of a category table: the name of the first row with that subclass. */
  function NameIn(table: seq<CategoryInfo>, subclass: nat): (r: string)
    ensures (forall i | 0 <= i < |table| :: table[i].subclass != subclass) ==> r == DEFAULT_CATEGORY_NAME
    ensures forall i | 0 <= i < |table| && table[i].subclass == subclass ::
              (forall j | 0 <= j < i :: table[j].subclass != subclass) ==> r == table[i].name
  {
    if |table| == 0 then DEFAULT_CATEGORY_NAME
    else if table[0].subclass == subclass then table[0].name
    else NameIn(table[1..], subclass)
  }

  function GetCategoryName(subclass: nat): string {
    NameIn(Categories, subclass)
  }

  /** Linear scan of a category table for a subclass. */
  predicate InTable(table: seq<CategoryInfo>, value: nat) {
    if |table| == 0 then false
    else table[0].subclass == value || InTable(table[1..], value)
  }

  predicate IsReagentCategory(value: nat) {
    InTable(Categories, value)
  }

  lemma {:induction false} InTableIff(table: seq<CategoryInfo>, value: nat)
    ensures InTable(table, value) <==> exists i :: 0 <= i < |table| && table[i].subclass == value
  {
    if |table| > 0 {
      InTableIff(table[1..], value);
      if InTable(table[1..], value) {
        var i :| 0 <= i < |table[1..]| && table[1..][i].subclass == value;
        assert table[i + 1].subclass == value;
      }
      if table[0].subclass != value && exists i :: 0 <= i < |table| && table[i].subclass == value {
        var i :| 0 <= i < |table| && table[i].subclass == value;
        assert table[1..][i - 1].subclass == value;
      }
    }
  }

  /** The category subclasses are pairwise distinct, so each name is found by its own subclass. */
  lemma CategorySubclassesDistinct()
    ensures forall i, j | 0 <= i < j < |Categories| :: Categories[i].subclass != Categories[j].subclass
  {
  }

  /** A category is recognised exactly when it is one of the table's subclasses. */
  lemma IsReagentCategoryIff(value: nat)
    ensures IsReagentCategory(value) <==> exists i :: 0 <= i < |Categories| && Categories[i].subclass == value
  {
    InTableIff(Categories, value);
  }

  /** The table's categories are exactly the trade-goods subclasses 1..15; 0 (plain trade goods) is not one. */
  lemma CategoriesAreSubclassesOneToFifteen(value: nat)
    ensures IsReagentCategory(value) <==> 1 <= value <= 15
  {
    IsReagentCategoryIff(value);
    if 1 <= value <= 15 {
      var i := [0, 5, 10, 11, 9, 0, 8, 2, 1, 7, 4, 6, 3, 12, 13, 14][value];
      assert Categories[i].subclass == value;
    }
  }

  /** Every category row is named by `GetCategoryName`; everything else gets the default name. */
  lemma GetCategoryNameOfCategory(i: nat)
    requires i < |Categories|
    ensures GetCategoryName(Categories[i].subclass) == Categories[i].name
  {
    CategorySubclassesDistinct();
  }

  lemma GetCategoryNameIff(value: nat)
    ensures GetCategoryName(value) != DEFAULT_CATEGORY_NAME <==> IsReagentCategory(value)
  {
    IsReagentCategoryIff(value);
    if IsReagentCategory(value) {
      var i :| 0 <= i < |Categories| && Categories[i].subclass == value;
      GetCategoryNameOfCategory(i);
      NameIsNotDefault(i);
    }
  }

  /** No category is named like the default: the names differ in length from it. */
  lemma NameIsNotDefault(i: nat)
    requires i < |Categories|
    ensures Categories[i].name != DEFAULT_CATEGORY_NAME
  {
    assert |Categories[i].name| != |DEFAULT_CATEGORY_NAME|;
  }
}
