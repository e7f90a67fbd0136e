/** Positions of products within categories, as the legacy migration assigns
    them from the order of the products. */
module CategoryPositions {
  import opened Basics
  import opened Counting
  import opened PositionRepair

  /** A category-product link by legacy ids; no category when the product's
      table has no category table. */
  datatype LegacyLink = LegacyLink(category: Option<string>, product: string)

  const PRODUCT_TO_CATEGORY_SOURCE_TABLE: map<string, string> := map[
    "ClothesProduct" := "ClothesCategory",
    "ConfectioneryProduct" := "ConfectioneryCategory",
    "DefaultProduct" := "DefaultCategory",
    "FlowersProduct" := "FlowersCategory",
    "GiftProduct" := "GiftCategory",
    "RestaurantProduct" := "RestaurantCategory",
    "SemiFinishedProductsProduct" := "SemiFinishedProductsCategory",
    "TechnicProduct" := "TechnicCategory",
    "TradingBaseProduct" := "TradingBaseCategory"
  ]

  function LegacyId(sourceTable: string, id: string): string
  {
    sourceTable + ":" + id
  }

  datatype LinkRow = LinkRow(sourceTable: string, legacyProductId: string, legacyCategoryId: string)

  /** The ids a link row of the legacy database refers to. */
  function ReadLink(row: LinkRow): LegacyLink
  {
    LegacyLink(
      if row.sourceTable in PRODUCT_TO_CATEGORY_SOURCE_TABLE
      then Some(LegacyId(PRODUCT_TO_CATEGORY_SOURCE_TABLE[row.sourceTable], row.legacyCategoryId)) else None,
      LegacyId(row.sourceTable, row.legacyProductId))
  }

  const SEPARATOR: char := '\0'

  /** Product tables whose categories are migrated. */
  const TABLES := {"ClothesProduct", "ConfectioneryProduct", "DefaultProduct", "FlowersProduct", "GiftProduct", "RestaurantProduct",
                   "SemiFinishedProductsProduct", "TechnicProduct", "TradingBaseProduct"}

  lemma ByNameA(t: string)
    requires t in {"ClothesProduct", "ConfectioneryProduct", "DefaultProduct"}
    ensures t in PRODUCT_TO_CATEGORY_SOURCE_TABLE && |t| >= 7
    ensures PRODUCT_TO_CATEGORY_SOURCE_TABLE[t] == t[..|t| - 7] + "Category"
  {
    assert "ClothesProduct"[..7] == "Clothes" && "Clothes" + "Category" == "ClothesCategory";
    assert "ConfectioneryProduct"[..13] == "Confectionery" && "Confectionery" + "Category" == "ConfectioneryCategory";
    assert "DefaultProduct"[..7] == "Default" && "Default" + "Category" == "DefaultCategory";
  }

  lemma ByNameB(t: string)
    requires t in {"FlowersProduct", "GiftProduct", "RestaurantProduct"}
    ensures t in PRODUCT_TO_CATEGORY_SOURCE_TABLE && |t| >= 7
    ensures PRODUCT_TO_CATEGORY_SOURCE_TABLE[t] == t[..|t| - 7] + "Category"
  {
    assert "FlowersProduct"[..7] == "Flowers" && "Flowers" + "Category" == "FlowersCategory";
    assert "GiftProduct"[..4] == "Gift" && "Gift" + "Category" == "GiftCategory";
    assert "RestaurantProduct"[..10] == "Restaurant" && "Restaurant" + "Category" == "RestaurantCategory";
  }

  lemma ByNameC(t: string)
    requires t in {"SemiFinishedProductsProduct", "TechnicProduct", "TradingBaseProduct"}
    ensures t in PRODUCT_TO_CATEGORY_SOURCE_TABLE && |t| >= 7
    ensures PRODUCT_TO_CATEGORY_SOURCE_TABLE[t] == t[..|t| - 7] + "Category"
  {
    assert "SemiFinishedProductsProduct"[..20] == "SemiFinishedProducts" && "SemiFinishedProducts" + "Category" == "SemiFinishedProductsCategory";
    assert "TechnicProduct"[..7] == "Technic" && "Technic" + "Category" == "TechnicCategory";
    assert "TradingBaseProduct"[..11] == "TradingBase" && "TradingBase" + "Category" == "TradingBaseCategory";
  }

  /** The category table of XProduct is XCategory. */
  lemma CategoryTableByName(t: string)
    requires t in TABLES
    ensures t in PRODUCT_TO_CATEGORY_SOURCE_TABLE && |t| >= 7
    ensures PRODUCT_TO_CATEGORY_SOURCE_TABLE[t] == t[..|t| - 7] + "Category"
  {
    if t in {"ClothesProduct", "ConfectioneryProduct", "DefaultProduct"} {
      ByNameA(t);
    } else if t in {"FlowersProduct", "GiftProduct", "RestaurantProduct"} {
      ByNameB(t);
    } else {
      ByNameC(t);
    }
  }

  /** A link row is about a product of its table and a category of the table that
      goes with it; rows of other tables have no category. */
  lemma ReadLinkByTable(row: LinkRow)
    ensures ReadLink(row).product == row.sourceTable + ":" + row.legacyProductId
    ensures row.sourceTable in TABLES ==>
              |row.sourceTable| >= 7
              && ReadLink(row).category == Some(row.sourceTable[..|row.sourceTable| - 7] + "Category" + ":" + row.legacyCategoryId)
    ensures row.sourceTable !in TABLES ==> ReadLink(row).category == None
  {
    if row.sourceTable in TABLES {
      CategoryTableByName(row.sourceTable);
    }
  }

  /** The link ids of rows whose text is free of the separator are, too. */
  lemma ReadLinkIsSeparatorFree(row: LinkRow)
    requires SEPARATOR !in row.legacyCategoryId && ReadLink(row).category.Some?
    ensures SEPARATOR !in ReadLink(row).category.value
  {
    var t := PRODUCT_TO_CATEGORY_SOURCE_TABLE[row.sourceTable];
    assert ReadLink(row).category.value == t + [':'] + row.legacyCategoryId;
  }

  function PositionKey(category: string, product: string): string
  {
    category + [SEPARATOR] + product
  }

  /** Ids come from a database whose text columns cannot hold the separator. */
  lemma PositionKeyInjective(c1: string, p1: string, c2: string, p2: string)
    requires SEPARATOR !in c1 && SEPARATOR !in c2 && PositionKey(c1, p1) == PositionKey(c2, p2)
    ensures c1 == c2 && p1 == p2
  {
    FirstSeparatorSplits(c1, p1, c2, p2, SEPARATOR);
  }

  // ---------------------------------------------------------------- product order

  /** The index map of the products; the last occurrence of an id counts. */
  function OrderOf(products: seq<string>): map<string, nat>
  {
    if products == [] then map[]
    else OrderOf(products[..|products| - 1])[products[|products| - 1] := |products| - 1]
  }

  lemma {:induction false} OrderPlaces(products: seq<string>, p: string)
    ensures p in OrderOf(products) <==> p in products
    ensures p in OrderOf(products) ==> OrderOf(products)[p] < |products| && products[OrderOf(products)[p]] == p
    ensures p in OrderOf(products) ==> forall i :: 0 <= i < |products| && products[i] == p ==> i <= OrderOf(products)[p]
    decreases |products|
  {
    if products != [] {
      var front := products[..|products| - 1];
      OrderPlaces(front, p);
      assert p in products <==> p in front || p == products[|products| - 1];
    }
  }

  // ---------------------------------------------------------------- ranks

  /** The i-th link puts a known product into the category. */
  predicate LinksInto(products: seq<string>, link: LegacyLink, category: string)
  {
    link.category == Some(category) && link.product in OrderOf(products)
  }

  /** Order numbers of the distinct known products linked to the category by
      the first n links. */
  function Linked(products: seq<string>, links: seq<LegacyLink>, n: nat, category: string): set<Id>
    requires n <= |links|
  {
    set i | 0 <= i < n && LinksInto(products, links[i], category) :: OrderOf(products)[links[i].product]
  }

  function OrderGroup(orders: set<Id>): Group
  {
    map k | k in orders :: Slot(k, 0)
  }

  ghost predicate LinkedProduct(products: seq<string>, links: seq<LegacyLink>, category: string, product: string)
  {
    product in OrderOf(products) && OrderOf(products)[product] in Linked(products, links, |links|, category)
  }

  /** The number of linked products of the category that come earlier. */
  ghost function Position(products: seq<string>, links: seq<LegacyLink>, category: string, product: string): nat
    requires LinkedProduct(products, links, category, product)
  {
    Rank(OrderGroup(Linked(products, links, |links|, category)), OrderOf(products)[product])
  }

  lemma SmallerFirst(orders: set<Id>, a: Id, b: Id)
    requires a in orders && b in orders
    ensures Rank(OrderGroup(orders), a) < Rank(OrderGroup(orders), b) <==> a < b
  {
    var g := OrderGroup(orders);
    if a < b {
      RankFollowsOrder(g, a, b);
    } else if b < a {
      RankFollowsOrder(g, b, a);
    }
  }

  /** Positions within a category follow the product order, so two categories
      rank the products they share alike. */
  lemma CategoriesAgree(products: seq<string>, links: seq<LegacyLink>, c1: string, c2: string, p: string, q: string)
    requires LinkedProduct(products, links, c1, p) && LinkedProduct(products, links, c1, q)
    requires LinkedProduct(products, links, c2, p) && LinkedProduct(products, links, c2, q)
    ensures Position(products, links, c1, p) < Position(products, links, c1, q) <==> OrderOf(products)[p] < OrderOf(products)[q]
    ensures Position(products, links, c1, p) < Position(products, links, c1, q) <==>
            Position(products, links, c2, p) < Position(products, links, c2, q)
  {
    var order := OrderOf(products);
    SmallerFirst(Linked(products, links, |links|, c1), order[p], order[q]);
    SmallerFirst(Linked(products, links, |links|, c2), order[p], order[q]);
  }

  /** The positions of a category are a bijection onto 0..n-1. */
  lemma PositionsAreDense(products: seq<string>, links: seq<LegacyLink>, category: string)
    ensures forall p :: LinkedProduct(products, links, category, p) ==>
      Position(products, links, category, p) < |Linked(products, links, |links|, category)|
    ensures forall p, q :: LinkedProduct(products, links, category, p) && LinkedProduct(products, links, category, q) ==>
      (Position(products, links, category, p) == Position(products, links, category, q) ==> p == q)
  {
    var orders := Linked(products, links, |links|, category);
    var g := OrderGroup(orders);
    assert g.Keys == orders;
    forall p | LinkedProduct(products, links, category, p)
      ensures Position(products, links, category, p) < |orders|
    {
      RankInRange(g, OrderOf(products)[p]);
    }
    forall p, q | LinkedProduct(products, links, category, p) && LinkedProduct(products, links, category, q)
      && Position(products, links, category, p) == Position(products, links, category, q)
      ensures p == q
    {
      SmallerFirst(orders, OrderOf(products)[p], OrderOf(products)[q]);
      SmallerFirst(orders, OrderOf(products)[q], OrderOf(products)[p]);
      OrderPlaces(products, p);
      OrderPlaces(products, q);
    }
  }

  /** Every position below n is taken by some linked product. */
  lemma PositionTaken(products: seq<string>, links: seq<LegacyLink>, category: string, i: nat)
    returns (p: string)
    requires i < |Linked(products, links, |links|, category)|
    ensures LinkedProduct(products, links, category, p) && Position(products, links, category, p) == i
  {
    var orders := Linked(products, links, |links|, category);
    var g := OrderGroup(orders);
    assert g.Keys == orders;
    var order := SomeListing(g);
    ListingSize(g, order);
    ListedAtRank(g, order, i);
    var k :| 0 <= k < |links| && LinksInto(products, links[k], category) && OrderOf(products)[links[k].product] == order[i];
    p := links[k].product;
  }

  // ---------------------------------------------------------------- building the map

  ghost predicate SeparatorFree(links: seq<LegacyLink>)
  {
    forall i :: 0 <= i < |links| && links[i].category.Some? ==> SEPARATOR !in links[i].category.value
  }

  ghost function CategoriesOf(products: seq<string>, links: seq<LegacyLink>, n: nat): set<string>
    requires n <= |links|
  {
    set i | 0 <= i < n && links[i].category.Some? && links[i].product in OrderOf(products) :: links[i].category.value
  }

  /** First pass: the order numbers linked to each category, repeats included. */
  method GroupLinks(products: seq<string>, links: seq<LegacyLink>) returns (byCategory: map<string, seq<Id>>)
    ensures byCategory.Keys == CategoriesOf(products, links, |links|)
    ensures forall c :: c in byCategory ==> Elements(byCategory[c]) == Linked(products, links, |links|, c)
  {
    var order := OrderOf(products);
    byCategory := map[];
    for n := 0 to |links|
      invariant byCategory.Keys == CategoriesOf(products, links, n)
      invariant forall c :: c in byCategory ==> Elements(byCategory[c]) == Linked(products, links, n, c)
    {
      var category := links[n].category;
      var product := links[n].product;
      if category.Some? && product in order {
        var c := category.value;
        var rows := if c in byCategory then byCategory[c] else [];
        byCategory := byCategory[c := rows + [order[product]]];
        assert Elements(rows + [order[product]]) == Elements(rows) + {order[product]};
      }
    }
  }

  /** Entries of other categories. */
  ghost predicate KeepsOthers(before: map<string, nat>, after: map<string, nat>, category: string)
  {
    forall c, p :: c != category && SEPARATOR !in c && PositionKey(c, p) in before ==>
      PositionKey(c, p) in after && after[PositionKey(c, p)] == before[PositionKey(c, p)]
  }

  /** Second pass, one category: each listed product gets its index. */
  method AssignPositions(products: seq<string>, category: string, order: seq<Id>, positions: map<string, nat>)
    returns (r: map<string, nat>)
    requires SEPARATOR !in category
    requires forall i :: 0 <= i < |order| ==> 0 <= order[i] < |products|
    requires forall i, j :: 0 <= i < j < |order| ==> products[order[i]] != products[order[j]]
    ensures forall i :: 0 <= i < |order| ==>
      PositionKey(category, products[order[i]]) in r && r[PositionKey(category, products[order[i]])] == i
    ensures KeepsOthers(positions, r, category)
  {
    r := positions;
    for i := 0 to |order|
      invariant forall k :: 0 <= k < i ==>
        PositionKey(category, products[order[k]]) in r && r[PositionKey(category, products[order[k]])] == k
      invariant KeepsOthers(positions, r, category)
    {
      var key := PositionKey(category, products[order[i]]);
      forall k | 0 <= k < i
        ensures PositionKey(category, products[order[k]]) != key
      {
        if PositionKey(category, products[order[k]]) == key {
          PositionKeyInjective(category, products[order[k]], category, products[order[i]]);
        }
      }
      forall c, p | c != category && SEPARATOR !in c
        ensures PositionKey(c, p) != key
      {
        if PositionKey(c, p) == key {
          PositionKeyInjective(c, p, category, products[order[i]]);
        }
      }
      r := r[key := i];
    }
  }

  ghost predicate Placed(products: seq<string>, links: seq<LegacyLink>, positions: map<string, nat>, category: string)
  {
    forall p :: LinkedProduct(products, links, category, p) ==>
      PositionKey(category, p) in positions && positions[PositionKey(category, p)] == Position(products, links, category, p)
  }

  method PlaceCategory(products: seq<string>, ghost links: seq<LegacyLink>, category: string, rows: seq<Id>, positions: map<string, nat>)
    returns (r: map<string, nat>)
    requires SEPARATOR !in category && Elements(rows) == Linked(products, links, |links|, category)
    ensures Placed(products, links, r, category) && KeepsOthers(positions, r, category)
  {
    var g := OrderGroup(Elements(rows));
    var order := FindOrdered(g);
    forall i | 0 <= i < |order|
      ensures 0 <= order[i] < |products| && products[order[i]] in OrderOf(products) && OrderOf(products)[products[order[i]]] == order[i]
    {
      OrderNumberOf(products, links, category, order[i]);
    }
    r := AssignPositions(products, category, order, positions);
    forall p | LinkedProduct(products, links, category, p)
      ensures PositionKey(category, p) in r && r[PositionKey(category, p)] == Position(products, links, category, p)
    {
      OrderPlaces(products, p);
      var k: Id := OrderOf(products)[p];
      assert k in g;
      var i :| 0 <= i < |order| && order[i] == k;
      ListedAtRank(g, order, i);
    }
  }

  lemma OrderNumberOf(products: seq<string>, links: seq<LegacyLink>, category: string, k: Id)
    requires k in Linked(products, links, |links|, category)
    ensures 0 <= k < |products| && products[k] in OrderOf(products) && OrderOf(products)[products[k]] == k
  {
    var i :| 0 <= i < |links| && LinksInto(products, links[i], category) && OrderOf(products)[links[i].product] == k;
    OrderPlaces(products, links[i].product);
  }

  /** `buildCategoryProductPositionMap`: every linked known product of every
      category gets its rank, whatever repeated links and unknown products the
      group contains. */
  method BuildPositionMap(products: seq<string>, links: seq<LegacyLink>) returns (positions: map<string, nat>)
    requires SeparatorFree(links)
    ensures forall c :: Placed(products, links, positions, c)
  {
    var byCategory := GroupLinks(products, links);
    positions := map[];
    var rest := byCategory.Keys;
    while rest != {}
      invariant rest <= byCategory.Keys
      invariant forall c :: c in byCategory && c !in rest ==> Placed(products, links, positions, c)
      decreases |rest|
    {
      var category := AnyOf(rest);
      var placed := PlaceCategory(products, links, category, byCategory[category], positions);
      positions := placed;
      rest := rest - {category};
    }
  }
}
