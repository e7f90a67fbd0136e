/** The console's two position repairs over the category tables. */
module PositionConsole {
  import opened Basics
  import opened Counting
  import opened PositionRepair

  datatype Category = Category(catalog: Id, position: int, createdAt: int, live: bool)
  type Categories = map<Id, Category>

  /** A category-product row: its key. The table maps it to its position. */
  datatype Link = Link(category: Id, product: Id)
  type Links = map<Link, int>

  // ---------------------------------------------------------------- categories

  predicate InCatalog(cs: Categories, catalog: Id, id: Id)
  {
    id in cs && cs[id].live && cs[id].catalog == catalog
  }

  function CategoryGroup(cs: Categories, catalog: Id): Group
  {
    map id | id in cs && InCatalog(cs, catalog, id) :: Slot(cs[id].position, cs[id].createdAt)
  }

  /** `countCategoryPositionGaps` */
  ghost function CategoryGapCount(cs: Categories, catalog: Id): nat
  {
    |Gaps(CategoryGroup(cs, catalog))|
  }

  ghost function RepairedCategories(cs: Categories, catalog: Id): Categories
  {
    map id | id in cs ::
      if InCatalog(cs, catalog, id) then cs[id].(position := Rank(CategoryGroup(cs, catalog), id)) else cs[id]
  }

  /** The repair reaches the fixed point of the diagnostic and of itself, and
      leaves other catalogs and deleted categories alone. */
  lemma CategoriesRepaired(cs: Categories, catalog: Id, other: Id)
    ensures CategoryGroup(RepairedCategories(cs, catalog), catalog) == Repaired(CategoryGroup(cs, catalog))
    ensures CategoryGapCount(RepairedCategories(cs, catalog), catalog) == 0
    ensures RepairedCategories(RepairedCategories(cs, catalog), catalog) == RepairedCategories(cs, catalog)
    ensures other != catalog ==> CategoryGroup(RepairedCategories(cs, catalog), other) == CategoryGroup(cs, other)
  {
    var d := RepairedCategories(cs, catalog);
    var g := CategoryGroup(cs, catalog);
    assert CategoryGroup(d, catalog) == Repaired(g);
    RepairedHasNoGaps(g);
    forall id | InCatalog(d, catalog, id)
      ensures Rank(CategoryGroup(d, catalog), id) == d[id].position
    {
      assert id in Repaired(g);
    }
  }

  /** Live categories of the catalog that come before: by position, then age, then id. */
  ghost function CategoriesBefore(cs: Categories, catalog: Id, id: Id): set<Id>
    requires id in cs
  {
    set x | && x in cs && cs[x].live && cs[x].catalog == catalog
            && (cs[x].position < cs[id].position
                || (cs[x].position == cs[id].position && cs[x].createdAt < cs[id].createdAt)
                || (cs[x].position == cs[id].position && cs[x].createdAt == cs[id].createdAt && x < id))
  }

  /** The repair sets the positions of the catalog's live categories, and nothing
      else, to the number of categories before each. */
  lemma RepairedCategoryRows(cs: Categories, catalog: Id, id: Id)
    requires id in cs
    ensures var d := RepairedCategories(cs, catalog);
            && d.Keys == cs.Keys
            && d[id] == if cs[id].live && cs[id].catalog == catalog
                        then cs[id].(position := |CategoriesBefore(cs, catalog, id)|) else cs[id]
  {
    if InCatalog(cs, catalog, id) {
      assert Earlier(CategoryGroup(cs, catalog), id) == CategoriesBefore(cs, catalog, id);
    }
  }

  ghost function CategoriesOffPlace(cs: Categories, catalog: Id): set<Id>
  {
    set id | id in cs && cs[id].live && cs[id].catalog == catalog && cs[id].position != |CategoriesBefore(cs, catalog, id)|
  }

  /** The diagnostic counts the live categories of the catalog that are not there. */
  lemma CategoryGapsAre(cs: Categories, catalog: Id)
    ensures CategoryGapCount(cs, catalog) == |CategoriesOffPlace(cs, catalog)|
  {
    forall id | InCatalog(cs, catalog, id)
      ensures Rank(CategoryGroup(cs, catalog), id) == |CategoriesBefore(cs, catalog, id)|
    {
      assert Earlier(CategoryGroup(cs, catalog), id) == CategoriesBefore(cs, catalog, id);
    }
    assert Gaps(CategoryGroup(cs, catalog)) == CategoriesOffPlace(cs, catalog);
  }

  // ---------------------------------------------------------------- product links

  predicate LinkInCatalog(cs: Categories, catalog: Id, link: Link)
  {
    link.category in cs && cs[link.category].catalog == catalog
  }

  function LinkGroup(links: Links, category: Id): Group
  {
    map link | link in links && link.category == category :: link.product := Slot(links[link], 0)
  }

  /** Off its rank within its category. */
  ghost predicate Misplaced(links: Links, link: Link)
    requires link in links
  {
    links[link] != Rank(LinkGroup(links, link.category), link.product)
  }

  /** `countProductPositionGaps`: the window is partitioned by category. */
  ghost function LinkGaps(links: Links, cs: Categories, catalog: Id): set<Link>
  {
    set link | link in links && LinkInCatalog(cs, catalog, link) && Misplaced(links, link)
  }

  ghost function RankOfLink(links: Links, link: Link): nat
    requires link in links
  {
    Rank(LinkGroup(links, link.category), link.product)
  }

  ghost function RepairedLinks(links: Links, cs: Categories, catalog: Id): Links
  {
    map link | link in links :: if LinkInCatalog(cs, catalog, link) then RankOfLink(links, link) else links[link]
  }

  lemma RepairedLinkGroup(links: Links, cs: Categories, catalog: Id, category: Id)
    requires category in cs && cs[category].catalog == catalog
    ensures LinkGroup(RepairedLinks(links, cs, catalog), category) == Repaired(LinkGroup(links, category))
  {
  }

  lemma LinksRepaired(links: Links, cs: Categories, catalog: Id)
    ensures LinkGaps(RepairedLinks(links, cs, catalog), cs, catalog) == {}
    ensures RepairedLinks(RepairedLinks(links, cs, catalog), cs, catalog) == RepairedLinks(links, cs, catalog)
  {
    var d := RepairedLinks(links, cs, catalog);
    forall link | link in d && LinkInCatalog(cs, catalog, link)
      ensures RankOfLink(d, link) == d[link]
    {
      RepairedLinkGroup(links, cs, catalog, link.category);
      RankPreserved(LinkGroup(links, link.category), link.product);
    }
  }

  /** Products of the same category that come before: by position, then id. */
  ghost function ProductsBefore(links: Links, link: Link): set<Id>
    requires link in links
  {
    set x | x in links && x.category == link.category
            && (links[x] < links[link] || (links[x] == links[link] && x.product < link.product)) :: x.product
  }

  lemma RankIsProductsBefore(links: Links, link: Link)
    requires link in links
    ensures RankOfLink(links, link) == |ProductsBefore(links, link)|
  {
    var g := LinkGroup(links, link.category);
    assert link == Link(link.category, link.product);
    forall p | p in Earlier(g, link.product)
      ensures p in ProductsBefore(links, link)
    {
      assert Link(link.category, p) in links;
    }
    forall x | x in links && x.category == link.category
      ensures x == Link(link.category, x.product) && x.product in g && g[x.product].position == links[x]
    {
    }
    assert Earlier(g, link.product) == ProductsBefore(links, link);
  }

  /** The repair sets the links of the catalog's categories, and no others, to the
      number of products before each; the diagnostic finds those that are not
      there. Deleted categories are included. */
  lemma RepairedLinkRows(links: Links, cs: Categories, catalog: Id, link: Link)
    requires link in links
    ensures var d := RepairedLinks(links, cs, catalog);
            var ours := link.category in cs && cs[link.category].catalog == catalog;
            && d.Keys == links.Keys && d[link] == (if ours then |ProductsBefore(links, link)| else links[link])
            && (link in LinkGaps(links, cs, catalog) <==> ours && links[link] != |ProductsBefore(links, link)|)
  {
    RankIsProductsBefore(links, link);
  }

  // ---------------------------------------------------------------- grouping the ordered rows

  predicate LinkLess(links: Links, a: Link, b: Link)
    requires a in links && b in links
  {
    || a.category < b.category
    || (a.category == b.category && links[a] < links[b])
    || (a.category == b.category && links[a] == links[b] && a.product < b.product)
  }

  ghost predicate LinkListing(links: Links, cs: Categories, catalog: Id, rows: seq<Link>)
  {
    && (forall i :: 0 <= i < |rows| ==> rows[i] in links && LinkInCatalog(cs, catalog, rows[i]))
    && (forall link :: link in links && LinkInCatalog(cs, catalog, link) ==> link in rows)
    && (forall i, j :: 0 <= i < j < |rows| ==> LinkLess(links, rows[i], rows[j]))
  }

  method EarliestLink(links: Links, rest: set<Link>) returns (first: Link)
    requires rest != {} && rest <= links.Keys
    ensures first in rest && forall x :: x in rest && x != first ==> LinkLess(links, first, x)
  {
    first := AnyOf(rest);
    var todo := rest - {first};
    while todo != {}
      invariant first in rest && todo <= rest - {first}
      invariant forall y :: y in rest ==> y in todo || y == first || LinkLess(links, first, y)
      decreases |todo|
    {
      var x := AnyOf(todo);
      todo := todo - {x};
      if LinkLess(links, x, first) {
        first := x;
      }
    }
  }

  /** `findMany` ordered by category, position and product. */
  method FindOrderedLinks(links: Links, cs: Categories, catalog: Id) returns (rows: seq<Link>)
    ensures LinkListing(links, cs, catalog, rows)
  {
    rows := [];
    var rest := set link | link in links && LinkInCatalog(cs, catalog, link);
    while rest != {}
      invariant forall x :: x in rest ==> x in links && LinkInCatalog(cs, catalog, x)
      invariant forall i :: 0 <= i < |rows| ==> rows[i] in links && LinkInCatalog(cs, catalog, rows[i])
      invariant forall link :: link in links && LinkInCatalog(cs, catalog, link) ==> link in rest || link in rows
      invariant forall i, j :: 0 <= i < j < |rows| ==> LinkLess(links, rows[i], rows[j])
      invariant forall i, x :: 0 <= i < |rows| && x in rest ==> LinkLess(links, rows[i], x)
      decreases |rest|
    {
      var first := EarliestLink(links, rest);
      rows := rows + [first];
      rest := rest - {first};
    }
  }

  /** Products of one category among the first n rows, in row order. */
  function ProductsOf(rows: seq<Link>, n: nat, category: Id): seq<Id>
    requires n <= |rows|
  {
    if n == 0 then []
    else ProductsOf(rows, n - 1, category) + (if rows[n - 1].category == category then [rows[n - 1].product] else [])
  }

  ghost predicate Among(rows: seq<Link>, n: nat, link: Link)
    requires n <= |rows|
  {
    exists k :: 0 <= k < n && rows[k] == link
  }

  lemma {:induction false} ProductsListed(rows: seq<Link>, n: nat, category: Id, p: Id)
    requires n <= |rows|
    ensures p in ProductsOf(rows, n, category) <==> Among(rows, n, Link(category, p))
    decreases n
  {
    if n > 0 {
      ProductsListed(rows, n - 1, category, p);
      assert Among(rows, n, Link(category, p)) <==> Among(rows, n - 1, Link(category, p)) || rows[n - 1] == Link(category, p);
    }
  }

  ghost predicate InOrder(links: Links, category: Id, order: seq<Id>)
  {
    forall i, j :: 0 <= i < j < |order| ==>
      Link(category, order[i]) in links && Link(category, order[j]) in links
      && LinkLess(links, Link(category, order[i]), Link(category, order[j]))
  }

  lemma {:induction false} ProductsInOrder(links: Links, cs: Categories, catalog: Id, rows: seq<Link>, n: nat, category: Id)
    requires LinkListing(links, cs, catalog, rows) && n <= |rows|
    ensures InOrder(links, category, ProductsOf(rows, n, category))
    decreases n
  {
    if n > 0 {
      ProductsInOrder(links, cs, catalog, rows, n - 1, category);
      var before, order := ProductsOf(rows, n - 1, category), ProductsOf(rows, n, category);
      if rows[n - 1].category != category {
        assert order == before;
      } else {
        forall q | q in before
          ensures Link(category, q) in links && LinkLess(links, Link(category, q), rows[n - 1])
        {
          ProductsListed(rows, n - 1, category, q);
          var k :| 0 <= k < n - 1 && rows[k] == Link(category, q);
        }
        assert rows[n - 1] == Link(category, rows[n - 1].product);
        assert order == before + [rows[n - 1].product];
      }
    }
  }

  /** The rows of a category, in the order of the query, list its group. */
  lemma CategoryListed(links: Links, cs: Categories, catalog: Id, rows: seq<Link>, category: Id)
    requires LinkListing(links, cs, catalog, rows) && category in cs && cs[category].catalog == catalog
    ensures Listing(LinkGroup(links, category), ProductsOf(rows, |rows|, category))
  {
    var g := LinkGroup(links, category);
    var order := ProductsOf(rows, |rows|, category);
    ProductsInOrder(links, cs, catalog, rows, |rows|, category);
    forall i | 0 <= i < |order|
      ensures order[i] in g && g[order[i]] == Slot(links[Link(category, order[i])], 0)
    {
      ProductsListed(rows, |rows|, category, order[i]);
    }
    forall p | p in g
      ensures p in order
    {
      ProductsListed(rows, |rows|, category, p);
    }
  }

  datatype LinkUpdate = LinkUpdate(link: Link, position: nat)

  ghost predicate LinkFixed(links: Links, u: LinkUpdate)
  {
    u.link in links && Misplaced(links, u.link) && u.position == RankOfLink(links, u.link)
  }

  ghost predicate HasUpdate(updates: seq<LinkUpdate>, link: Link)
  {
    exists i :: 0 <= i < |updates| && updates[i].link == link
  }

  ghost predicate DistinctLinks(updates: seq<LinkUpdate>)
  {
    forall i, j :: 0 <= i < j < |updates| ==> updates[i].link != updates[j].link
  }

  /** The updates cover the misplaced links of the given categories, once each. */
  ghost predicate FixesLinks(links: Links, done: set<Id>, updates: seq<LinkUpdate>)
  {
    && DistinctLinks(updates)
    && (forall i :: 0 <= i < |updates| ==> LinkFixed(links, updates[i]) && updates[i].link.category in done)
    && (forall link :: link in links && link.category in done && Misplaced(links, link) ==> HasUpdate(updates, link))
  }

  function LinkUpdates(category: Id, fixes: seq<Update>): (r: seq<LinkUpdate>)
    ensures |r| == |fixes|
    ensures forall i :: 0 <= i < |r| ==> r[i] == LinkUpdate(Link(category, fixes[i].id), fixes[i].position)
  {
    seq(|fixes|, i requires 0 <= i < |fixes| => LinkUpdate(Link(category, fixes[i].id), fixes[i].position))
  }

  lemma CategoryFixes(links: Links, category: Id, fixes: seq<Update>)
    requires Fixes(LinkGroup(links, category), fixes)
    ensures FixesLinks(links, {category}, LinkUpdates(category, fixes))
  {
    var g := LinkGroup(links, category);
    var us := LinkUpdates(category, fixes);
    forall i | 0 <= i < |us|
      ensures LinkFixed(links, us[i])
    {
    }
    forall link | link in links && link.category in {category} && Misplaced(links, link)
      ensures HasUpdate(us, link)
    {
      assert link.product in Gaps(g);
      var i :| 0 <= i < |fixes| && fixes[i].id == link.product;
      assert us[i].link == link;
    }
  }

  lemma FixesJoin(links: Links, a: set<Id>, b: set<Id>, us: seq<LinkUpdate>, vs: seq<LinkUpdate>)
    requires FixesLinks(links, a, us) && FixesLinks(links, b, vs) && a !! b
    ensures FixesLinks(links, a + b, us + vs)
  {
    forall link | link in links && link.category in a + b && Misplaced(links, link)
      ensures HasUpdate(us + vs, link)
    {
      if link.category in a {
        var i :| 0 <= i < |us| && us[i].link == link;
        assert (us + vs)[i].link == link;
      } else {
        var i :| 0 <= i < |vs| && vs[i].link == link;
        assert (us + vs)[|us| + i].link == link;
      }
    }
  }

  ghost function CategoriesOf(rows: seq<Link>, n: nat): set<Id>
    requires n <= |rows|
  {
    set k | 0 <= k < n :: rows[k].category
  }

  lemma CategoriesGrow(rows: seq<Link>, n: nat)
    requires n < |rows|
    ensures CategoriesOf(rows, n + 1) == CategoriesOf(rows, n) + {rows[n].category}
  {
  }

  lemma {:induction false} NoProducts(rows: seq<Link>, n: nat, category: Id)
    requires n <= |rows| && category !in CategoriesOf(rows, n)
    ensures ProductsOf(rows, n, category) == []
    decreases n
  {
    if n > 0 {
      CategoriesGrow(rows, n - 1);
      NoProducts(rows, n - 1, category);
    }
  }

  /** Grouping rows by category, in row order. */
  method GroupRows(rows: seq<Link>) returns (byCategory: map<Id, seq<Id>>)
    ensures byCategory.Keys == CategoriesOf(rows, |rows|)
    ensures forall c :: c in byCategory ==> byCategory[c] == ProductsOf(rows, |rows|, c)
  {
    byCategory := map[];
    for i := 0 to |rows|
      invariant byCategory.Keys == CategoriesOf(rows, i)
      invariant forall c :: c in byCategory ==> byCategory[c] == ProductsOf(rows, i, c)
    {
      var c := rows[i].category;
      if c !in byCategory {
        NoProducts(rows, i, c);
      }
      CategoriesGrow(rows, i);
      var categoryRows := if c in byCategory then byCategory[c] else [];
      byCategory := byCategory[c := categoryRows + [rows[i].product]];
    }
  }

  method PlanCategory(links: Links, category: Id, order: seq<Id>) returns (updates: seq<LinkUpdate>)
    requires Listing(LinkGroup(links, category), order)
    ensures FixesLinks(links, {category}, updates)
  {
    var fixes := PlanUpdates(LinkGroup(links, category), order);
    CategoryFixes(links, category, fixes);
    updates := LinkUpdates(category, fixes);
  }

  ghost predicate Listed(links: Links, byCategory: map<Id, seq<Id>>, category: Id)
    requires category in byCategory
  {
    Listing(LinkGroup(links, category), byCategory[category])
  }

  method PlanCategories(links: Links, byCategory: map<Id, seq<Id>>) returns (updates: seq<LinkUpdate>)
    requires forall c :: c in byCategory ==> Listed(links, byCategory, c)
    ensures FixesLinks(links, byCategory.Keys, updates)
  {
    updates := [];
    var rest := byCategory.Keys;
    ghost var done: set<Id> := {};
    while rest != {}
      invariant done + rest == byCategory.Keys && done !! rest
      invariant FixesLinks(links, done, updates)
      decreases |rest|
    {
      var c := AnyOf(rest);
      assert Listed(links, byCategory, c);
      var more := PlanCategory(links, c, byCategory[c]);
      FixesJoin(links, done, {c}, updates, more);
      updates := updates + more;
      rest := rest - {c};
      done := done + {c};
    }
  }

  /** The update list of `normalizeCategoryProducts`. */
  method PlanLinkUpdates(links: Links, ghost cs: Categories, ghost catalog: Id, rows: seq<Link>)
    returns (updates: seq<LinkUpdate>)
    requires LinkListing(links, cs, catalog, rows)
    ensures FixesLinks(links, CategoriesOf(rows, |rows|), updates)
  {
    var byCategory := GroupRows(rows);
    forall c | c in byCategory
      ensures Listed(links, byCategory, c)
    {
      CategoryListed(links, cs, catalog, rows, c);
    }
    updates := PlanCategories(links, byCategory);
  }

  lemma AllCategoriesFixed(links: Links, cs: Categories, catalog: Id, rows: seq<Link>, updates: seq<LinkUpdate>)
    requires LinkListing(links, cs, catalog, rows)
    requires FixesLinks(links, CategoriesOf(rows, |rows|), updates)
    ensures |updates| == |LinkGaps(links, cs, catalog)|
    ensures Reaches(links, RepairedLinks(links, cs, catalog), updates)
  {
    forall link | link in LinkGaps(links, cs, catalog)
      ensures HasUpdate(updates, link)
    {
      var k :| 0 <= k < |rows| && rows[k] == link;
    }
    OneUpdateEach(updates, LinkGaps(links, cs, catalog));
  }

  lemma OneUpdateEach(updates: seq<LinkUpdate>, gaps: set<Link>)
    requires DistinctLinks(updates) && forall i :: 0 <= i < |updates| ==> updates[i].link in gaps
    requires forall link :: link in gaps ==> HasUpdate(updates, link)
    ensures |updates| == |gaps|
  {
    var xs := seq(|updates|, i requires 0 <= i < |updates| => updates[i].link);
    forall link | link in gaps
      ensures link in xs
    {
      var i :| 0 <= i < |updates| && updates[i].link == link;
      assert xs[i] == link;
    }
    DistinctCount(xs);
    assert Elements(xs) == gaps;
  }

  /** Carrying out the updates takes one table to the other. */
  ghost predicate Reaches(before: Links, after: Links, updates: seq<LinkUpdate>)
  {
    && before.Keys == after.Keys
    && (forall i :: 0 <= i < |updates| ==> updates[i].link in after && updates[i].position == after[updates[i].link])
    && (forall link :: link in before && before[link] != after[link] ==> HasUpdate(updates, link))
  }

  /** Writing positions row by row. */
  method ApplyLinkUpdates(before: Links, updates: seq<LinkUpdate>, ghost after: Links) returns (links: Links)
    requires Reaches(before, after, updates)
    ensures links == after
  {
    links := before;
    for i := 0 to |updates|
      invariant links.Keys == before.Keys
      invariant forall link :: link in links ==> links[link] == before[link] || links[link] == after[link]
      invariant forall k :: 0 <= k < i ==> links[updates[k].link] == after[updates[k].link]
    {
      links := links[updates[i].link := updates[i].position];
    }
    forall link | link in links
      ensures links[link] == after[link]
    {
      if before[link] != after[link] {
        var i :| 0 <= i < |updates| && updates[i].link == link;
      }
    }
  }

  // ---------------------------------------------------------------- the console

  class Console {
    var categories: Categories
    var links: Links

    constructor (cs: Categories, ls: Links)
      ensures categories == cs && links == ls
    {
      categories := cs;
      links := ls;
    }

    /** `normalizeCategories`: as many updates as the diagnostic counts gaps;
        declined, it changes nothing. */
    method NormalizeCategories(catalog: Id, accepted: bool) returns (updates: seq<Update>)
      modifies this`categories
      ensures |updates| == CategoryGapCount(old(categories), catalog)
      ensures categories == if accepted then RepairedCategories(old(categories), catalog) else old(categories)
    {
      ghost var g := CategoryGroup(categories, catalog);
      var order := FindOrdered(CategoryGroup(categories, catalog));
      updates := PlanUpdates(CategoryGroup(categories, catalog), order);
      UpdatesMatchGaps(g, updates);
      if !accepted {
        return;
      }
      for i := 0 to |updates|
        invariant categories.Keys == old(categories).Keys
        invariant forall id :: id in categories ==> categories[id] == old(categories)[id].(position := categories[id].position)
        invariant forall id :: id in categories ==>
          categories[id].position == (if exists k :: 0 <= k < i && updates[k].id == id then Rank(g, id) else old(categories)[id].position)
      {
        var u := updates[i];
        categories := categories[u.id := categories[u.id].(position := u.position)];
      }
      forall id | id in categories
        ensures categories[id] == RepairedCategories(old(categories), catalog)[id]
      {
        if InCatalog(old(categories), catalog, id) {
          assert id in Gaps(g) <==> g[id].position != Rank(g, id);
        }
      }
    }

    /** `normalizeCategoryProducts` */
    method NormalizeCategoryProducts(catalog: Id, accepted: bool) returns (updates: seq<LinkUpdate>)
      modifies this`links
      ensures |updates| == |LinkGaps(old(links), categories, catalog)|
      ensures links == if accepted then RepairedLinks(old(links), categories, catalog) else old(links)
    {
      var rows := FindOrderedLinks(links, categories, catalog);
      updates := PlanLinkUpdates(links, categories, catalog, rows);
      AllCategoriesFixed(links, categories, catalog, rows, updates);
      if !accepted {
        return;
      }
      links := ApplyLinkUpdates(links, updates, RepairedLinks(links, categories, catalog));
    }
  }
}
