/** The migration against the console: what the position diagnostic reports on
    the category-product table that the migration leaves. */
module MigratedPositions {
  import opened Counting
  import opened PositionRepair
  import opened CategoryPositions
  import opened CategoryLinks
  import Console = PositionConsole

  ghost function RowsOf(table: Table, c: Id): set<Row>
  {
    set row | row in table && row.category == c
  }

  /** A category's group has the positions of its rows. */
  lemma GroupHasRows(table: Table, c: Id)
    ensures var g := Console.LinkGroup(table, c);
            && |g| == |RowsOf(table, c)| && Image(g.Keys, PositionsOf(g)) == Image(RowsOf(table, c), table)
            && (OneToOne(g.Keys, PositionsOf(g)) <==> OneToOne(RowsOf(table, c), table))
  {
    var g, rows := Console.LinkGroup(table, c), RowsOf(table, c);
    forall p
      ensures p in g <==> Console.Link(c, p) in rows
      ensures p in g ==> PositionsOf(g)[p] == table[Console.Link(c, p)]
    {
    }
    forall row | row in rows
      ensures row == Console.Link(c, row.product) && row.product in g
    {
    }
    var product := map row | row in rows :: row.product;
    assert Image(rows, product) == g.Keys;
    ImageCount(rows, product);
    SamePositions(table, c);
  }

  lemma SamePositions(table: Table, c: Id)
    ensures var g := Console.LinkGroup(table, c);
            && Image(g.Keys, PositionsOf(g)) == Image(RowsOf(table, c), table)
            && (OneToOne(g.Keys, PositionsOf(g)) <==> OneToOne(RowsOf(table, c), table))
  {
    var g, rows := Console.LinkGroup(table, c), RowsOf(table, c);
    forall p | p in g
      ensures Console.Link(c, p) in rows && PositionsOf(g)[p] == table[Console.Link(c, p)]
    {
    }
    forall row | row in rows
      ensures row == Console.Link(c, row.product) && row.product in g && PositionsOf(g)[row.product] == table[row]
    {
    }
  }

  /** The diagnostic of a catalog looks at each of its categories. */
  lemma GapsByCategory(table: Table, cs: Console.Categories, catalog: Id)
    ensures Console.LinkGaps(table, cs, catalog) == {} <==>
            forall c :: c in cs && cs[c].catalog == catalog ==> Gaps(Console.LinkGroup(table, c)) == {}
  {
    if Console.LinkGaps(table, cs, catalog) == {} {
      forall c, p | c in cs && cs[c].catalog == catalog && p in Console.LinkGroup(table, c)
        ensures p !in Gaps(Console.LinkGroup(table, c))
      {
        assert Console.Link(c, p) in table && Console.Link(c, p) !in Console.LinkGaps(table, cs, catalog);
      }
    }
    if forall c :: c in cs && cs[c].catalog == catalog ==> Gaps(Console.LinkGroup(table, c)) == {} {
      forall row | row in table && Console.LinkInCatalog(cs, catalog, row)
        ensures row !in Console.LinkGaps(table, cs, catalog)
      {
        var g := Console.LinkGroup(table, row.category);
        assert row.product in g && g[row.product].position == table[row];
        assert row.product !in Gaps(g);
      }
    }
  }

  /** Rows of the catalog from earlier runs are among those the links name. */
  ghost predicate NothingElse(links: seq<LegacyLink>, t: Targets, before: Table, cs: Console.Categories, catalog: Id)
  {
    forall row :: row in before && Console.LinkInCatalog(cs, catalog, row) ==> Named(links, |links|, t, row)
  }

  lemma RowsAreNamed(group: seq<string>, links: seq<LegacyLink>, t: Targets, before: Table, cs: Console.Categories, catalog: Id, c: Id)
    requires NothingElse(links, t, before, cs, catalog) && c in cs && cs[c].catalog == catalog
    ensures RowsOf(Written(group, links, |links|, t, before), c) == RowsIn(links, t, c)
  {
    forall row
      ensures row in RowsOf(Written(group, links, |links|, t, before), c) <==> row in RowsIn(links, t, c)
    {
      RowsInNamed(links, t, c, row);
      LastLinkWins(group, links, |links|, t, before, row);
    }
  }

  lemma CategoryHasNoGapsIff(group: seq<string>, links: seq<LegacyLink>, t: Targets, before: Table, cs: Console.Categories,
                             catalog: Id, c: Id)
    requires NothingElse(links, t, before, cs, catalog) && c in cs && cs[c].catalog == catalog
    ensures Gaps(Console.LinkGroup(Written(group, links, |links|, t, before), c)) == {} <==>
            TieFree(group, links, t, c) && Bounded(group, links, t, c)
  {
    var table := Written(group, links, |links|, t, before);
    NoGapsIffDense(Console.LinkGroup(table, c));
    GroupHasRows(table, c);
    RowsAreNamed(group, links, t, before, cs, catalog, c);
    DistinctIffTieFree(group, links, t, before, c);
    DenseIffBounded(group, links, t, before, c);
  }

  /** The console reports no gap in the catalog after the migration exactly when
      no category of it has a tie or a position out of bounds. */
  lemma NoGapsAfterMigrationIff(group: seq<string>, links: seq<LegacyLink>, t: Targets, before: Table, cs: Console.Categories, catalog: Id)
    requires NothingElse(links, t, before, cs, catalog)
    ensures Console.LinkGaps(Written(group, links, |links|, t, before), cs, catalog) == {} <==>
            forall c :: c in cs && cs[c].catalog == catalog ==> TieFree(group, links, t, c) && Bounded(group, links, t, c)
  {
    GapsByCategory(Written(group, links, |links|, t, before), cs, catalog);
    forall c | c in cs && cs[c].catalog == catalog
      ensures Gaps(Console.LinkGroup(Written(group, links, |links|, t, before), c)) == {} <==>
              TieFree(group, links, t, c) && Bounded(group, links, t, c)
    {
      CategoryHasNoGapsIff(group, links, t, before, cs, catalog, c);
    }
  }

  /** With injective targets there is nothing for the console to repair. */
  lemma InjectiveMigrationNeedsNoRepair(group: seq<string>, links: seq<LegacyLink>, t: Targets, before: Table,
                                        cs: Console.Categories, catalog: Id)
    requires Injective(t.categories) && Injective(t.products) && forall p :: p in t.products <==> p in group
    requires NothingElse(links, t, before, cs, catalog)
    ensures var table := Written(group, links, |links|, t, before);
            Console.LinkGaps(table, cs, catalog) == {} && Console.RepairedLinks(table, cs, catalog) == table
  {
    forall c | c in cs && cs[c].catalog == catalog
      ensures TieFree(group, links, t, c) && Bounded(group, links, t, c)
    {
      InjectiveIsTieFree(group, links, t, c);
      InjectiveIsBounded(group, links, t, c);
    }
    NoGapsAfterMigrationIff(group, links, t, before, cs, catalog);
    var table := Written(group, links, |links|, t, before);
    forall row | row in table && Console.LinkInCatalog(cs, catalog, row)
      ensures Console.RankOfLink(table, row) == table[row]
    {
      assert row !in Console.LinkGaps(table, cs, catalog);
    }
  }
}
