/** Writing the category-product links of a group into the target tables, and
    when the positions there are as good as those of the legacy categories. */
module CategoryLinks {
  import opened Basics
  import opened Counting
  import opened PositionRepair
  import opened CategoryPositions
  import Console = PositionConsole

  /** A category-product row of the target database, as the console reads it. */
  type Row = Console.Link
  type Table = Console.Links

  /** Targets of the legacy categories and products. */
  datatype Targets = Targets(categories: map<string, Id>, products: map<string, Id>)

  ghost predicate Injective(targets: map<string, Id>)
  {
    forall a, b :: a in targets && b in targets && targets[a] == targets[b] ==> a == b
  }

  predicate Resolved(link: LegacyLink, t: Targets)
  {
    link.category.Some? && link.category.value in t.categories && link.product in t.products
  }

  function RowOf(link: LegacyLink, t: Targets): Row
    requires Resolved(link, t)
  {
    Console.Link(t.categories[link.category.value], t.products[link.product])
  }

  ghost function LinkPosition(group: seq<string>, links: seq<LegacyLink>, link: LegacyLink): nat
  {
    if link.category.Some? && LinkedProduct(group, links, link.category.value, link.product)
    then Position(group, links, link.category.value, link.product) else 0
  }

  // ---------------------------------------------------------------- the table that is written

  /** The table after the first n links: each writes its row, later ones win. */
  ghost function Written(group: seq<string>, links: seq<LegacyLink>, n: nat, t: Targets, before: Table): Table
    requires n <= |links|
  {
    if n == 0 then before
    else
      var table := Written(group, links, n - 1, t, before);
      if Resolved(links[n - 1], t) then table[RowOf(links[n - 1], t) := LinkPosition(group, links, links[n - 1])] else table
  }

  ghost predicate Names(links: seq<LegacyLink>, t: Targets, i: nat, row: Row)
  {
    i < |links| && Resolved(links[i], t) && RowOf(links[i], t) == row
  }

  ghost predicate Named(links: seq<LegacyLink>, n: nat, t: Targets, row: Row)
  {
    exists i: nat :: i < n && Names(links, t, i, row)
  }

  /** Among the first n links, the i-th is the last to name the row. */
  ghost predicate LastNaming(links: seq<LegacyLink>, n: nat, t: Targets, i: nat, row: Row)
  {
    i < n && Names(links, t, i, row) && forall j: nat :: i < j < n ==> !Names(links, t, j, row)
  }

  /** A named row ends at the position of the last link that names it, every
      other row stays as it was. */
  lemma {:induction false} LastLinkWins(group: seq<string>, links: seq<LegacyLink>, n: nat, t: Targets, before: Table, row: Row)
    requires n <= |links|
    ensures var table := Written(group, links, n, t, before);
            && (row in table <==> row in before || Named(links, n, t, row))
            && (forall i: nat :: LastNaming(links, n, t, i, row) ==> table[row] == LinkPosition(group, links, links[i]))
            && (!Named(links, n, t, row) && row in before ==> table[row] == before[row])
    decreases n
  {
    if n > 0 {
      LastLinkWins(group, links, n - 1, t, before, row);
      if Names(links, t, n - 1, row) {
        assert Named(links, n, t, row);
      } else {
        assert Named(links, n, t, row) <==> Named(links, n - 1, t, row);
        assert forall i: nat :: LastNaming(links, n, t, i, row) ==> LastNaming(links, n - 1, t, i, row);
      }
    }
  }

  lemma {:induction false} NamedHasLast(links: seq<LegacyLink>, n: nat, t: Targets, row: Row) returns (i: nat)
    requires Named(links, n, t, row)
    ensures LastNaming(links, n, t, i, row)
    decreases n
  {
    if Names(links, t, n - 1, row) {
      i := n - 1;
    } else {
      i := NamedHasLast(links, n - 1, t, row);
    }
  }

  // ---------------------------------------------------------------- the loop

  lemma ResolvedHasPosition(group: seq<string>, links: seq<LegacyLink>, i: nat, t: Targets, positions: map<string, nat>)
    requires i < |links| && Resolved(links[i], t)
    requires forall p :: p in t.products <==> p in group
    requires Placed(group, links, positions, links[i].category.value)
    ensures LinkedProduct(group, links, links[i].category.value, links[i].product)
    ensures var key := PositionKey(links[i].category.value, links[i].product);
            key in positions && positions[key] == LinkPosition(group, links, links[i])
  {
    ResolvedIsLinked(group, links, i, t);
  }

  lemma ResolvedIsLinked(group: seq<string>, links: seq<LegacyLink>, i: nat, t: Targets)
    requires i < |links| && Resolved(links[i], t) && forall p :: p in t.products <==> p in group
    ensures LinkedProduct(group, links, links[i].category.value, links[i].product)
  {
    OrderPlaces(group, links[i].product);
    assert LinksInto(group, links[i], links[i].category.value);
  }

  /** Links among the first n one of whose ends has no target. */
  ghost function Unresolved(links: seq<LegacyLink>, n: nat, t: Targets): set<nat>
    requires n <= |links|
  {
    set i: nat | i < n && (links[i].category.None? || links[i].category.value !in t.categories || links[i].product !in t.products)
  }

  lemma UnresolvedNext(links: seq<LegacyLink>, n: nat, t: Targets)
    requires n < |links|
    ensures |Unresolved(links, n + 1, t)| == |Unresolved(links, n, t)| + if Resolved(links[n], t) then 0 else 1
  {
    if Resolved(links[n], t) {
      assert Unresolved(links, n + 1, t) == Unresolved(links, n, t);
    } else {
      assert Unresolved(links, n + 1, t) == Unresolved(links, n, t) + {n};
    }
  }

  /** The links of a group, upserted in order. Every resolved link has a
      position: the fallback 0 is never used. */
  method WriteLinks(group: seq<string>, links: seq<LegacyLink>, t: Targets, positions: map<string, nat>, before: Table)
    returns (table: Table, created: nat, reused: nat, skipped: nat)
    requires forall p :: p in t.products <==> p in group
    requires forall c :: Placed(group, links, positions, c)
    ensures table == Written(group, links, |links|, t, before)
    ensures created + reused + skipped == |links| && |table| == |before| + created
    ensures skipped == |Unresolved(links, |links|, t)|
  {
    table, created, reused, skipped := before, 0, 0, 0;
    for n := 0 to |links|
      invariant table == Written(group, links, n, t, before)
      invariant created + reused + skipped == n && |table| == |before| + created
      invariant skipped == |Unresolved(links, n, t)|
    {
      UnresolvedNext(links, n, t);
      var link := links[n];
      if !Resolved(link, t) {
        skipped := skipped + 1;
      } else {
        ResolvedHasPosition(group, links, n, t, positions);
        var key := PositionKey(link.category.value, link.product);
        var position := if key in positions then positions[key] else 0;
        var row := RowOf(link, t);
        if row in table {
          reused := reused + 1;
        } else {
          created := created + 1;
        }
        table := table[row := position];
      }
    }
  }

  // ---------------------------------------------------------------- every link at its position

  /** Every resolved link finds its own position in the table. */
  ghost predicate Settled(group: seq<string>, links: seq<LegacyLink>, t: Targets, table: Table)
  {
    forall i: nat, row :: Names(links, t, i, row) ==> row in table && table[row] == LinkPosition(group, links, links[i])
  }

  /** Links that meet in one row agree on its position. */
  ghost predicate Agreeing(group: seq<string>, links: seq<LegacyLink>, t: Targets)
  {
    forall i: nat, j: nat, row :: Names(links, t, i, row) && Names(links, t, j, row) ==>
      LinkPosition(group, links, links[i]) == LinkPosition(group, links, links[j])
  }

  lemma SettledIff(group: seq<string>, links: seq<LegacyLink>, t: Targets, before: Table)
    ensures Settled(group, links, t, Written(group, links, |links|, t, before)) <==> Agreeing(group, links, t)
  {
    var table := Written(group, links, |links|, t, before);
    if Agreeing(group, links, t) {
      forall i: nat, row | Names(links, t, i, row)
        ensures row in table && table[row] == LinkPosition(group, links, links[i])
      {
        LastLinkWins(group, links, |links|, t, before, row);
        var last := NamedHasLast(links, |links|, t, row);
      }
    }
  }

  // ---------------------------------------------------------------- positions within a target category

  /** The rows of target category c that the links name. */
  ghost function RowsIn(links: seq<LegacyLink>, t: Targets, c: Id): set<Row>
  {
    set i: nat | i < |links| && Resolved(links[i], t) && RowOf(links[i], t).category == c :: RowOf(links[i], t)
  }

  lemma RowsInNamed(links: seq<LegacyLink>, t: Targets, c: Id, row: Row)
    ensures row in RowsIn(links, t, c) <==> row.category == c && Named(links, |links|, t, row)
  {
    if i: nat :| i < |links| && Names(links, t, i, row) {
      assert RowOf(links[i], t) == row;
    }
    if row in RowsIn(links, t, c) {
      var i: nat :| i < |links| && Resolved(links[i], t) && RowOf(links[i], t).category == c && RowOf(links[i], t) == row;
      assert Names(links, t, i, row);
    }
  }

  lemma RowsAreWritten(group: seq<string>, links: seq<LegacyLink>, t: Targets, before: Table, c: Id)
    ensures RowsIn(links, t, c) <= Written(group, links, |links|, t, before).Keys
  {
    forall row | row in RowsIn(links, t, c)
      ensures row in Written(group, links, |links|, t, before)
    {
      RowsInNamed(links, t, c, row);
      LastLinkWins(group, links, |links|, t, before, row);
    }
  }

  /** Two links that have the last word on different rows of category c, at one position. */
  ghost predicate Tie(group: seq<string>, links: seq<LegacyLink>, t: Targets, c: Id, i: nat, p: Id, j: nat, q: Id)
  {
    && p != q && LastNaming(links, |links|, t, i, Console.Link(c, p)) && LastNaming(links, |links|, t, j, Console.Link(c, q))
    && LinkPosition(group, links, links[i]) == LinkPosition(group, links, links[j])
  }

  ghost predicate TieFree(group: seq<string>, links: seq<LegacyLink>, t: Targets, c: Id)
  {
    forall i: nat, p, j: nat, q :: !Tie(group, links, t, c, i, p, j, q)
  }

  /** Every link with the last word on a row of c is placed below the number of those rows. */
  ghost predicate Bounded(group: seq<string>, links: seq<LegacyLink>, t: Targets, c: Id)
  {
    forall i: nat, p :: LastNaming(links, |links|, t, i, Console.Link(c, p)) ==> LinkPosition(group, links, links[i]) < |RowsIn(links, t, c)|
  }

  /** The written rows of a target category have different positions exactly
      when no two last-writing links of different products tie. */
  lemma DistinctIffTieFree(group: seq<string>, links: seq<LegacyLink>, t: Targets, before: Table, c: Id)
    ensures RowsIn(links, t, c) <= Written(group, links, |links|, t, before).Keys
    ensures OneToOne(RowsIn(links, t, c), Written(group, links, |links|, t, before)) <==> TieFree(group, links, t, c)
  {
    var table := Written(group, links, |links|, t, before);
    RowsAreWritten(group, links, t, before, c);
    if TieFree(group, links, t, c) {
      forall x, y | x in RowsIn(links, t, c) && y in RowsIn(links, t, c) && table[x] == table[y]
        ensures x == y
      {
        var i := LastWord(group, links, t, before, c, x);
        var j := LastWord(group, links, t, before, c, y);
        assert !Tie(group, links, t, c, i, x.product, j, y.product);
      }
    }
    if OneToOne(RowsIn(links, t, c), table) {
      forall i: nat, p, j: nat, q
        ensures !Tie(group, links, t, c, i, p, j, q)
      {
        if Tie(group, links, t, c, i, p, j, q) {
          LastWordCounts(group, links, t, before, c, i, p);
          LastWordCounts(group, links, t, before, c, j, q);
        }
      }
    }
  }

  lemma LastWord(group: seq<string>, links: seq<LegacyLink>, t: Targets, before: Table, c: Id, row: Row) returns (i: nat)
    requires row in RowsIn(links, t, c)
    ensures row == Console.Link(c, row.product) && LastNaming(links, |links|, t, i, row)
    ensures var table := Written(group, links, |links|, t, before);
            row in table && table[row] == LinkPosition(group, links, links[i])
  {
    RowsInNamed(links, t, c, row);
    i := NamedHasLast(links, |links|, t, row);
    LastLinkWins(group, links, |links|, t, before, row);
  }

  lemma LastWordCounts(group: seq<string>, links: seq<LegacyLink>, t: Targets, before: Table, c: Id, i: nat, p: Id)
    requires LastNaming(links, |links|, t, i, Console.Link(c, p))
    ensures Console.Link(c, p) in RowsIn(links, t, c)
    ensures var table := Written(group, links, |links|, t, before);
            Console.Link(c, p) in table && table[Console.Link(c, p)] == LinkPosition(group, links, links[i])
  {
    RowsInNamed(links, t, c, Console.Link(c, p));
    LastLinkWins(group, links, |links|, t, before, Console.Link(c, p));
  }

  /** They are exactly 0..n-1 when moreover none is placed beyond their number. */
  lemma DenseIffBounded(group: seq<string>, links: seq<LegacyLink>, t: Targets, before: Table, c: Id)
    ensures RowsIn(links, t, c) <= Written(group, links, |links|, t, before).Keys
    ensures Image(RowsIn(links, t, c), Written(group, links, |links|, t, before)) == Range(|RowsIn(links, t, c)|) <==>
            TieFree(group, links, t, c) && Bounded(group, links, t, c)
  {
    var rows, table := RowsIn(links, t, c), Written(group, links, |links|, t, before);
    DistinctIffTieFree(group, links, t, before, c);
    DenseIff(rows, table);
    if Bounded(group, links, t, c) {
      forall row | row in rows
        ensures 0 <= table[row] < |rows|
      {
        var i := LastWord(group, links, t, before, c, row);
      }
    }
    if forall row :: row in rows ==> 0 <= table[row] < |rows| {
      forall i: nat, p | LastNaming(links, |links|, t, i, Console.Link(c, p))
        ensures LinkPosition(group, links, links[i]) < |rows|
      {
        LastWordCounts(group, links, t, before, c, i, p);
      }
    }
  }

  // ---------------------------------------------------------------- injective targets

  /** No two legacy entities share a target, so only repeats of a link meet. */
  lemma InjectiveAgrees(group: seq<string>, links: seq<LegacyLink>, t: Targets)
    requires Injective(t.categories) && Injective(t.products)
    ensures Agreeing(group, links, t)
  {
  }

  lemma InjectiveIsTieFree(group: seq<string>, links: seq<LegacyLink>, t: Targets, c: Id)
    requires Injective(t.categories) && forall p :: p in t.products <==> p in group
    ensures TieFree(group, links, t, c)
  {
    forall i: nat, p, j: nat, q
      ensures !Tie(group, links, t, c, i, p, j, q)
    {
      if Tie(group, links, t, c, i, p, j, q) {
        ResolvedIsLinked(group, links, i, t);
        ResolvedIsLinked(group, links, j, t);
        assert links[i].category.value == links[j].category.value;
        PositionsAreDense(group, links, links[i].category.value);
      }
    }
  }

  /** As many rows as the legacy category has linked products. */
  lemma NoFewerRows(group: seq<string>, links: seq<LegacyLink>, t: Targets, category: string)
    requires Injective(t.products) && category in t.categories && forall p :: p in t.products <==> p in group
    ensures |Linked(group, links, |links|, category)| <= |RowsIn(links, t, t.categories[category])|
  {
    var c, orders := t.categories[category], Linked(group, links, |links|, category);
    forall o | o in orders
      ensures 0 <= o < |group| && group[o] in t.products && group[o] in OrderOf(group) && OrderOf(group)[group[o]] == o
      ensures Console.Link(c, t.products[group[o]]) in RowsIn(links, t, c)
    {
      OrderNumberOf(group, links, category, o);
      var k :| 0 <= k < |links| && LinksInto(group, links[k], category) && OrderOf(group)[links[k].product] == o;
      OrderPlaces(group, links[k].product);
      assert RowOf(links[k], t) == Console.Link(c, t.products[group[o]]);
    }
    var f := map o | o in orders :: Console.Link(c, t.products[group[o]]);
    ImageCount(orders, f);
    SubsetSize(Image(orders, f), RowsIn(links, t, c));
  }

  lemma InjectiveIsBounded(group: seq<string>, links: seq<LegacyLink>, t: Targets, c: Id)
    requires Injective(t.categories) && Injective(t.products) && forall p :: p in t.products <==> p in group
    ensures Bounded(group, links, t, c)
  {
    forall i: nat, p | LastNaming(links, |links|, t, i, Console.Link(c, p))
      ensures LinkPosition(group, links, links[i]) < |RowsIn(links, t, c)|
    {
      ResolvedIsLinked(group, links, i, t);
      PositionsAreDense(group, links, links[i].category.value);
      NoFewerRows(group, links, t, links[i].category.value);
    }
  }

  /** When no two legacy entities share a target, every link ends at its
      position and the rows written for a target category stand at 0..n-1. */
  lemma InjectiveTargetsAreDense(group: seq<string>, links: seq<LegacyLink>, t: Targets, before: Table, c: Id)
    requires Injective(t.categories) && Injective(t.products) && forall p :: p in t.products <==> p in group
    ensures var table := Written(group, links, |links|, t, before);
            && Settled(group, links, t, table)
            && RowsIn(links, t, c) <= table.Keys && OneToOne(RowsIn(links, t, c), table)
            && Image(RowsIn(links, t, c), table) == Range(|RowsIn(links, t, c)|)
  {
    InjectiveAgrees(group, links, t);
    SettledIff(group, links, t, before);
    InjectiveIsTieFree(group, links, t, c);
    InjectiveIsBounded(group, links, t, c);
    DistinctIffTieFree(group, links, t, before, c);
    DenseIffBounded(group, links, t, before, c);
  }

  // ---------------------------------------------------------------- shared targets

  const GROUP := ["GiftProduct:p", "GiftProduct:q"]

  /** Two legacy categories matched to one target category. */
  const SHARED := Targets(map["GiftCategory:a" := 1, "GiftCategory:b" := 1], map["GiftProduct:p" := 5, "GiftProduct:q" := 6])

  const A_P := LegacyLink(Some("GiftCategory:a"), "GiftProduct:p")
  const A_Q := LegacyLink(Some("GiftCategory:a"), "GiftProduct:q")
  const B_Q := LegacyLink(Some("GiftCategory:b"), "GiftProduct:q")

  lemma GroupOrder()
    ensures OrderOf(GROUP) == map["GiftProduct:p" := 0, "GiftProduct:q" := 1]
  {
    assert GROUP[..1] == ["GiftProduct:p"];
    assert GROUP[..1][..0] == [];
  }

  /** A product alone in its category comes first. */
  lemma AloneIsFirst(links: seq<LegacyLink>, link: LegacyLink)
    requires link in links && link.category.Some? && link.product in OrderOf(GROUP)
    requires Linked(GROUP, links, |links|, link.category.value) == {OrderOf(GROUP)[link.product]}
    ensures LinkPosition(GROUP, links, link) == 0
  {
    var g := OrderGroup(Linked(GROUP, links, |links|, link.category.value));
    assert Earlier(g, OrderOf(GROUP)[link.product]) == {};
  }

  lemma BothComeFirst(links: seq<LegacyLink>)
    requires links == [A_P, B_Q]
    ensures LinkPosition(GROUP, links, links[0]) == 0 && LinkPosition(GROUP, links, links[1]) == 0
    ensures Names(links, SHARED, 0, Console.Link(1, 5)) && Names(links, SHARED, 1, Console.Link(1, 6))
  {
    GroupOrder();
    assert Linked(GROUP, links, 2, "GiftCategory:a") == {0} by { assert LinksInto(GROUP, links[0], "GiftCategory:a"); }
    assert Linked(GROUP, links, 2, "GiftCategory:b") == {1} by { assert LinksInto(GROUP, links[1], "GiftCategory:b"); }
    AloneIsFirst(links, links[0]);
    AloneIsFirst(links, links[1]);
  }

  lemma EqualPositionsAgree(group: seq<string>, links: seq<LegacyLink>, t: Targets, position: nat)
    requires forall i :: 0 <= i < |links| ==> LinkPosition(group, links, links[i]) == position
    ensures Agreeing(group, links, t)
  {
  }

  /** Two links of one target category at one position, to different products. */
  lemma EqualPositionsClash(group: seq<string>, links: seq<LegacyLink>, t: Targets, before: Table, c: Id, p: Id, q: Id)
    requires |links| == 2 && p != q && Names(links, t, 0, Console.Link(c, p)) && Names(links, t, 1, Console.Link(c, q))
    requires LinkPosition(group, links, links[0]) == LinkPosition(group, links, links[1])
    ensures var table := Written(group, links, |links|, t, before);
            && Console.Link(c, p) in table && Console.Link(c, q) in table
            && table[Console.Link(c, p)] == LinkPosition(group, links, links[0]) == table[Console.Link(c, q)]
            && Settled(group, links, t, table) && !TieFree(group, links, t, c)
  {
    assert LastNaming(links, |links|, t, 0, Console.Link(c, p)) && LastNaming(links, |links|, t, 1, Console.Link(c, q));
    LastLinkWins(group, links, |links|, t, before, Console.Link(c, p));
    LastLinkWins(group, links, |links|, t, before, Console.Link(c, q));
    assert Tie(group, links, t, c, 0, p, 1, q);
    EqualPositionsAgree(group, links, t, LinkPosition(group, links, links[0]));
    SettledIff(group, links, t, before);
  }

  /** Each of the two categories places a product first. No links meet in a row,
      so every link is settled, and yet two rows of the target category share
      position 0. */
  lemma SharedTargetClashes(links: seq<LegacyLink>)
    requires links == [A_P, B_Q]
    ensures var table := Written(GROUP, links, |links|, SHARED, map[]);
            && Console.Link(1, 5) in table && Console.Link(1, 6) in table
            && table[Console.Link(1, 5)] == 0 && table[Console.Link(1, 6)] == 0
            && Settled(GROUP, links, SHARED, table) && !TieFree(GROUP, links, SHARED, 1)
  {
    BothComeFirst(links);
    EqualPositionsClash(GROUP, links, SHARED, map[], 1, 5, 6);
  }

  /** The second product is linked through both categories: second in one, first
      in the other. The later link wins, the earlier one is not settled. */
  lemma SharedTargetDisagrees()
    ensures var links := [A_P, A_Q, B_Q];
            var table := Written(GROUP, links, 3, SHARED, map[]);
            && Names(links, SHARED, 1, Console.Link(1, 6)) && Names(links, SHARED, 2, Console.Link(1, 6))
            && LinkPosition(GROUP, links, A_Q) == 1 && LinkPosition(GROUP, links, B_Q) == 0
            && Console.Link(1, 6) in table && table[Console.Link(1, 6)] == 0
            && !Agreeing(GROUP, links, SHARED) && !Settled(GROUP, links, SHARED, table)
  {
    var links := [A_P, A_Q, B_Q];
    GroupOrder();
    assert Linked(GROUP, links, 3, "GiftCategory:a") == {0, 1} by {
      assert LinksInto(GROUP, links[0], "GiftCategory:a") && LinksInto(GROUP, links[1], "GiftCategory:a");
    }
    assert Linked(GROUP, links, 3, "GiftCategory:b") == {1} by { assert LinksInto(GROUP, links[2], "GiftCategory:b"); }
    AloneIsFirst(links, links[2]);
    assert Earlier(OrderGroup({0, 1}), 1) == {0};
    assert Names(links, SHARED, 1, Console.Link(1, 6)) && Names(links, SHARED, 2, Console.Link(1, 6));
    assert LastNaming(links, 3, SHARED, 2, Console.Link(1, 6));
    LastLinkWins(GROUP, links, 3, SHARED, map[], Console.Link(1, 6));
    SettledIff(GROUP, links, SHARED, map[]);
  }
}
