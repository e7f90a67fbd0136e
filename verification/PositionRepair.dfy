/** Position repair of the database console, against the independent diagnostic
    that counts position gaps with a window function. */
module PositionRepair {
  import opened Basics
  import opened Counting

  type Id = int

  /** A row of one group: its position and the column that breaks ties before
      the id does (creation time of a category; nothing for a product link). */
  datatype Slot = Slot(position: int, tie: int)
  type Group = map<Id, Slot>

  /** The order of `orderBy` and of the window: position, tie, id. */
  predicate Less(g: Group, a: Id, b: Id)
    requires a in g && b in g
  {
    || g[a].position < g[b].position
    || (g[a].position == g[b].position && g[a].tie < g[b].tie)
    || (g[a].position == g[b].position && g[a].tie == g[b].tie && a < b)
  }

  // ---------------------------------------------------------------- the diagnostic

  ghost function Earlier(g: Group, id: Id): set<Id>
    requires id in g
  {
    set x | x in g && Less(g, x, id)
  }

  /** `row_number() - 1`: the number of rows before this one. */
  ghost function Rank(g: Group, id: Id): nat
    requires id in g
  {
    |Earlier(g, id)|
  }

  ghost function Gaps(g: Group): set<Id>
  {
    set id | id in g && g[id].position != Rank(g, id)
  }

  // ---------------------------------------------------------------- the repair

  /** What an ordered query returns. */
  ghost predicate Listing(g: Group, order: seq<Id>)
  {
    && (forall i :: 0 <= i < |order| ==> order[i] in g)
    && (forall id :: id in g ==> id in order)
    && (forall i, j :: 0 <= i < j < |order| ==> Less(g, order[i], order[j]))
  }

  /** The group with every row at its rank. */
  ghost function Repaired(g: Group): Group
  {
    map id | id in g :: g[id].(position := Rank(g, id))
  }

  // ---------------------------------------------------------------- index in the listing = rank

  lemma ListedAtRank(g: Group, order: seq<Id>, i: nat)
    requires Listing(g, order) && i < |order|
    ensures Rank(g, order[i]) == i
  {
    var prefix := order[..i];
    forall x | x in Earlier(g, order[i])
      ensures x in Elements(prefix)
    {
      var k :| 0 <= k < |order| && order[k] == x;
      assert k < i && prefix[k] == x;
    }
    assert Elements(prefix) == Earlier(g, order[i]);
    DistinctCount(prefix);
  }

  lemma ListingSize(g: Group, order: seq<Id>)
    requires Listing(g, order)
    ensures |order| == |g|
  {
    DistinctCount(order);
    forall id
      ensures id in Elements(order) <==> id in g
    {
    }
    assert Elements(order) == g.Keys;
  }

  // ---------------------------------------------------------------- the repaired group

  lemma RankFollowsOrder(g: Group, a: Id, b: Id)
    requires a in g && b in g && Less(g, a, b)
    ensures Rank(g, a) < Rank(g, b)
  {
    assert Earlier(g, a) <= Earlier(g, b);
    assert a in Earlier(g, b) && a !in Earlier(g, a);
    SubsetSize(Earlier(g, a) + {a}, Earlier(g, b));
  }

  /** The repair keeps the order of the rows. */
  lemma OrderPreserved(g: Group, a: Id, b: Id)
    requires a in g && b in g
    ensures Less(Repaired(g), a, b) <==> Less(g, a, b)
  {
    if Less(g, a, b) {
      RankFollowsOrder(g, a, b);
    } else if Less(g, b, a) {
      RankFollowsOrder(g, b, a);
    }
  }

  /** A row moves ahead of another for its lower position; between equal
      positions for being older, and between equals of both for its lower id. */
  lemma RepairedInOrder(g: Group, a: Id, b: Id)
    requires a in g && b in g && a != b
    ensures Repaired(g)[a].position < Repaired(g)[b].position <==>
            if g[a].position != g[b].position then g[a].position < g[b].position
            else if g[a].tie != g[b].tie then g[a].tie < g[b].tie
            else a < b
    ensures Repaired(g)[a].tie == g[a].tie
  {
    if Less(g, a, b) {
      RankFollowsOrder(g, a, b);
    } else {
      RankFollowsOrder(g, b, a);
    }
  }

  lemma RankPreserved(g: Group, id: Id)
    requires id in g
    ensures Rank(Repaired(g), id) == Rank(g, id)
  {
    forall x | x in g
      ensures Less(Repaired(g), x, id) <==> Less(g, x, id)
    {
      OrderPreserved(g, x, id);
    }
    assert Earlier(Repaired(g), id) == Earlier(g, id);
  }

  /** After the repair the diagnostic finds nothing and a second repair changes
      nothing. */
  lemma RepairedHasNoGaps(g: Group)
    ensures Gaps(Repaired(g)) == {} && Repaired(Repaired(g)) == Repaired(g)
  {
    forall id | id in g
      ensures Rank(Repaired(g), id) == Repaired(g)[id].position
    {
      RankPreserved(g, id);
    }
  }

  /** The repaired positions are exactly 0..n-1. */
  lemma RepairedIsDense(g: Group, i: int)
    ensures (exists id :: id in g && Repaired(g)[id].position == i) <==> 0 <= i < |g|
  {
    if id :| id in g && Repaired(g)[id].position == i {
      RankInRange(g, id);
    }
    if 0 <= i < |g| {
      var order := SomeListing(g);
      ListingSize(g, order);
      ListedAtRank(g, order, i);
      assert order[i] in g;
    }
  }

  lemma {:induction false} SomeEarliest(g: Group, rest: set<Id>) returns (first: Id)
    requires rest != {} && rest <= g.Keys
    ensures first in rest && forall x :: x in rest && x != first ==> Less(g, first, x)
    decreases |rest|
  {
    var a := SomeOf(rest);
    if rest == {a} {
      first := a;
    } else {
      var b := SomeEarliest(g, rest - {a});
      first := if Less(g, a, b) then a else b;
      forall x | x in rest && x != first
        ensures Less(g, first, x)
      {
        assert x != a ==> x in rest - {a};
      }
    }
  }

  lemma {:induction false} SomeListing(g: Group) returns (order: seq<Id>)
    ensures Listing(g, order)
    decreases |g|
  {
    if g == map[] {
      order := [];
    } else {
      var first := SomeEarliest(g, g.Keys);
      var rest := SomeListing(g - {first});
      order := [first] + rest;
      assert forall id :: id in g && id != first ==> id in g - {first};
    }
  }

  lemma RankInRange(g: Group, id: Id)
    requires id in g
    ensures Rank(g, id) < |g|
  {
    assert Earlier(g, id) + {id} <= g.Keys;
    SubsetSize(Earlier(g, id) + {id}, g.Keys);
  }

  // ---------------------------------------------------------------- what the diagnostic accepts

  function PositionsOf(g: Group): map<Id, int>
  {
    map id | id in g :: g[id].position
  }

  /** Positions are pairwise different and exactly 0..n-1. */
  ghost predicate Dense(g: Group)
  {
    OneToOne(g.Keys, PositionsOf(g)) && Image(g.Keys, PositionsOf(g)) == Range(|g|)
  }

  lemma RankInDense(g: Group, id: Id)
    requires Dense(g) && id in g
    ensures Rank(g, id) == g[id].position
  {
    var f, earlier := PositionsOf(g), Earlier(g, id);
    RangeCount(|g|);
    assert g[id].position in Image(g.Keys, f);
    RangeCount(g[id].position);
    forall k | k in Range(g[id].position)
      ensures k in Image(earlier, f)
    {
      var x := Preimage(g.Keys, f, k);
      assert x in earlier;
    }
    forall x | x in earlier
      ensures f[x] in Range(g[id].position)
    {
      assert f[x] in Image(g.Keys, f) && x != id;
    }
    assert Image(earlier, f) == Range(g[id].position);
    ImageCount(earlier, f);
  }

  /** The diagnostic reports nothing exactly when the positions are dense. */
  lemma NoGapsIffDense(g: Group)
    ensures Gaps(g) == {} <==> Dense(g)
  {
    if Dense(g) {
      forall id | id in g
        ensures Rank(g, id) == g[id].position
      {
        RankInDense(g, id);
      }
    }
    if Gaps(g) == {} {
      forall id | id in g
        ensures id !in Gaps(g) && 0 <= g[id].position < |g|
      {
        RankInRange(g, id);
      }
      forall a, b | a in g && b in g && g[a].position == g[b].position
        ensures a == b
      {
        if a != b {
          RankFollowsOrder(g, if Less(g, a, b) then a else b, if Less(g, a, b) then b else a);
        }
      }
      DenseIff(g.Keys, PositionsOf(g));
    }
  }

  // ---------------------------------------------------------------- ordered queries

  method Earliest(g: Group, rest: set<Id>) returns (first: Id)
    requires rest != {} && rest <= g.Keys
    ensures first in rest && forall x :: x in rest && x != first ==> Less(g, first, x)
  {
    first := AnyOf(rest);
    var todo := rest - {first};
    while todo != {}
      invariant first in rest && todo <= rest - {first}
      invariant forall y :: y in rest ==> y in todo || y == first || Less(g, first, y)
      decreases |todo|
    {
      var x := AnyOf(todo);
      todo := todo - {x};
      if Less(g, x, first) {
        first := x;
      }
    }
  }

  /** `findMany` with the group's `orderBy`. */
  method FindOrdered(g: Group) returns (order: seq<Id>)
    ensures Listing(g, order)
  {
    order := [];
    var rest := g.Keys;
    while rest != {}
      invariant rest <= g.Keys
      invariant forall i :: 0 <= i < |order| ==> order[i] in g && order[i] !in rest
      invariant forall id :: id in g ==> id in rest || id in order
      invariant forall i, j :: 0 <= i < j < |order| ==> Less(g, order[i], order[j])
      invariant forall i, x :: 0 <= i < |order| && x in rest ==> Less(g, order[i], x)
      decreases |rest|
    {
      var first := Earliest(g, rest);
      order := order + [first];
      rest := rest - {first};
    }
  }

  datatype Update = Update(id: Id, position: nat)

  /** The emitted updates name each row that sits off its rank once, with the rank. */
  ghost predicate Fixes(g: Group, updates: seq<Update>)
  {
    && (forall i, j :: 0 <= i < j < |updates| ==> updates[i].id != updates[j].id)
    && (forall i :: 0 <= i < |updates| ==>
          updates[i].id in Gaps(g) && updates[i].position == Rank(g, updates[i].id))
    && (forall id :: id in Gaps(g) ==> exists i :: 0 <= i < |updates| && updates[i].id == id)
  }

  /** The number of updates is the number the diagnostic reports. */
  lemma UpdatesMatchGaps(g: Group, updates: seq<Update>)
    requires Fixes(g, updates)
    ensures |updates| == |Gaps(g)|
  {
    var ids := seq(|updates|, i requires 0 <= i < |updates| => updates[i].id);
    forall id | id in Gaps(g)
      ensures id in ids
    {
      var i :| 0 <= i < |updates| && updates[i].id == id;
      assert ids[i] == id;
    }
    DistinctCount(ids);
    assert Elements(ids) == Gaps(g);
  }

  /** The update list of one listing: rows whose position is not their index. */
  method PlanUpdates(g: Group, order: seq<Id>) returns (updates: seq<Update>)
    requires Listing(g, order)
    ensures Fixes(g, updates)
  {
    updates := [];
    for i := 0 to |order|
      invariant forall x, y :: 0 <= x < y < |updates| ==> updates[x].id != updates[y].id
      invariant forall x :: 0 <= x < |updates| ==>
        0 <= updates[x].position < i && updates[x].id == order[updates[x].position] && g[updates[x].id].position != updates[x].position
      invariant forall k :: 0 <= k < i && g[order[k]].position != k ==> Update(order[k], k) in updates
    {
      if g[order[i]].position != i {
        updates := updates + [Update(order[i], i)];
      }
    }
    PlanFixes(g, order, updates);
  }

  lemma PlanFixes(g: Group, order: seq<Id>, updates: seq<Update>)
    requires Listing(g, order)
    requires forall x, y :: 0 <= x < y < |updates| ==> updates[x].id != updates[y].id
    requires forall x :: 0 <= x < |updates| ==>
      updates[x].position < |order| && updates[x].id == order[updates[x].position] && g[updates[x].id].position != updates[x].position
    requires forall k :: 0 <= k < |order| && g[order[k]].position != k ==> Update(order[k], k) in updates
    ensures Fixes(g, updates)
  {
    forall x | 0 <= x < |updates|
      ensures updates[x].id in Gaps(g) && updates[x].position == Rank(g, updates[x].id)
    {
      ListedAtRank(g, order, updates[x].position);
    }
    forall id | id in Gaps(g)
      ensures exists i :: 0 <= i < |updates| && updates[i].id == id
    {
      var k :| 0 <= k < |order| && order[k] == id;
      ListedAtRank(g, order, k);
      var i :| 0 <= i < |updates| && updates[i] == Update(order[k], k);
      assert updates[i].id == id;
    }
  }
}
