/** Batched queries: rows ordered by id, limited to a batch. */
module BatchQueries {
  import opened Basics
  import opened VariantKinds

  /** A batch: the n smallest ids of a set, in order. */
  ghost predicate FirstBatch(batch: seq<Id>, s: set<Id>, n: nat)
  {
    && |batch| == (if n < |s| then n else |s|)
    && (forall k :: 0 <= k < |batch| ==> batch[k] in s)
    && (forall j, k :: 0 <= j < k < |batch| ==> batch[j] < batch[k])
    && (forall k, x :: 0 <= k < |batch| && x in s && x !in batch ==> batch[k] < x)
  }

  method Smallest(s: set<Id>) returns (least: Id)
    requires s != {}
    ensures least in s && forall x :: x in s ==> least <= x
  {
    least := AnyOf(s);
    var todo := s - {least};
    while todo != {}
      invariant least in s && todo <= s
      invariant forall x :: x in s ==> x in todo || least <= x
      decreases |todo|
    {
      var x := AnyOf(todo);
      todo := todo - {x};
      if x < least {
        least := x;
      }
    }
  }

  /** `findMany` ordered by id, limited to n rows. */
  method TakeFirst(s: set<Id>, n: nat) returns (batch: seq<Id>)
    ensures FirstBatch(batch, s, n)
  {
    batch := [];
    var rest := s;
    while |batch| < n && rest != {}
      invariant |batch| <= n && rest <= s && |batch| + |rest| == |s|
      invariant forall k :: 0 <= k < |batch| ==> batch[k] in s && batch[k] !in rest
      invariant forall x :: x in s ==> x in rest || x in batch
      invariant forall j, k :: 0 <= j < k < |batch| ==> batch[j] < batch[k]
      invariant forall k, x :: 0 <= k < |batch| && x in rest ==> batch[k] < x
      decreases |rest|
    {
      var least := Smallest(rest);
      batch := batch + [least];
      rest := rest - {least};
    }
  }

  lemma {:induction false} SomeSmallest(s: set<Id>) returns (least: Id)
    requires s != {}
    ensures least in s && forall x :: x in s ==> least <= x
    decreases |s|
  {
    var a := SomeOf(s);
    if s == {a} {
      least := a;
    } else {
      var b := SomeSmallest(s - {a});
      least := if a < b then a else b;
      assert forall x :: x in s ==> x == a || x in s - {a};
    }
  }

  lemma SmallestExists(s: set<Id>)
    requires s != {}
    ensures exists x :: x in s && IsSmallest(s, x)
  {
    var x := SomeSmallest(s);
    assert IsSmallest(s, x);
  }

  ghost predicate IsSmallest(s: set<Id>, x: Id)
  {
    x in s && forall y :: y in s ==> x <= y
  }

  /** The ids of a set by ascending value. */
  ghost function Ascending(s: set<Id>): seq<Id>
    decreases |s|
  {
    if s == {} then []
    else
      SmallestExists(s);
      var x :| x in s && IsSmallest(s, x);
      [x] + Ascending(s - {x})
  }

  lemma {:induction false} AscendingMembers(s: set<Id>)
    ensures forall i :: 0 <= i < |Ascending(s)| ==> Ascending(s)[i] in s
    decreases |s|
  {
    if s != {} {
      var x := SomeSmallest(s);
      AscendingFirst(s, x);
      AscendingMembers(s - {x});
    }
  }

  lemma AscendingFirst(s: set<Id>, x: Id)
    requires IsSmallest(s, x)
    ensures Ascending(s) == [x] + Ascending(s - {x})
  {
  }

  /** What is left of s after the first k ids of a batch. */
  ghost function LeftOf(s: set<Id>, batch: seq<Id>, k: nat): set<Id>
    requires k <= |batch|
  {
    set x | x in s && x !in batch[..k]
  }

  lemma BatchIsAscending(s: set<Id>, batch: seq<Id>, n: nat, k: nat)
    requires FirstBatch(batch, s, n) && k < |batch|
    ensures IsSmallest(LeftOf(s, batch, k), batch[k])
    ensures LeftOf(s, batch, k + 1) == LeftOf(s, batch, k) - {batch[k]}
  {
    assert batch[..k + 1] == batch[..k] + [batch[k]];
    assert forall j :: 0 <= j < k ==> batch[..k][j] == batch[j];
    assert forall j :: 0 <= j < k ==> batch[j] in batch[..k];
  }
}
