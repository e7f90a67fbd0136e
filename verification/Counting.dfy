/** Counting: lists without repeats, images of finite sets, and ranges. */
module Counting {
  import opened Basics

  ghost predicate NoRepeats<T(!new)>(xs: seq<T>)
  {
    forall i, j :: 0 <= i < j < |xs| ==> xs[i] != xs[j]
  }

  function Elements<T>(xs: seq<T>): set<T>
  {
    set x | x in xs
  }

  lemma {:induction false} DistinctCount<T(!new)>(xs: seq<T>)
    requires NoRepeats(xs)
    ensures |Elements(xs)| == |xs|
    decreases |xs|
  {
    if xs == [] {
      assert Elements(xs) == {};
    } else {
      var front := xs[..|xs| - 1];
      DistinctCount(front);
      assert xs == front + [xs[|xs| - 1]];
      assert xs[|xs| - 1] !in Elements(front);
      assert Elements(xs) == Elements(front) + {xs[|xs| - 1]};
    }
  }

  /** A list without repeats is no longer than a set that holds its elements. */
  lemma DistinctFits<T(!new)>(xs: seq<T>, s: set<T>)
    requires NoRepeats(xs) && forall i :: 0 <= i < |xs| ==> xs[i] in s
    ensures |xs| <= |s|
  {
    DistinctCount(xs);
    SubsetSize(Elements(xs), s);
  }

  lemma OneEach<T(!new)>(f: nat -> T, n: nat, s: set<T>)
    requires forall j: nat, k: nat :: 0 < j < k <= n ==> f(j) != f(k)
    requires forall k: nat :: 0 < k <= n ==> f(k) in s
    ensures n <= |s|
  {
    DistinctFits(seq(n, k requires 0 <= k < n => f(k + 1)), s);
  }

  lemma FewerLeft<T>(all: set<T>, before: set<T>, done: set<T>)
    requires before <= done <= all && |before| < |done|
    ensures |all - done| < |all - before|
  {
    assert all == (all - done) + done && all == (all - before) + before;
  }

  ghost function Image<A(!new), B>(s: set<A>, f: map<A, B>): set<B>
    requires s <= f.Keys
  {
    set x | x in s :: f[x]
  }

  lemma Preimage<A(!new), B>(s: set<A>, f: map<A, B>, y: B) returns (x: A)
    requires s <= f.Keys && y in Image(s, f)
    ensures x in s && f[x] == y
  {
    x :| x in s && f[x] == y;
  }

  ghost predicate OneToOne<A(!new), B>(s: set<A>, f: map<A, B>)
    requires s <= f.Keys
  {
    forall x, y :: x in s && y in s && f[x] == f[y] ==> x == y
  }

  /** A set is at least as large as its image, and exactly as large when no two
      elements meet. */
  lemma {:induction false} ImageCount<A(!new), B>(s: set<A>, f: map<A, B>)
    requires s <= f.Keys
    ensures |Image(s, f)| <= |s|
    ensures |Image(s, f)| == |s| <==> OneToOne(s, f)
    decreases |s|
  {
    if s == {} {
      assert Image(s, f) == {};
    } else {
      var x := SomeOf(s);
      var rest := s - {x};
      ImageCount(rest, f);
      assert Image(s, f) == Image(rest, f) + {f[x]};
      if f[x] in Image(rest, f) {
        var y :| y in rest && f[y] == f[x];
        assert Image(s, f) == Image(rest, f);
      }
    }
  }

  function Range(n: nat): set<int>
  {
    Elements(seq(n, k => k))
  }

  lemma RangeCount(n: nat)
    ensures |Range(n)| == n && forall k :: k in Range(n) <==> 0 <= k < n
  {
    var ks := seq(n, k => k);
    DistinctCount(ks);
    forall k | 0 <= k < n
      ensures k in ks
    {
      assert ks[k] == k;
    }
  }

  lemma SameSize<T>(a: set<T>, b: set<T>)
    requires a <= b && |a| == |b|
    ensures a == b
  {
    assert b == a + (b - a);
  }

  /** The values of f on s are exactly 0..|s|-1 if and only if no two meet and
      all are in range. */
  lemma DenseIff<A(!new)>(s: set<A>, f: map<A, int>)
    requires s <= f.Keys
    ensures Image(s, f) == Range(|s|) <==> OneToOne(s, f) && forall x :: x in s ==> 0 <= f[x] < |s|
  {
    ImageCount(s, f);
    RangeCount(|s|);
    if Image(s, f) == Range(|s|) {
      forall x | x in s
        ensures 0 <= f[x] < |s|
      {
        assert f[x] in Image(s, f);
      }
    }
    if OneToOne(s, f) && forall x :: x in s ==> 0 <= f[x] < |s| {
      SameSize(Image(s, f), Range(|s|));
    }
  }

  /** An id no row has. */
  method FreshId(rows: set<int>) returns (id: int)
    ensures id !in rows
  {
    id := 0;
    var rest := rows;
    while rest != {}
      invariant forall x :: x in rows ==> x in rest || x < id
      decreases |rest|
    {
      var x := AnyOf(rest);
      id := if x < id then id else x + 1;
      rest := rest - {x};
    }
  }
}
