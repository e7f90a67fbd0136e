/** Options, picking from sets, decimal numerals and the splitting facts that
    make composed identifiers (`base-12`, `product:x:image:3`) readable back. */
module Basics {

  datatype Option<+T> = None | Some(value: T)

  /** Any element of a non-empty set. */
  method AnyOf<T>(rows: set<T>) returns (x: T)
    requires rows != {}
    ensures x in rows
  {
    x :| x in rows;
  }

  lemma SomeOf<T>(rows: set<T>) returns (x: T)
    requires rows != {}
    ensures x in rows
  {
    x :| x in rows;
  }

  lemma SubsetSize<T>(a: set<T>, b: set<T>)
    requires a <= b
    ensures |a| <= |b|
  {
    assert b == a + (b - a);
  }

  function Digit(d: nat): (c: char)
    requires d < 10
  {
    ('0' as int + d) as char
  }

  /** The decimal numeral of n, as JavaScript prints an integer. */
  function Decimal(n: nat): (s: string)
    ensures |s| >= 1
    ensures forall i :: 0 <= i < |s| ==> '0' <= s[i] <= '9'
  {
    if n < 10 then [Digit(n)] else Decimal(n / 10) + [Digit(n % 10)]
  }

  function ParseDecimal(s: string): (n: int)
  {
    if s == [] then 0
    else ParseDecimal(s[..|s| - 1]) * 10 + (s[|s| - 1] as int - '0' as int)
  }

  lemma {:induction false} DecimalRoundTrip(n: nat)
    ensures ParseDecimal(Decimal(n)) == n
  {
    if n < 10 {
      assert Decimal(n)[..0] == [];
    } else {
      var s := Decimal(n);
      assert s[..|s| - 1] == Decimal(n / 10);
      DecimalRoundTrip(n / 10);
    }
  }

  lemma DecimalInjective(m: nat, n: nat)
    requires Decimal(m) == Decimal(n)
    ensures m == n
  {
    DecimalRoundTrip(m);
    DecimalRoundTrip(n);
  }

  lemma {:induction false} DecimalLengthMonotone(m: nat, n: nat)
    requires m <= n
    ensures |Decimal(m)| <= |Decimal(n)|
  {
    if n >= 10 && m >= 10 {
      DecimalLengthMonotone(m / 10, n / 10);
    }
  }

  lemma SeparatorIsLast(h: string, t: string, c: char)
    requires c !in t
    ensures (h + [c] + t)[|h|] == c
    ensures forall i :: |h| < i < |h + [c] + t| ==> (h + [c] + t)[i] != c
  {
  }

  /** A separator that occurs in neither tail splits a composed string in only
      one way. */
  lemma LastSeparatorSplits(h1: string, t1: string, h2: string, t2: string, c: char)
    requires h1 + [c] + t1 == h2 + [c] + t2
    requires c !in t1 && c !in t2
    ensures h1 == h2 && t1 == t2
  {
    var s := h1 + [c] + t1;
    SeparatorIsLast(h1, t1, c);
    SeparatorIsLast(h2, t2, c);
    assert |h1| == |h2|;
    assert h1 == s[..|h1|] && h2 == s[..|h2|];
    assert t1 == s[|h1| + 1..] && t2 == s[|h2| + 1..];
  }

  /** Likewise for a separator that occurs in neither head. */
  lemma FirstSeparatorSplits(h1: string, t1: string, h2: string, t2: string, c: char)
    requires h1 + [c] + t1 == h2 + [c] + t2
    requires c !in h1 && c !in h2
    ensures h1 == h2 && t1 == t2
  {
    var s := h1 + [c] + t1;
    assert s[|h1|] == c && s[|h2|] == c;
    assert forall i :: 0 <= i < |h1| ==> s[i] == h1[i];
    assert forall i :: 0 <= i < |h2| ==> s[i] == h2[i];
    assert |h1| == |h2|;
    assert h1 == s[..|h1|] && h2 == s[..|h2|];
    assert t1 == s[|h1| + 1..] && t2 == s[|h2| + 1..];
  }
}
