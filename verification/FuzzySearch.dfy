/** Fuzzy matching of menu choices: a substring match, or a greedy left-to-right
    match of the query's characters. Candidates are given lowercased. */
module FuzzySearch {
  import opened Basics

  predicate ContainsAt(value: string, query: string, i: nat)
  {
    i + |query| <= |value| && value[i..i + |query|] == query
  }

  predicate Contains(value: string, query: string)
  {
    exists i :: 0 <= i <= |value| && ContainsAt(value, query, i)
  }

  /** `indexOf(c, from)`, with |value| for "not found". */
  function IndexOf(value: string, c: char, from: nat): (found: nat)
    requires from <= |value|
    ensures from <= found <= |value|
    ensures found < |value| ==> value[found] == c
    ensures forall i :: from <= i < found ==> value[i] != c
    decreases |value| - from
  {
    if from == |value| then from
    else if value[from] == c then from
    else IndexOf(value, c, from + 1)
  }

  /** The score of the greedy match from `index` on; None when it gets stuck. */
  function Greedy(query: string, value: string, index: nat): Option<nat>
    requires index <= |value|
    decreases |query|
  {
    if query == [] then Some(0)
    else
      var found := IndexOf(value, query[0], index);
      if found == |value| then None
      else match Greedy(query[1..], value, found + 1)
        case None => None
        case Some(rest) => Some((if found == index then 3 else 1) + rest)
  }

  function Score(query: string, value: string): nat
  {
    if Contains(value, query) then 100 + |query|
    else match Greedy(query, value, 0)
      case None => 0
      case Some(score) => score
  }

  /** `fuzzyScore`: its loop computes the greedy score. */
  method FuzzyScore(query: string, value: string) returns (score: nat)
    ensures score == Score(query, value)
  {
    if Contains(value, query) {
      return 100 + |query|;
    }
    score := 0;
    var index: nat := 0;
    var i := 0;
    assert query[0..] == query;
    while i < |query|
      invariant 0 <= i <= |query| && index <= |value|
      invariant Greedy(query, value, 0).Some? <==> Greedy(query[i..], value, index).Some?
      invariant Greedy(query, value, 0).Some? ==>
        Greedy(query, value, 0).value == score + Greedy(query[i..], value, index).value
    {
      assert query[i..][1..] == query[i + 1..];
      var found := IndexOf(value, query[i], index);
      if found == |value| {
        return 0;
      }
      score := score + if found == index then 3 else 1;
      index := found + 1;
      i := i + 1;
    }
  }

  // ---------------------------------------------------------------- when there is a match

  /** `places` embeds the query into the value, in order. */
  ghost predicate Embeds(query: string, value: string, places: seq<nat>, from: nat)
  {
    && |places| == |query|
    && (forall i :: 0 <= i < |places| ==> from <= places[i] < |value| && value[places[i]] == query[i])
    && (forall i, j :: 0 <= i < j < |places| ==> places[i] < places[j])
  }

  ghost predicate Subsequence(query: string, value: string)
  {
    exists places: seq<nat> :: Embeds(query, value, places, 0)
  }

  /** Greedy matching is complete: wherever the query embeds, it finds a match. */
  lemma {:induction false} GreedyFinds(query: string, value: string, places: seq<nat>, index: nat)
    requires index <= |value| && Embeds(query, value, places, index)
    ensures Greedy(query, value, index).Some?
    decreases |query|
  {
    if query != [] {
      var found := IndexOf(value, query[0], index);
      assert found <= places[0];
      var rest := places[1..];
      forall i | 0 <= i < |rest|
        ensures found + 1 <= rest[i] < |value| && value[rest[i]] == query[1..][i]
      {
        assert places[0] < places[i + 1];
      }
      GreedyFinds(query[1..], value, rest, found + 1);
    }
  }

  lemma {:induction false} GreedyEmbeds(query: string, value: string, index: nat) returns (places: seq<nat>)
    requires index <= |value| && Greedy(query, value, index).Some?
    ensures Embeds(query, value, places, index)
    decreases |query|
  {
    if query == [] {
      places := [];
    } else {
      var found := IndexOf(value, query[0], index);
      var rest := GreedyEmbeds(query[1..], value, found + 1);
      places := [found] + rest;
    }
  }

  lemma SubstringEmbeds(query: string, value: string)
    requires Contains(value, query)
    ensures Subsequence(query, value)
  {
    var i :| 0 <= i <= |value| && ContainsAt(value, query, i);
    var places: seq<nat> := seq(|query|, k requires 0 <= k => i + k);
    forall k | 0 <= k < |query|
      ensures value[places[k]] == query[k]
    {
      assert value[i..i + |query|][k] == value[i + k];
    }
    assert Embeds(query, value, places, 0);
  }

  lemma {:induction false} GreedyAtLeastOneEach(query: string, value: string, index: nat)
    requires index <= |value| && Greedy(query, value, index).Some?
    ensures |query| <= Greedy(query, value, index).value <= 3 * |query|
    decreases |query|
  {
    if query != [] {
      GreedyAtLeastOneEach(query[1..], value, IndexOf(value, query[0], index) + 1);
    }
  }

  /** A non-empty query scores exactly on the values it is a subsequence of. */
  lemma ScoresIffSubsequence(query: string, value: string)
    requires query != []
    ensures Score(query, value) > 0 <==> Subsequence(query, value)
  {
    if Contains(value, query) {
      SubstringEmbeds(query, value);
    } else if Greedy(query, value, 0).Some? {
      GreedyAtLeastOneEach(query, value, 0);
      var places := GreedyEmbeds(query, value, 0);
    } else if places: seq<nat> :| Embeds(query, value, places, 0) {
      GreedyFinds(query, value, places, 0);
      assert false;
    }
  }

  // ---------------------------------------------------------------- ranking

  /** A full greedy score means the query stands right at the index. */
  lemma {:induction false} FullScoreIsPrefix(query: string, value: string, index: nat)
    requires index <= |value| && Greedy(query, value, index).Some?
    requires Greedy(query, value, index).value > 3 * |query| - 2
    ensures index + |query| <= |value| && value[index..index + |query|] == query
    decreases |query|
  {
    if query != [] {
      var found := IndexOf(value, query[0], index);
      GreedyAtLeastOneEach(query[1..], value, found + 1);
      FullScoreIsPrefix(query[1..], value, found + 1);
      assert value[index..index + |query|] == [value[index]] + value[index + 1..index + |query|];
    }
  }

  lemma SubsequenceOnlyScore(query: string, value: string)
    requires !Contains(value, query)
    ensures Score(query, value) == 0 || |query| <= Score(query, value) <= 3 * |query| - 2
  {
    if Greedy(query, value, 0).Some? {
      GreedyAtLeastOneEach(query, value, 0);
      if Greedy(query, value, 0).value > 3 * |query| - 2 {
        FullScoreIsPrefix(query, value, 0);
        assert ContainsAt(value, query, 0);
        assert false;
      }
    }
  }

  /** Up to 50 characters every substring match outranks every other match. */
  lemma SubstringsRankFirst(query: string, substring: string, other: string)
    requires |query| <= 50 && Contains(substring, query) && !Contains(other, query)
    ensures Score(query, substring) > Score(query, other)
  {
    SubsequenceOnlyScore(query, other);
  }

  function Repeated(c: char, n: nat): string
  {
    seq(n, _ => c)
  }

  lemma {:induction false} GreedyRun(n: nat, m: nat, tail: string, index: nat)
    requires index + n <= m
    ensures Greedy(Repeated('a', n), Repeated('a', m) + tail, index) == Some(3 * n)
    decreases n
  {
    var value := Repeated('a', m) + tail;
    if n > 0 {
      assert Repeated('a', n)[0] == 'a' && Repeated('a', n)[1..] == Repeated('a', n - 1);
      assert value[index] == 'a';
      GreedyRun(n - 1, m, tail, index + 1);
    }
  }

  /** A further score, unless either match got stuck. */
  function Plus(score: nat, rest: Option<nat>): Option<nat>
  {
    if rest.Some? then Some(score + rest.value) else None
  }

  lemma {:induction false} GreedySplits(xs: string, c: char, value: string, index: nat, last: nat, score: nat)
    requires index <= |value| && Greedy(xs, value, index) == Some(score)
    requires last == GreedyEnd(xs, value, index)
    ensures Greedy(xs + [c], value, index) == Plus(score, Greedy([c], value, last))
    decreases |xs|
  {
    if xs == [] {
      assert xs + [c] == [c];
    } else {
      var found := IndexOf(value, xs[0], index);
      assert xs == [xs[0]] + xs[1..] && xs + [c] == [xs[0]] + (xs[1..] + [c]);
      GreedySplits(xs[1..], c, value, found + 1, last, Greedy(xs[1..], value, found + 1).value);
    }
  }

  function GreedyEnd(query: string, value: string, index: nat): (last: nat)
    requires index <= |value| && Greedy(query, value, index).Some?
    ensures last <= |value|
    decreases |query|
  {
    if query == [] then index else GreedyEnd(query[1..], value, IndexOf(value, query[0], index) + 1)
  }

  lemma {:induction false} GreedyRunEnd(n: nat, m: nat, tail: string, index: nat)
    requires index + n <= m && Greedy(Repeated('a', n), Repeated('a', m) + tail, index).Some?
    ensures GreedyEnd(Repeated('a', n), Repeated('a', m) + tail, index) == index + n
    decreases n
  {
    var value := Repeated('a', m) + tail;
    if n > 0 {
      assert Repeated('a', n)[0] == 'a' && Repeated('a', n)[1..] == Repeated('a', n - 1);
      assert value[index] == 'a';
      GreedyRunEnd(n - 1, m, tail, index + 1);
    }
  }

  /** From 51 characters on the ranking fails: a query of n - 1 times `a` and a
      `b` scores 3n - 2 on a value that only has it as a subsequence. */
  lemma LongQueriesRankOtherwise(n: nat) returns (query: string, substring: string, other: string)
    requires n > 50
    ensures |query| == n && Contains(substring, query) && !Contains(other, query)
    ensures Score(query, substring) <= Score(query, other)
  {
    var run := Repeated('a', n - 1);
    query := run + ['b'];
    substring := query;
    other := run + ['c', 'b'];
    assert ContainsAt(substring, query, 0);
    assert other[0..n][n - 1] == 'c' && query[n - 1] == 'b';
    assert other[1..n + 1][n - 2] == 'c' && query[n - 2] == 'a';
    assert !ContainsAt(other, query, 0) && !ContainsAt(other, query, 1);
    GreedyRun(n - 1, n - 1, ['c', 'b'], 0);
    GreedyRunEnd(n - 1, n - 1, ['c', 'b'], 0);
    GreedySplits(run, 'b', other, 0, n - 1, 3 * (n - 1));
    assert other[n - 1] == 'c' && other[n] == 'b';
    assert IndexOf(other, 'b', n - 1) == n;
    assert Greedy([], other, n + 1) == Some(0);
  }

  // ---------------------------------------------------------------- the filtered list

  function Scores(query: string, values: seq<string>): seq<nat>
  {
    seq(|values|, i requires 0 <= i < |values| => Score(query, values[i]))
  }

  predicate Before(scores: seq<nat>, a: nat, b: nat)
    requires a < |scores| && b < |scores|
  {
    scores[a] > scores[b] || (scores[a] == scores[b] && a < b)
  }

  ghost predicate Hits(scores: seq<nat>, order: seq<nat>)
  {
    forall i :: 0 <= i < |order| ==> order[i] < |scores| && scores[order[i]] > 0
  }

  ghost predicate Covers(scores: seq<nat>, order: seq<nat>)
  {
    forall k: nat :: k < |scores| && scores[k] > 0 ==> k in order
  }

  ghost predicate Sorted(scores: seq<nat>, order: seq<nat>)
    requires Hits(scores, order)
  {
    forall i, j :: 0 <= i < j < |order| ==> Before(scores, order[i], order[j])
  }

  /** Positions of the matching choices, best score first, ties in the given order. */
  ghost predicate Ranked(scores: seq<nat>, order: seq<nat>)
  {
    Hits(scores, order) && Covers(scores, order) && Sorted(scores, order)
  }

  /** Every choice with a score once, none other; higher scores first, and among
      equal scores the earlier choice. */
  lemma RankedMeans(scores: seq<nat>, order: seq<nat>)
    requires Ranked(scores, order)
    ensures forall k: nat :: k in order <==> k < |scores| && scores[k] > 0
    ensures forall i, j :: 0 <= i < j < |order| ==> scores[order[i]] >= scores[order[j]]
    ensures forall i, j :: 0 <= i < j < |order| && scores[order[i]] == scores[order[j]] ==> order[i] < order[j]
  {
    forall k: nat | k in order
      ensures k < |scores| && scores[k] > 0
    {
      var i :| 0 <= i < |order| && order[i] == k;
    }
    forall i, j | 0 <= i < j < |order|
      ensures scores[order[i]] >= scores[order[j]] && (scores[order[i]] == scores[order[j]] ==> order[i] < order[j])
    {
      assert Before(scores, order[i], order[j]);
    }
  }

  function Inserted(order: seq<nat>, i: nat, k: nat): seq<nat>
    requires i <= |order|
  {
    order[..i] + [k] + order[i..]
  }

  lemma InsertCovers(scores: seq<nat>, order: seq<nat>, score: nat, i: nat)
    requires Hits(scores, order) && Covers(scores, order) && score > 0 && i <= |order|
    ensures Hits(scores + [score], Inserted(order, i, |scores|))
    ensures Covers(scores + [score], Inserted(order, i, |scores|))
  {
  }

  lemma InsertSorts(scores: seq<nat>, order: seq<nat>, score: nat, i: nat)
    requires Hits(scores, order) && Sorted(scores, order) && score > 0 && i <= |order|
    requires forall j :: i <= j < |order| ==> scores[order[j]] < score
    requires forall j :: 0 <= j < i ==> scores[order[j]] >= score
    requires Hits(scores + [score], Inserted(order, i, |scores|))
    ensures Sorted(scores + [score], Inserted(order, i, |scores|))
  {
  }

  method InsertRanked(scores: seq<nat>, order: seq<nat>, score: nat) returns (grown: seq<nat>)
    requires Ranked(scores, order) && score > 0
    ensures Ranked(scores + [score], grown)
  {
    var i := |order|;
    while i > 0 && scores[order[i - 1]] < score
      invariant 0 <= i <= |order|
      invariant forall j :: i <= j < |order| ==> scores[order[j]] < score
    {
      i := i - 1;
    }
    assert forall j :: 0 <= j < i - 1 ==> Before(scores, order[j], order[i - 1]);
    grown := Inserted(order, i, |scores|);
    InsertCovers(scores, order, score, i);
    InsertSorts(scores, order, score, i);
  }

  lemma MissKeepsRanked(scores: seq<nat>, order: seq<nat>)
    requires Ranked(scores, order)
    ensures Ranked(scores + [0], order)
  {
  }

  method AddChoice(scores: seq<nat>, order: seq<nat>, score: nat) returns (grown: seq<nat>)
    requires Ranked(scores, order)
    ensures Ranked(scores + [score], grown)
  {
    if score > 0 {
      grown := InsertRanked(scores, order, score);
    } else {
      MissKeepsRanked(scores, order);
      grown := order;
    }
  }

  lemma ScoresNext(query: string, values: seq<string>, k: nat)
    requires k < |values|
    ensures Scores(query, values[..k + 1]) == Scores(query, values[..k]) + [Score(query, values[k])]
  {
  }

  /** `fuzzyFilter`: score, drop the misses, sort by score. */
  method FuzzyFilter(query: string, values: seq<string>) returns (order: seq<nat>)
    ensures Ranked(Scores(query, values), order)
  {
    order := [];
    var scores: seq<nat> := [];
    for k := 0 to |values|
      invariant scores == Scores(query, values[..k]) && Ranked(scores, order)
    {
      var score := FuzzyScore(query, values[k]);
      ScoresNext(query, values, k);
      order := AddChoice(scores, order, score);
      scores := scores + [score];
    }
    assert values[..|values|] == values;
  }

  /** For a query of at most 50 characters the substring matches come first. */
  lemma SubstringsComeFirst(query: string, values: seq<string>, order: seq<nat>, i: nat, j: nat)
    requires 0 < |query| <= 50 && Ranked(Scores(query, values), order)
    requires i < |order| && j < |order|
    requires Contains(values[order[i]], query) && !Contains(values[order[j]], query)
    ensures i < j
  {
    SubstringsRankFirst(query, values[order[i]], values[order[j]]);
    assert !Before(Scores(query, values), order[j], order[i]);
  }
}
