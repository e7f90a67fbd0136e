/** The unique-key generator of the attribute dictionary: numbered candidates
    are probed until one is free. */
module UniqueKey {
  import opened Basics
  import opened Counting

  const ATTRIBUTE_KEY_MAX_LENGTH := 100
  const ENUM_VALUE_MAX_LENGTH := 255

  function TrimDashes(s: string): (r: string)
    ensures r <= s
    ensures r == [] || r[|r| - 1] != '-'
  {
    if s != [] && s[|s| - 1] == '-' then TrimDashes(s[..|s| - 1]) else s
  }

  function SuffixPart(k: nat): string
  {
    if k > 0 then "-" + Decimal(k) else ""
  }

  /** The first `room` characters of a base. */
  function Cropped(base: string, room: nat): string
  {
    if room <= |base| then base[..room] else base
  }

  function Room(k: nat, maxLength: nat): nat
  {
    if |SuffixPart(k)| <= maxLength then maxLength - |SuffixPart(k)| else 0
  }

  function Head(base: string, k: nat, maxLength: nat): string
  {
    TrimDashes(Cropped(base, Room(k, maxLength)))
  }

  /** `applyAttributeSuffix`: the k-th candidate for a base. */
  function Candidate(base: string, k: nat, maxLength: nat): (c: string)
    ensures |SuffixPart(k)| <= maxLength ==> |c| <= maxLength
    ensures |SuffixPart(k)| > maxLength ==> c == SuffixPart(k)
  {
    Head(base, k, maxLength) + SuffixPart(k)
  }

  lemma FittingHead(base: string, room: nat)
    requires |base| <= room && (base == [] || base[|base| - 1] != '-')
    ensures TrimDashes(Cropped(base, room)) == base
  {
    assert base[..|base|] == base;
  }

  lemma Joined(a: string, b: string, c: string)
    ensures a + (b + c) == a + b + c && a + "" == a
  {
  }

  /** A base that fits with its suffix and does not end in a dash is kept whole. */
  lemma FittingBaseIsKept(base: string, k: nat, maxLength: nat)
    requires base == [] || base[|base| - 1] != '-'
    ensures |base| <= maxLength ==> Candidate(base, 0, maxLength) == base
    ensures k > 0 && |base| + 1 + |Decimal(k)| <= maxLength ==> Candidate(base, k, maxLength) == base + "-" + Decimal(k)
  {
    Joined(base, "-", Decimal(k));
    if |base| <= Room(0, maxLength) {
      FittingHead(base, Room(0, maxLength));
    }
    if |base| <= Room(k, maxLength) {
      FittingHead(base, Room(k, maxLength));
    }
  }

  predicate Fits(base: string, maxLength: nat)
  {
    |base| <= maxLength && (base == [] || base[|base| - 1] != '-')
  }

  lemma FittingBaseComesFirst(base: string, maxLength: nat)
    ensures Fits(base, maxLength) ==> Candidate(base, 0, maxLength) == base
  {
    if Fits(base, maxLength) {
      FittingBaseIsKept(base, 0, maxLength);
    }
  }

  lemma {:induction false} TrimDashesCutsDashes(s: string)
    ensures forall i :: |TrimDashes(s)| <= i < |s| ==> s[i] == '-'
    decreases |s|
  {
    if s != [] && s[|s| - 1] == '-' {
      TrimDashesCutsDashes(s[..|s| - 1]);
    }
  }

  lemma TrimmedCrop(base: string, room: nat)
    ensures var h := TrimDashes(Cropped(base, room));
            && h <= base && |h| <= room && (h == [] || h[|h| - 1] != '-')
            && forall i :: |h| <= i < |base| && i < room ==> base[i] == '-'
  {
    var c := Cropped(base, room);
    TrimDashesCutsDashes(c);
    assert c <= base && forall i :: 0 <= i < |c| ==> c[i] == base[i];
  }

  /** The head of a candidate is the base as far as there is room, less the
      dashes it would end in. */
  lemma HeadIsTrimmedBase(base: string, k: nat, maxLength: nat) returns (head: string)
    ensures Candidate(base, k, maxLength) == head + SuffixPart(k)
    ensures head <= base && (head == [] || head[|head| - 1] != '-')
    ensures forall i :: |head| <= i < |base| && i < maxLength - |SuffixPart(k)| ==> base[i] == '-'
  {
    head := Head(base, k, maxLength);
    TrimmedCrop(base, Room(k, maxLength));
  }

  lemma NumberedStringsDiffer(h1: string, j: nat, h2: string, k: nat)
    requires 0 < j && 0 < k && j != k
    ensures h1 + SuffixPart(j) != h2 + SuffixPart(k)
  {
    var d1, d2 := Decimal(j), Decimal(k);
    assert h1 + SuffixPart(j) == h1 + ['-'] + d1;
    assert h2 + SuffixPart(k) == h2 + ['-'] + d2;
    if h1 + ['-'] + d1 == h2 + ['-'] + d2 {
      LastSeparatorSplits(h1, d1, h2, d2, '-');
      DecimalInjective(j, k);
    }
  }

  /** Numbered candidates differ whatever the truncation and the trimming cut
      off their heads. */
  lemma NumberedCandidatesDiffer(base: string, j: nat, k: nat, maxLength: nat)
    requires 0 < j && 0 < k && j != k
    ensures Candidate(base, j, maxLength) != Candidate(base, k, maxLength)
  {
    NumberedStringsDiffer(Head(base, j, maxLength), j, Head(base, k, maxLength), k);
  }

  /** Only numbered candidates are pairwise distinct: the bare one may come back
      as a numbered one after truncation. */
  lemma BareCandidateMayReturn()
    ensures Candidate("ab-1", 0, 4) == Candidate("ab-1", 1, 4)
  {
  }

  ghost predicate AllTaken(base: string, n: nat, maxLength: nat, taken: set<string>)
  {
    forall k :: 0 <= k < n ==> Candidate(base, k, maxLength) in taken
  }

  ghost predicate Numbers(f: nat -> string, n: nat, base: string, maxLength: nat)
  {
    forall k: nat :: 0 < k <= n ==> f(k) == Candidate(base, k, maxLength)
  }

  lemma NumbersDiffer(f: nat -> string, n: nat, base: string, maxLength: nat, j: nat, k: nat)
    requires Numbers(f, n, base, maxLength) && 0 < j < k <= n
    ensures f(j) != f(k)
  {
    NumberedCandidatesDiffer(base, j, k, maxLength);
  }

  /** Pigeonhole: a finite set cannot take more than its own number of numbered
      candidates. */
  lemma TakenProbesAreFew(base: string, n: nat, maxLength: nat, taken: set<string>)
    requires AllTaken(base, n, maxLength, taken)
    ensures n <= |taken| + 1
  {
    if n > 0 {
      var f := (k: nat) => Candidate(base, k, maxLength);
      forall j: nat, k: nat | 0 < j < k <= n - 1
        ensures f(j) != f(k)
      {
        NumbersDiffer(f, n - 1, base, maxLength, j, k);
      }
      OneEach(f, n - 1, taken);
    }
  }

  /** The first free candidate, counted from the n-th. */
  ghost function FirstFreeFrom(base: string, n: nat, maxLength: nat, taken: set<string>): (k: nat)
    requires AllTaken(base, n, maxLength, taken)
    ensures n <= k <= |taken| + 1
    ensures AllTaken(base, k, maxLength, taken) && Candidate(base, k, maxLength) !in taken
    decreases |taken| + 2 - n
  {
    TakenProbesAreFew(base, n, maxLength, taken);
    if Candidate(base, n, maxLength) !in taken then n
    else FirstFreeFrom(base, n + 1, maxLength, taken)
  }

  /** What the generator returns, as a function of the set of taken names. */
  ghost function UniqueName(base: string, maxLength: nat, taken: set<string>): (name: string)
    ensures name !in taken
  {
    Candidate(base, FirstFreeFrom(base, 0, maxLength, taken), maxLength)
  }

  lemma NextProbe(base: string, n: nat, maxLength: nat, taken: set<string>)
    requires AllTaken(base, n, maxLength, taken) && Candidate(base, n, maxLength) in taken
    ensures AllTaken(base, n + 1, maxLength, taken) && n <= |taken|
    ensures FirstFreeFrom(base, n, maxLength, taken) == FirstFreeFrom(base, n + 1, maxLength, taken)
  {
    TakenProbesAreFew(base, n + 1, maxLength, taken);
  }

  lemma LastProbe(base: string, n: nat, maxLength: nat, taken: set<string>)
    requires AllTaken(base, n, maxLength, taken) && Candidate(base, n, maxLength) !in taken && n <= |taken| + 1
    ensures FirstFreeFrom(base, n, maxLength, taken) == n
    ensures |SuffixPart(|taken| + 1)| <= maxLength ==> |Candidate(base, n, maxLength)| <= maxLength
    ensures Fits(base, maxLength) && base !in taken ==> n == 0 && Candidate(base, n, maxLength) == base
  {
    if n > 0 {
      DecimalLengthMonotone(n, |taken| + 1);
      assert Candidate(base, 0, maxLength) in taken;
    }
    FittingBaseComesFirst(base, maxLength);
  }

  /** `ensureUniqueKey`: `probes` counts the queries the loop issued. */
  method EnsureUniqueKey(base: string, maxLength: nat, taken: set<string>) returns (candidate: string, probes: nat)
    ensures candidate !in taken
    ensures candidate == UniqueName(base, maxLength, taken)
    ensures 1 <= probes <= |taken| + 2
    ensures candidate == Candidate(base, probes - 1, maxLength) && AllTaken(base, probes - 1, maxLength, taken)
    ensures |SuffixPart(|taken| + 1)| <= maxLength ==> |candidate| <= maxLength
    ensures Fits(base, maxLength) && base !in taken ==> candidate == base && probes == 1
  {
    candidate := Candidate(base, 0, maxLength);
    var suffix := 1;
    probes := 1;
    while candidate in taken
      invariant suffix == probes && 1 <= suffix <= |taken| + 2
      invariant candidate == Candidate(base, suffix - 1, maxLength)
      invariant AllTaken(base, suffix - 1, maxLength, taken)
      invariant FirstFreeFrom(base, 0, maxLength, taken) == FirstFreeFrom(base, suffix - 1, maxLength, taken)
      decreases |taken| + 2 - suffix
    {
      NextProbe(base, suffix - 1, maxLength, taken);
      candidate := Candidate(base, suffix, maxLength);
      suffix := suffix + 1;
      probes := probes + 1;
    }
    LastProbe(base, suffix - 1, maxLength, taken);
  }
}
