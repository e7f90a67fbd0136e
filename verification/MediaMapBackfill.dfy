/** The media-map backfill: candidates read off existing links, a dry run that
    tallies what would happen and an apply that does it. */
module MediaMapBackfill {
  import opened MediaStore

  datatype Candidate = Candidate(legacyId: string, target: MediaId)

  datatype Outcome = Create | UpdateMissingTarget | SkipExisting | SkipConflict | SkipMissingMedia

  datatype Stats = Stats(candidates: nat, created: nat, updatedMissingTarget: nat, skippedExisting: nat,
                         skippedConflict: nat, skippedMissingMedia: nat)

  function EmptyStats(candidates: nat): Stats
  {
    Stats(candidates, 0, 0, 0, 0, 0)
  }

  function Increment(stats: Stats, outcome: Outcome): Stats
  {
    match outcome
    case Create => stats.(created := stats.created + 1)
    case UpdateMissingTarget => stats.(updatedMissingTarget := stats.updatedMissingTarget + 1)
    case SkipExisting => stats.(skippedExisting := stats.skippedExisting + 1)
    case SkipConflict => stats.(skippedConflict := stats.skippedConflict + 1)
    case SkipMissingMedia => stats.(skippedMissingMedia := stats.skippedMissingMedia + 1)
  }

  /** `resolveCandidateOutcome` */
  function Resolve(media: set<MediaId>, maps: MediaMaps, c: Candidate): Outcome
  {
    if c.target !in media then SkipMissingMedia
    else if c.legacyId !in maps then Create
    else if maps[c.legacyId] == c.target then SkipExisting
    else if maps[c.legacyId] in media then SkipConflict
    else UpdateMissingTarget
  }

  predicate Writes(outcome: Outcome)
  {
    outcome == Create || outcome == UpdateMissingTarget
  }

  function ApplyOne(media: set<MediaId>, maps: MediaMaps, c: Candidate): MediaMaps
  {
    if Writes(Resolve(media, maps, c)) then maps[c.legacyId := c.target] else maps
  }

  /** Stats and maps after the first n candidates. */
  function Analyzed(media: set<MediaId>, maps: MediaMaps, cs: seq<Candidate>, n: nat): Stats
    requires n <= |cs|
  {
    if n == 0 then EmptyStats(|cs|)
    else Increment(Analyzed(media, maps, cs, n - 1), Resolve(media, maps, cs[n - 1]))
  }

  function AppliedMaps(media: set<MediaId>, maps: MediaMaps, cs: seq<Candidate>, n: nat): MediaMaps
    requires n <= |cs|
  {
    if n == 0 then maps else ApplyOne(media, AppliedMaps(media, maps, cs, n - 1), cs[n - 1])
  }

  function AppliedStats(media: set<MediaId>, maps: MediaMaps, cs: seq<Candidate>, n: nat): Stats
    requires n <= |cs|
  {
    if n == 0 then EmptyStats(|cs|)
    else Increment(AppliedStats(media, maps, cs, n - 1), Resolve(media, AppliedMaps(media, maps, cs, n - 1), cs[n - 1]))
  }

  // ---------------------------------------------------------------- candidate lists

  ghost predicate Deduped(cs: seq<Candidate>)
  {
    forall i, j :: 0 <= i < j < |cs| ==> cs[i].legacyId != cs[j].legacyId
  }

  predicate SeenIn(cs: seq<Candidate>, n: nat, id: string)
    requires n <= |cs|
  {
    exists i :: 0 <= i < n && cs[i].legacyId == id
  }

  /** Among the first n candidates, those whose legacy id was not seen before. */
  function Firsts(cs: seq<Candidate>, n: nat): seq<Candidate>
    requires n <= |cs|
  {
    if n == 0 then []
    else if SeenIn(cs, n - 1, cs[n - 1].legacyId) then Firsts(cs, n - 1)
    else Firsts(cs, n - 1) + [cs[n - 1]]
  }

  /** One candidate for each legacy id that occurs. */
  lemma {:induction false} FirstsRepresent(cs: seq<Candidate>, n: nat)
    requires n <= |cs|
    ensures Deduped(Firsts(cs, n))
    ensures forall id :: SeenIn(cs, n, id) <==> SeenIn(Firsts(cs, n), |Firsts(cs, n)|, id)
    decreases n
  {
    if n > 0 {
      FirstsRepresent(cs, n - 1);
      var before, after := Firsts(cs, n - 1), Firsts(cs, n);
      forall id
        ensures SeenIn(cs, n, id) <==> SeenIn(after, |after|, id)
      {
        assert SeenIn(cs, n, id) <==> SeenIn(cs, n - 1, id) || cs[n - 1].legacyId == id;
        assert SeenIn(cs, n - 1, id) <==> SeenIn(before, |before|, id);
        if after != before {
          assert after[|before|] == cs[n - 1];
          assert forall i :: 0 <= i < |before| ==> after[i] == before[i];
        }
      }
    }
  }

  /** `dedupeCandidates`: the first candidate of each legacy id, in order. */
  method DedupeCandidates(cs: seq<Candidate>) returns (r: seq<Candidate>)
    ensures r == Firsts(cs, |cs|) && Deduped(r)
    ensures forall id :: SeenIn(cs, |cs|, id) <==> SeenIn(r, |r|, id)
  {
    var seen: set<string> := {};
    r := [];
    for k := 0 to |cs|
      invariant r == Firsts(cs, k)
      invariant forall id :: id in seen <==> SeenIn(cs, k, id)
    {
      if cs[k].legacyId !in seen {
        seen := seen + {cs[k].legacyId};
        r := r + [cs[k]];
      }
    }
    FirstsRepresent(cs, |cs|);
  }

  // ---------------------------------------------------------------- dry run predicts apply

  /** Earlier candidates do not touch the entry of a later one. */
  lemma {:induction false} OwnEntryUntouched(media: set<MediaId>, maps: MediaMaps, cs: seq<Candidate>, n: nat, k: nat)
    requires Deduped(cs) && n <= k < |cs|
    ensures var now := AppliedMaps(media, maps, cs, n);
            var id := cs[k].legacyId;
            (id in now <==> id in maps) && (id in maps ==> now[id] == maps[id])
    decreases n
  {
    if n > 0 {
      OwnEntryUntouched(media, maps, cs, n - 1, k);
      assert cs[n - 1].legacyId != cs[k].legacyId;
    }
  }

  /** For every store and every deduplicated list, the dry run reports exactly
      what apply does. */
  lemma {:induction false} DryRunPredictsApply(media: set<MediaId>, maps: MediaMaps, cs: seq<Candidate>, n: nat)
    requires Deduped(cs) && n <= |cs|
    ensures Analyzed(media, maps, cs, n) == AppliedStats(media, maps, cs, n)
    decreases n
  {
    if n > 0 {
      DryRunPredictsApply(media, maps, cs, n - 1);
      OwnEntryUntouched(media, maps, cs, n - 1, n - 1);
    }
  }

  /** Without deduplication it does not: two candidates for one legacy id are
      both announced as new, but the second meets the first. */
  lemma DuplicatesBreakPrediction(media: set<MediaId>, maps: MediaMaps, id: string, m1: MediaId, m2: MediaId)
    requires m1 != m2 && m1 in media && m2 in media && id !in maps
    ensures var cs := [Candidate(id, m1), Candidate(id, m2)];
            Analyzed(media, maps, cs, 2).created == 2 && AppliedStats(media, maps, cs, 2).created == 1
  {
    var cs := [Candidate(id, m1), Candidate(id, m2)];
    assert Analyzed(media, maps, cs, 0) == EmptyStats(2) && AppliedStats(media, maps, cs, 0) == EmptyStats(2);
    assert Analyzed(media, maps, cs, 1) == EmptyStats(2).(created := 1);
    assert AppliedMaps(media, maps, cs, 1) == maps[id := m1];
    assert AppliedStats(media, maps, cs, 1) == EmptyStats(2).(created := 1);
  }

  lemma {:induction false} OutcomesAddUp(media: set<MediaId>, maps: MediaMaps, cs: seq<Candidate>, n: nat)
    requires n <= |cs|
    ensures var s := AppliedStats(media, maps, cs, n);
            && s.candidates == |cs|
            && s.created + s.updatedMissingTarget + s.skippedExisting + s.skippedConflict + s.skippedMissingMedia == n
    decreases n
  {
    if n > 0 {
      OutcomesAddUp(media, maps, cs, n - 1);
    }
  }

  // ---------------------------------------------------------------- what apply keeps

  /** A map whose target media exists is never changed, and every map that is
      written points at media that exists. */
  lemma {:induction false} ValidMapsAreKept(media: set<MediaId>, maps: MediaMaps, cs: seq<Candidate>, n: nat, id: string)
    requires n <= |cs|
    ensures var now := AppliedMaps(media, maps, cs, n);
            && (id in maps ==> id in now)
            && (id in maps && maps[id] in media ==> now[id] == maps[id])
            && (id in now && (id !in maps || now[id] != maps[id]) ==> now[id] in media)
    decreases n
  {
    if n > 0 {
      ValidMapsAreKept(media, maps, cs, n - 1, id);
    }
  }

  lemma {:induction false} SettledAfter(media: set<MediaId>, maps: MediaMaps, cs: seq<Candidate>, k: nat, n: nat)
    requires Deduped(cs) && k < n <= |cs|
    ensures !Writes(Resolve(media, AppliedMaps(media, maps, cs, n), cs[k]))
    decreases n
  {
    if k == n - 1 {
      OwnEntryUntouched(media, maps, cs, k, k);
    } else {
      SettledAfter(media, maps, cs, k, n - 1);
      assert cs[n - 1].legacyId != cs[k].legacyId;
    }
  }

  /** A second apply creates and updates nothing. */
  lemma {:induction false} SecondApplyDoesNothing(media: set<MediaId>, maps: MediaMaps, cs: seq<Candidate>, n: nat)
    requires Deduped(cs) && n <= |cs|
    ensures var now := AppliedMaps(media, maps, cs, |cs|);
            && AppliedMaps(media, now, cs, n) == now
            && AppliedStats(media, now, cs, n).created == 0 && AppliedStats(media, now, cs, n).updatedMissingTarget == 0
    decreases n
  {
    if n > 0 {
      SecondApplyDoesNothing(media, maps, cs, n - 1);
      SettledAfter(media, maps, cs, n - 1, |cs|);
    }
  }

  // ---------------------------------------------------------------- what each candidate comes to

  /** Those of the first n candidates with a property. */
  ghost function Those(cs: seq<Candidate>, n: nat, p: Candidate -> bool): set<nat>
    requires n <= |cs|
  {
    set k: nat | k < n && p(cs[k])
  }

  lemma ThoseNext(cs: seq<Candidate>, n: nat, p: Candidate -> bool)
    requires n < |cs|
    ensures |Those(cs, n + 1, p)| == |Those(cs, n, p)| + if p(cs[n]) then 1 else 0
  {
    if p(cs[n]) {
      assert Those(cs, n + 1, p) == Those(cs, n, p) + {n};
    } else {
      assert Those(cs, n + 1, p) == Those(cs, n, p);
    }
  }

  ghost function NoMedia(media: set<MediaId>): Candidate -> bool
  {
    (c: Candidate) => c.target !in media
  }

  ghost function Unmapped(media: set<MediaId>, maps: MediaMaps): Candidate -> bool
  {
    (c: Candidate) => c.target in media && c.legacyId !in maps
  }

  ghost function MappedAlike(media: set<MediaId>, maps: MediaMaps): Candidate -> bool
  {
    (c: Candidate) => c.target in media && c.legacyId in maps && maps[c.legacyId] == c.target
  }

  ghost function MappedElsewhere(media: set<MediaId>, maps: MediaMaps): Candidate -> bool
  {
    (c: Candidate) => c.target in media && c.legacyId in maps && maps[c.legacyId] != c.target && maps[c.legacyId] in media
  }

  ghost function MappedToNothing(media: set<MediaId>, maps: MediaMaps): Candidate -> bool
  {
    (c: Candidate) => c.target in media && c.legacyId in maps && maps[c.legacyId] !in media
  }

  ghost predicate Tallies(stats: Stats, media: set<MediaId>, maps: MediaMaps, cs: seq<Candidate>, n: nat)
    requires n <= |cs|
  {
    && stats.candidates == |cs|
    && stats.created == |Those(cs, n, Unmapped(media, maps))|
    && stats.updatedMissingTarget == |Those(cs, n, MappedToNothing(media, maps))|
    && stats.skippedExisting == |Those(cs, n, MappedAlike(media, maps))|
    && stats.skippedConflict == |Those(cs, n, MappedElsewhere(media, maps))|
    && stats.skippedMissingMedia == |Those(cs, n, NoMedia(media))|
  }

  /** The five counters are the sizes of five sets of candidates. */
  lemma {:induction false} CountersTally(media: set<MediaId>, maps: MediaMaps, cs: seq<Candidate>, n: nat)
    requires n <= |cs|
    ensures Tallies(Analyzed(media, maps, cs, n), media, maps, cs, n)
    decreases n
  {
    if n > 0 {
      CountersTally(media, maps, cs, n - 1);
      ThoseNext(cs, n - 1, Unmapped(media, maps));
      ThoseNext(cs, n - 1, MappedToNothing(media, maps));
      ThoseNext(cs, n - 1, MappedAlike(media, maps));
      ThoseNext(cs, n - 1, MappedElsewhere(media, maps));
      ThoseNext(cs, n - 1, NoMedia(media));
    }
  }

  /** What the map of a candidate's legacy id must be afterwards. */
  function Settled(media: set<MediaId>, maps: MediaMaps, c: Candidate): MediaId
  {
    if c.legacyId in maps && maps[c.legacyId] in media then maps[c.legacyId] else c.target
  }

  ghost predicate EndsSettled(media: set<MediaId>, maps: MediaMaps, now: MediaMaps, c: Candidate)
  {
    c.legacyId in now && now[c.legacyId] == Settled(media, maps, c) && now[c.legacyId] in media
  }

  ghost predicate SameEntry(maps: MediaMaps, now: MediaMaps, id: string)
  {
    (id in now <==> id in maps) && (id in maps ==> now[id] == maps[id])
  }

  /** A candidate among the first n with existing media claims the legacy id. */
  ghost predicate Claimed(media: set<MediaId>, cs: seq<Candidate>, n: nat, id: string)
    requires n <= |cs|
  {
    exists k :: 0 <= k < n && cs[k].target in media && cs[k].legacyId == id
  }

  /** Candidates whose media exists end at existing media: where their map
      already pointed if that exists, else at their own target. Every other entry
      is as it was. */
  ghost predicate Repaired(media: set<MediaId>, maps: MediaMaps, now: MediaMaps, cs: seq<Candidate>, n: nat)
    requires n <= |cs|
  {
    && (forall k :: 0 <= k < n && cs[k].target in media ==> EndsSettled(media, maps, now, cs[k]))
    && (forall id :: !Claimed(media, cs, n, id) ==> SameEntry(maps, now, id))
  }

  lemma AppliedSettles(media: set<MediaId>, maps: MediaMaps, before: MediaMaps, c: Candidate)
    requires SameEntry(maps, before, c.legacyId)
    ensures c.target in media ==> EndsSettled(media, maps, ApplyOne(media, before, c), c)
    ensures c.target !in media ==> ApplyOne(media, before, c) == before
    ensures forall id :: id != c.legacyId ==> SameEntry(before, ApplyOne(media, before, c), id)
  {
  }

  lemma RepairsNext(media: set<MediaId>, maps: MediaMaps, before: MediaMaps, cs: seq<Candidate>, n: nat)
    requires Deduped(cs) && n < |cs| && Repaired(media, maps, before, cs, n) && SameEntry(maps, before, cs[n].legacyId)
    ensures Repaired(media, maps, ApplyOne(media, before, cs[n]), cs, n + 1)
  {
    var now := ApplyOne(media, before, cs[n]);
    AppliedSettles(media, maps, before, cs[n]);
    forall k | 0 <= k < n && cs[k].target in media
      ensures EndsSettled(media, maps, now, cs[k])
    {
      assert cs[k].legacyId != cs[n].legacyId && SameEntry(before, now, cs[k].legacyId);
    }
    forall id | !Claimed(media, cs, n + 1, id)
      ensures SameEntry(maps, now, id)
    {
      assert !Claimed(media, cs, n, id);
      assert cs[n].target in media ==> cs[n].legacyId != id;
    }
  }

  lemma {:induction false} ApplyRepairs(media: set<MediaId>, maps: MediaMaps, cs: seq<Candidate>, n: nat)
    requires Deduped(cs) && n <= |cs|
    ensures Repaired(media, maps, AppliedMaps(media, maps, cs, n), cs, n)
    decreases n
  {
    if n > 0 {
      ApplyRepairs(media, maps, cs, n - 1);
      OwnEntryUntouched(media, maps, cs, n - 1, n - 1);
      RepairsNext(media, maps, AppliedMaps(media, maps, cs, n - 1), cs, n - 1);
    }
  }

  // ---------------------------------------------------------------- the two modes

  class Backfill {
    const media: set<MediaId>
    var maps: MediaMaps

    constructor (media: set<MediaId>, maps: MediaMaps)
      ensures this.media == media && this.maps == maps
    {
      this.media := media;
      this.maps := maps;
    }

    /** The dry run. For a deduplicated list it reports what apply would do. */
    method AnalyzeCandidates(cs: seq<Candidate>) returns (stats: Stats)
      ensures stats == Analyzed(media, maps, cs, |cs|)
      ensures Deduped(cs) ==> stats == AppliedStats(media, maps, cs, |cs|)
      ensures Tallies(stats, media, maps, cs, |cs|)
    {
      stats := EmptyStats(|cs|);
      for i := 0 to |cs|
        invariant stats == Analyzed(media, maps, cs, i)
      {
        stats := Increment(stats, Resolve(media, maps, cs[i]));
      }
      if Deduped(cs) {
        DryRunPredictsApply(media, maps, cs, |cs|);
      }
      CountersTally(media, maps, cs, |cs|);
    }

    method ApplyCandidates(cs: seq<Candidate>) returns (stats: Stats)
      modifies this`maps
      ensures maps == AppliedMaps(media, old(maps), cs, |cs|)
      ensures stats == AppliedStats(media, old(maps), cs, |cs|)
      ensures stats.created + stats.updatedMissingTarget + stats.skippedExisting + stats.skippedConflict
              + stats.skippedMissingMedia == |cs|
      ensures Deduped(cs) ==> Tallies(stats, media, old(maps), cs, |cs|) && Repaired(media, old(maps), maps, cs, |cs|)
    {
      stats := EmptyStats(|cs|);
      for i := 0 to |cs|
        invariant maps == AppliedMaps(media, old(maps), cs, i)
        invariant stats == AppliedStats(media, old(maps), cs, i)
      {
        var outcome := Resolve(media, maps, cs[i]);
        stats := Increment(stats, outcome);
        if outcome == Create || outcome == UpdateMissingTarget {
          maps := maps[cs[i].legacyId := cs[i].target];
        }
      }
      OutcomesAddUp(media, old(maps), cs, |cs|);
      if Deduped(cs) {
        DryRunPredictsApply(media, old(maps), cs, |cs|);
        CountersTally(media, old(maps), cs, |cs|);
        ApplyRepairs(media, old(maps), cs, |cs|);
      }
    }
  }
}
