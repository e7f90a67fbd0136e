/** An edit between two imports that stops the second, with nothing but
    injective maps: the backfill takes the moved image for another one. */
module MediaEdits {
  import opened Basics
  import opened MediaStore
  import opened MediaImport
  import opened MediaImportLaws
  import opened MediaLinking
  import opened MediaAssets
  import opened MediaClashes
  import opened MediaAgreement
  import opened MediaRepeat
  import Backfill = MediaMapBackfill

  /** The first import made media for image i of the product and none for image
      j, of which nothing was known. */
  ghost predicate OneFailed(job: Job, start: Store, i: nat, j: nat, p: Id)
  {
    && i != j && ImageOf(job, i, p) && ImageOf(job, j, p)
    && Outcome(job, start, i).Some? && Outcome(job, start, j).None? && job.assets[j].legacyId !in start.maps
  }

  /** The link that an editor moved to the place of image j. */
  function MovedLink(job: Job, start: Store, i: nat, j: nat, p: Id): ProductRow
    requires i < |job.assets| && j < |job.assets| && Outcome(job, start, i).Some?
  {
    ProductRow(p, Outcome(job, start, i).value, job.assets[j].position)
  }

  /** The backfill reads it as image j. */
  lemma MovedLinkIsMistaken(job: Job, start: Store, maps: seq<EntityMap>, i: nat, j: nat, p: Id)
    requires AllWellNamed(job) && OneFailed(job, start, i, j, p)
    requires LoadedFrom(job.targets.products, maps) && InjectiveRows(maps)
    ensures ProductCandidate(Reverse(maps, |maps|), MovedLink(job, start, i, j, p)) ==
            Some(Backfill.Candidate(job.assets[j].legacyId, Outcome(job, start, i).value))
  {
    assert WellNamed(job.assets[j]);
    ImageTracedBack(job, maps, j, p);
  }

  /** Nothing is mapped for it, so it creates the entry. */
  lemma MistakeIsApplied(job: Job, start: Store, sys: Sys, i: nat, j: nat, p: Id, c: Backfill.Candidate)
    requires Finished(job, start, sys) && OneFailed(job, start, i, j, p)
    requires c == Backfill.Candidate(job.assets[j].legacyId, Outcome(job, start, i).value)
    ensures Backfill.AppliedMaps(sys.store.media, sys.store.maps, [c], 1) == sys.store.maps[c.legacyId := c.target]
  {
    FinishedIsMapped(job, start, sys, i);
    assert TaskOk(job, start, sys.store, j, sys.tasks[j]);
    CreatedAlone(sys.store.media, sys.store.maps, c);
  }

  lemma CreatedAlone(media: set<MediaId>, maps: MediaMaps, c: Backfill.Candidate)
    requires c.target in media && c.legacyId !in maps
    ensures Backfill.AppliedMaps(media, maps, [c], 1) == maps[c.legacyId := c.target]
  {
    assert Backfill.AppliedMaps(media, maps, [c], 0) == maps;
  }

  /** The store after the backfill, whatever the links are by then. */
  ghost predicate Backfilled(job: Job, start: Store, sys: Sys, i: nat, j: nat, again: Store)
    requires i < |job.assets| && j < |job.assets| && Outcome(job, start, i).Some?
  {
    again == sys.store.(maps := sys.store.maps[job.assets[j].legacyId := Outcome(job, start, i).value],
                        productMedia := again.productMedia)
  }

  lemma BackfilledIsFresh(job: Job, start: Store, sys: Sys, i: nat, j: nat, again: Store)
    requires Finished(job, start, sys) && FreshStart(sys.store) && i < |job.assets| && j < |job.assets|
    requires Outcome(job, start, i).Some? && Backfilled(job, start, sys, i, j, again)
    ensures FreshStart(again)
  {
    FinishedIsMapped(job, start, sys, i);
  }

  /** The next import's job: the same assets and targets, other downloads. */
  ghost predicate SameAssets(job: Job, next: Job)
  {
    next.assets == job.assets && next.targets == job.targets
  }

  lemma BothReused(job: Job, start: Store, sys: Sys, next: Job, again: Store, i: nat, j: nat, p: Id)
    requires DistinctAssets(job) && Finished(job, start, sys) && OneFailed(job, start, i, j, p) && SameAssets(job, next)
    requires Backfilled(job, start, sys, i, j, again) && Accepted(next, i) && Accepted(next, j)
    ensures !ClashFree(next, again, p)
  {
    FinishedIsMapped(job, start, sys, i);
    assert job.assets[if i < j then i else j].legacyId != job.assets[if i < j then j else i].legacyId;
    assert Reusable(next, again, i) == Outcome(job, start, i) && Reusable(next, again, j) == Outcome(job, start, i);
    assert Clash(next, again, i, j, p);
  }

  /** Then, whatever the downloads bring and however the assets interleave, the
      next import reuses one media row for both images and its link loop stops. */
  lemma MovedLinkStopsLinking(job: Job, start: Store, x: Schedule, next: Job, again: Store, y: Schedule, order: seq<Id>,
                              i: nat, j: nat, p: Id)
    requires DistinctAssets(job) && FreshStart(start) && ScheduleOf(job, x) && AllDone(Run(job, Start(job, start), x))
    requires OneFailed(job, start, i, j, p) && Backfilled(job, start, Run(job, Start(job, start), x), i, j, again)
    requires SameAssets(job, next) && Accepted(next, i) && Accepted(next, j) && Fair(next, y)
    requires DistinctOrder(InitialPlans(next), order) && p in order
    ensures Stops(next, again, y, order)
  {
    var sys := Run(job, Start(job, start), x);
    EndOfRun(job, start, x);
    RunKeepsFresh(job, Start(job, start), x);
    BackfilledIsFresh(job, start, sys, i, j, again);
    BothReused(job, start, sys, next, again, i, j, p);
    var k :| 0 <= k < |order| && order[k] == p;
    ClashStopsLinking(next, again, y, order, k);
  }

  // ---------------------------------------------------------------- one product, two images

  const ONE := [LegacyProduct("a", "b", 2)]
  const FIRST_ID := ProductImageId("a", 1)

  /** Only the first image can be downloaded. */
  function OneJob(file: File): Job
  {
    Job(AllAssets([], [], ONE), Targets(map["b" := 1], map[], map["a" := 5]), _ => true,
        (id: string) => if id == FIRST_ID then Some(file) else None)
  }

  lemma OneJobAssets(file: File)
    ensures OneJob(file).assets == [ImageAsset(ONE[0], 0), ImageAsset(ONE[0], 1)]
  {
    assert ProductAssets(ONE, 1) == ProductAssets(ONE, 0) + ImageAssets(ONE[0], 2);
    assert ImageAssets(ONE[0], 2) == ImageAssets(ONE[0], 1) + [ImageAsset(ONE[0], 1)];
    assert ImageAssets(ONE[0], 1) == ImageAssets(ONE[0], 0) + [ImageAsset(ONE[0], 0)];
  }

  lemma OneJobIsBuilt(file: File)
    ensures |OneJob(file).assets| == 2 && DistinctAssets(OneJob(file)) && AllWellNamed(OneJob(file))
  {
    OneJobAssets(file);
    BuiltAssets([], [], ONE, OneJob(file));
  }

  /** A fresh store, one product with two images of which the second fails:
      the maps are injective and the situation above is reached. */
  lemma SecondImageFails(file: File)
    ensures InjectiveTargets(OneJob(file).targets.products)
    ensures OneFailed(OneJob(file), EMPTY, 0, 1, 5)
  {
    var job := OneJob(file);
    OneJobAssets(file);
    assert Resolve(job.assets[0], job.targets) == Some(Place(1, 5)) && Resolve(job.assets[1], job.targets) == Some(Place(1, 5));
    assert job.assets[0].legacyId == FIRST_ID;
    if ProductImageId("a", 2) == FIRST_ID {
      ProductImageIdInjective("a", 2, "a", 1);
    }
  }

  lemma OnePlanned(file: File)
    ensures DistinctOrder(InitialPlans(OneJob(file)), [5])
  {
    SecondImageFails(file);
    var job := OneJob(file);
    assert Resolve(job.assets[0], job.targets).value.target == 5;
  }

  /** What the import left, with the image moved and the backfill applied. */
  ghost predicate EditedAndBackfilled(job: Job, sys: Sys, m: MediaId, again: Store)
  {
    var candidate := ProductCandidate(Reverse([EntityMap("a", 5)], 1), ProductRow(5, m, 1));
    && candidate.Some?
    && again == sys.store.(maps := Backfill.AppliedMaps(sys.store.media, sys.store.maps, [candidate.value], 1),
                           productMedia := map[5 := map[m := 1]])
  }

  lemma EditedIsBackfilled(file: File, sys: Sys, again: Store)
    requires Finished(OneJob(file), EMPTY, sys) && OneFailed(OneJob(file), EMPTY, 0, 1, 5)
    requires EditedAndBackfilled(OneJob(file), sys, Outcome(OneJob(file), EMPTY, 0).value, again)
    ensures Backfilled(OneJob(file), EMPTY, sys, 0, 1, again)
  {
    var job, maps := OneJob(file), [EntityMap("a", 5)];
    OneJobIsBuilt(file);
    OneJobAssets(file);
    assert LoadedFrom(job.targets.products, maps) by { assert maps[0] == EntityMap("a", 5); }
    MovedLinkIsMistaken(job, EMPTY, maps, 0, 1, 5);
    MistakeIsApplied(job, EMPTY, sys, 0, 1, 5, Backfill.Candidate(job.assets[1].legacyId, Outcome(job, EMPTY, 0).value));
  }

  lemma OneJobFinishes(file: File, x: Schedule)
    requires Fair(OneJob(file), x)
    ensures AllDone(Run(OneJob(file), Start(OneJob(file), EMPTY), x))
    ensures Finished(OneJob(file), EMPTY, Run(OneJob(file), Start(OneJob(file), EMPTY), x))
  {
    OneJobIsBuilt(file);
    FairSchedulesFinish(OneJob(file), EMPTY, x);
    EndOfRun(OneJob(file), EMPTY, x);
  }

  /** The whole story for that product: import under any fair schedule, move the
      image to the second place, backfill, import again under any fair
      schedule: the link loop stops. */
  lemma EditedImportStops(file: File, x: Schedule, m: MediaId, again: Store, y: Schedule)
    requires Fair(OneJob(file), x) && Fair(OneJob(file), y) && Outcome(OneJob(file), EMPTY, 0) == Some(m)
    requires EditedAndBackfilled(OneJob(file), Run(OneJob(file), Start(OneJob(file), EMPTY), x), m, again)
    ensures DistinctOrder(InitialPlans(OneJob(file)), [5]) && Stops(OneJob(file), again, y, [5])
  {
    SecondImageFails(file);
    OnePlanned(file);
    OneJobIsBuilt(file);
    OneJobFinishes(file, x);
    EditedIsBackfilled(file, Run(OneJob(file), Start(OneJob(file), EMPTY), x), again);
    MovedLinkStopsLinking(OneJob(file), EMPTY, x, OneJob(file), again, y, [5], 0, 1, 5);
  }
}
