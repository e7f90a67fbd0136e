/** When two images of one product come to the same media row, which the link
    table cannot hold. */
module MediaClashes {
  import opened Basics
  import opened MediaStore
  import opened MediaImport
  import opened MediaImportLaws
  import opened MediaLinking
  import opened MediaAssets

  /** A media row has one key. */
  ghost predicate OneKeyEach(start: Store)
  {
    forall k, k' :: k in start.rows && k' in start.rows && start.rows[k] == start.rows[k'] ==> k == k'
  }

  /** An image that succeeds and that no earlier import made media for. */
  ghost predicate Fresh(job: Job, start: Store, i: nat, p: Id)
  {
    Wanted(job, start, i, p) && Reusable(job, start, i).None?
  }

  function PlaceOf(job: Job, i: nat): Place
    requires i < |job.assets| && Resolve(job.assets[i], job.targets).Some?
  {
    Resolve(job.assets[i], job.targets).value
  }

  /** Hash of the url, dot, extension. */
  function NameOf(file: File): string
  {
    file.hash + "." + file.extension
  }

  lemma FileNamesAgree(p: nat, f: File, q: nat, g: File)
    ensures FileName(p, f.hash, f.extension) == FileName(q, g.hash, g.extension) <==> p == q && NameOf(f) == NameOf(g)
  {
    FileNameSplits(p, f.hash, f.extension);
    FileNameSplits(q, g.hash, g.extension);
    if FileName(p, f.hash, f.extension) == FileName(q, g.hash, g.extension) {
      FileNamesApart(p, f.hash, f.extension, q, g.hash, g.extension);
    }
  }

  /** Two fresh images of a product come to the same media row exactly when
      catalog, position and file name agree. */
  lemma FreshClashIff(job: Job, start: Store, i: nat, j: nat, p: Id)
    requires FreshStart(start) && OneKeyEach(start) && i != j && Fresh(job, start, i, p) && Fresh(job, start, j, p)
    ensures Clash(job, start, i, j, p) <==>
            && PlaceOf(job, i).catalog == PlaceOf(job, j).catalog && job.assets[i].position == job.assets[j].position
            && NameOf(job.fetch(job.assets[i].legacyId).value) == NameOf(job.fetch(job.assets[j].legacyId).value)
  {
    var a, b := job.assets[i], job.assets[j];
    var fa, fb := job.fetch(a.legacyId).value, job.fetch(b.legacyId).value;
    FileNamesAgree(a.position, fa, b.position, fb);
  }

  function KeyFor(job: Job, i: nat): MediaKey
    requires i < |job.assets| && Resolve(job.assets[i], job.targets).Some? && job.fetch(job.assets[i].legacyId).Some?
  {
    KeyOf(job.assets[i], PlaceOf(job, i), job.fetch(job.assets[i].legacyId).value)
  }

  /** What two images of a product have in common when they come to the same
      media row: the map entries of both if both are reused, the media row that
      stands at the key of the new one if one is, the key if none is. */
  ghost predicate Meets(job: Job, start: Store, i: nat, j: nat, p: Id)
  {
    && i != j && Wanted(job, start, i, p) && Wanted(job, start, j, p)
    && (match (Reusable(job, start, i), Reusable(job, start, j))
        case (Some(m), Some(n)) => m == n
        case (Some(m), None) => KeyFor(job, j) in start.rows && start.rows[KeyFor(job, j)] == m
        case (None, Some(n)) => KeyFor(job, i) in start.rows && start.rows[KeyFor(job, i)] == n
        case (None, None) =>
          && PlaceOf(job, i).catalog == PlaceOf(job, j).catalog && job.assets[i].position == job.assets[j].position
          && NameOf(job.fetch(job.assets[i].legacyId).value) == NameOf(job.fetch(job.assets[j].legacyId).value))
  }

  lemma ReusedAgainstFresh(job: Job, start: Store, i: nat, j: nat, p: Id)
    requires FreshStart(start) && i != j && Wanted(job, start, i, p) && Reusable(job, start, i).Some? && Fresh(job, start, j, p)
    ensures Outcome(job, start, i) == Outcome(job, start, j) <==>
            KeyFor(job, j) in start.rows && start.rows[KeyFor(job, j)] == Reusable(job, start, i).value
  {
  }

  lemma ClashIffMeets(job: Job, start: Store, i: nat, j: nat, p: Id)
    requires FreshStart(start) && OneKeyEach(start)
    ensures Clash(job, start, i, j, p) <==> Meets(job, start, i, j, p)
  {
    if i != j && Wanted(job, start, i, p) && Wanted(job, start, j, p) {
      match (Reusable(job, start, i), Reusable(job, start, j))
      case (Some(_), Some(_)) =>
      case (Some(_), None) => ReusedAgainstFresh(job, start, i, j, p);
      case (None, Some(_)) => ReusedAgainstFresh(job, start, j, i, p);
      case (None, None) => FreshClashIff(job, start, i, j, p);
    }
  }

  /** Exactly when the links of a product can be inserted, from what is known
      before the link phase: map entries, media rows and files. */
  lemma ClashFreeIff(job: Job, start: Store, p: Id)
    requires FreshStart(start) && OneKeyEach(start)
    ensures ClashFree(job, start, p) <==> forall i: nat, j: nat :: !Meets(job, start, i, j, p)
  {
    forall i: nat, j: nat
      ensures Clash(job, start, i, j, p) <==> Meets(job, start, i, j, p)
    {
      ClashIffMeets(job, start, i, j, p);
    }
  }

  // ---------------------------------------------------------------- injective product maps

  ghost predicate InjectiveTargets(targets: map<string, Id>)
  {
    forall a, b :: a in targets && b in targets && targets[a] == targets[b] ==> a == b
  }

  ghost predicate AllWellNamed(job: Job)
  {
    forall i :: 0 <= i < |job.assets| ==> WellNamed(job.assets[i])
  }

  lemma BuiltAssets(bs: seq<Business>, cs: seq<LegacyCategory>, ps: seq<LegacyProduct>, job: Job)
    requires DistinctBusinesses(bs) && DistinctCategories(cs) && DistinctProducts(ps) && job.assets == AllAssets(bs, cs, ps)
    ensures DistinctAssets(job) && AllWellNamed(job)
  {
    AssetsAreDistinct(bs, cs, ps);
    forall i | 0 <= i < |job.assets|
      ensures WellNamed(job.assets[i])
    {
      AssetsAreWellNamed(bs, cs, ps, i);
    }
  }

  ghost predicate DistinctPositions(job: Job, p: Id)
  {
    forall i: nat, j: nat :: i != j && ImageOf(job, i, p) && ImageOf(job, j, p) ==>
      job.assets[i].position != job.assets[j].position
  }

  /** With injective product maps the images of a product stem from one legacy
      product, which numbers them apart. */
  lemma InjectiveNumbersApart(job: Job, p: Id)
    requires DistinctAssets(job) && AllWellNamed(job) && InjectiveTargets(job.targets.products)
    ensures DistinctPositions(job, p)
  {
    forall i: nat, j: nat | i != j && ImageOf(job, i, p) && ImageOf(job, j, p)
      ensures job.assets[i].position != job.assets[j].position
    {
      assert WellNamed(job.assets[i]) && WellNamed(job.assets[j]);
      assert job.assets[i].legacyId != job.assets[j].legacyId by {
        assert job.assets[if i < j then i else j].legacyId != job.assets[if i < j then j else i].legacyId;
      }
    }
  }

  /** Images freshly imported from distinct legacy rows never clash as long as
      no two legacy products share a target. */
  lemma FreshImagesNeverClash(bs: seq<Business>, cs: seq<LegacyCategory>, ps: seq<LegacyProduct>, job: Job, start: Store, p: Id)
    requires DistinctBusinesses(bs) && DistinctCategories(cs) && DistinctProducts(ps) && job.assets == AllAssets(bs, cs, ps)
    requires InjectiveTargets(job.targets.products) && FreshStart(start) && OneKeyEach(start)
    requires forall i: nat :: Wanted(job, start, i, p) ==> Reusable(job, start, i).None?
    ensures ClashFree(job, start, p)
  {
    BuiltAssets(bs, cs, ps, job);
    InjectiveNumbersApart(job, p);
    forall i: nat, j: nat
      ensures !Clash(job, start, i, j, p)
    {
      if i != j && Wanted(job, start, i, p) && Wanted(job, start, j, p) {
        FreshClashIff(job, start, i, j, p);
      }
    }
  }

  // ---------------------------------------------------------------- shared targets

  /** Maps that are not injective: two legacy products with one target product. */
  const TWO := [LegacyProduct("a", "b", 1), LegacyProduct("c", "b", 1)]

  /** Both show the same picture. */
  function SharedJob(file: File): Job
  {
    Job(AllAssets([], [], TWO), Targets(map["b" := 1], map[], map["a" := 5, "c" := 5]), _ => true, _ => Some(file))
  }

  const EMPTY := Store(map[], {}, map[], map[], map[], {}, map[], map[])

  lemma TwoImages(file: File)
    ensures SharedJob(file).assets == [ImageAsset(TWO[0], 0), ImageAsset(TWO[1], 0)]
  {
    assert ProductAssets(TWO, 2) == ProductAssets(TWO, 1) + ImageAssets(TWO[1], 1);
    assert ProductAssets(TWO, 1) == ProductAssets(TWO, 0) + ImageAssets(TWO[0], 1);
    assert ImageAssets(TWO[0], 1) == [ImageAsset(TWO[0], 0)] && ImageAssets(TWO[1], 1) == [ImageAsset(TWO[1], 0)];
  }

  lemma SharedImage(file: File, i: nat)
    requires i < 2
    ensures var job := SharedJob(file);
            && |job.assets| == 2 && ImageOf(job, i, 5) && PlaceOf(job, i) == Place(1, 5) && job.assets[i].position == 0
            && Fresh(job, EMPTY, i, 5)
  {
    TwoImages(file);
    var job := SharedJob(file);
    assert job.assets[i] == ImageAsset(TWO[i], 0);
    assert Resolve(job.assets[i], job.targets) == Some(Place(1, 5));
  }

  lemma SharedImagesClash(file: File)
    ensures !ClashFree(SharedJob(file), EMPTY, 5)
  {
    SharedImage(file, 0);
    SharedImage(file, 1);
    FreshClashIff(SharedJob(file), EMPTY, 0, 1, 5);
    assert Clash(SharedJob(file), EMPTY, 0, 1, 5);
  }

  lemma SharedProductIsPlanned(file: File)
    ensures DistinctOrder(InitialPlans(SharedJob(file)), [5])
  {
    SharedImage(file, 0);
    var job := SharedJob(file);
    assert Resolve(job.assets[0], job.targets).value.target == 5;
  }

  lemma SharedAssets(file: File)
    ensures DistinctAssets(SharedJob(file)) && |SharedJob(file).assets| == 2
  {
    SharedImage(file, 0);
    BuiltAssets([], [], TWO, SharedJob(file));
  }

  /** Every asset gets its turns. */
  ghost predicate Fair(job: Job, schedule: Schedule)
  {
    ScheduleOf(job, schedule) && forall i :: 0 <= i < |job.assets| ==> Turns(schedule, i) >= 4
  }

  /** The import finishes and the link loop stops. */
  ghost predicate Stops(job: Job, start: Store, schedule: Schedule, order: seq<Id>)
    requires ScheduleOf(job, schedule)
  {
    var sys := Run(job, Start(job, start), schedule);
    AllDone(sys) && LinkPlans(start.productMedia, sys.plans, order, |order|).Stopped?
  }

  lemma ClashStopsLinking(job: Job, start: Store, schedule: Schedule, order: seq<Id>, k: nat)
    requires DistinctAssets(job) && FreshStart(start) && Fair(job, schedule)
    requires DistinctOrder(InitialPlans(job), order) && k < |order| && !ClashFree(job, start, order[k])
    ensures Stops(job, start, schedule, order)
  {
    FairSchedulesFinish(job, start, schedule);
    LinksOfRun(job, start, schedule, order, order[k]);
  }

  /** Two assets that take turns. */
  lemma RoundRobinIsFair(job: Job)
    requires |job.assets| == 2
    ensures Fair(job, [0, 1, 0, 1, 0, 1, 0, 1])
  {
    assert Turns([0, 1], 0) == 1 && Turns([0, 1], 1) == 1;
    assert Turns([0, 1, 0, 1], 0) == 2 && Turns([0, 1, 0, 1], 1) == 2;
  }

  /** Then the import goes through under every fair schedule, both images come to
      one media row, and the link loop stops at the product. */
  lemma SharedProductStopsLinking(file: File, schedule: Schedule)
    requires Fair(SharedJob(file), schedule)
    ensures DistinctOrder(InitialPlans(SharedJob(file)), [5]) && Stops(SharedJob(file), EMPTY, schedule, [5])
  {
    SharedAssets(file);
    SharedImagesClash(file);
    SharedProductIsPlanned(file);
    ClashStopsLinking(SharedJob(file), EMPTY, schedule, [5], 0);
  }
}
