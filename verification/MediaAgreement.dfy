/** The import and the backfill agree: what the import linked, the backfill
    finds already mapped. */
module MediaAgreement {
  import opened Basics
  import opened MediaStore
  import opened MediaImport
  import opened MediaImportLaws
  import opened MediaLinking
  import opened MediaAssets
  import opened MediaClashes
  import Backfill = MediaMapBackfill

  // ---------------------------------------------------------------- the backfill's collectors

  /** Legacy id by target id, over the first n map rows; the last row of a target counts. */
  function Reverse(rows: seq<EntityMap>, n: nat): map<Id, string>
    requires n <= |rows|
  {
    if n == 0 then map[] else Reverse(rows, n - 1)[rows[n - 1].target := rows[n - 1].legacyId]
  }

  datatype CatalogConfig = CatalogConfig(catalog: Id, logo: Option<MediaId>, background: Option<MediaId>)
  datatype CategoryRow = CategoryRow(category: Id, image: Option<MediaId>)
  datatype ProductRow = ProductRow(product: Id, media: MediaId, position: nat)

  /** The collectors spell the legacy ids themselves. */
  function ProductCandidate(reverse: map<Id, string>, row: ProductRow): Option<Backfill.Candidate>
  {
    if row.product in reverse
    then Some(Backfill.Candidate("product:" + reverse[row.product] + ":image:" + Decimal(row.position + 1), row.media)) else None
  }

  function CategoryCandidate(reverse: map<Id, string>, row: CategoryRow): Option<Backfill.Candidate>
  {
    if row.image.Some? && row.category in reverse
    then Some(Backfill.Candidate("category:" + reverse[row.category] + ":image", row.image.value)) else None
  }

  function LogoCandidate(reverse: map<Id, string>, row: CatalogConfig): Option<Backfill.Candidate>
  {
    if row.logo.Some? && row.catalog in reverse
    then Some(Backfill.Candidate("business:" + reverse[row.catalog] + ":logo", row.logo.value)) else None
  }

  function BackgroundCandidate(reverse: map<Id, string>, row: CatalogConfig): Option<Backfill.Candidate>
  {
    if row.background.Some? && row.catalog in reverse
    then Some(Backfill.Candidate("business:" + reverse[row.catalog] + ":bg", row.background.value)) else None
  }

  // ---------------------------------------------------------------- injective maps

  ghost predicate InjectiveRows(rows: seq<EntityMap>)
  {
    forall i, j :: 0 <= i < |rows| && 0 <= j < |rows| && rows[i].target == rows[j].target ==> rows[i].legacyId == rows[j].legacyId
  }

  lemma {:induction false} ReverseFinds(rows: seq<EntityMap>, n: nat, k: nat)
    requires InjectiveRows(rows) && k < n <= |rows|
    ensures rows[k].target in Reverse(rows, n) && Reverse(rows, n)[rows[k].target] == rows[k].legacyId
    decreases n
  {
    if k < n - 1 {
      ReverseFinds(rows, n - 1, k);
    }
  }

  /** The import's targets come from the same map rows. */
  ghost predicate LoadedFrom(targets: map<string, Id>, rows: seq<EntityMap>)
  {
    forall id :: id in targets ==> EntityMap(id, targets[id]) in rows
  }

  lemma LegacyIdFound(targets: map<string, Id>, rows: seq<EntityMap>, id: string)
    requires LoadedFrom(targets, rows) && InjectiveRows(rows) && id in targets
    ensures targets[id] in Reverse(rows, |rows|) && Reverse(rows, |rows|)[targets[id]] == id
  {
    var k :| 0 <= k < |rows| && rows[k] == EntityMap(id, targets[id]);
    ReverseFinds(rows, |rows|, k);
  }

  // ---------------------------------------------------------------- product links

  lemma FinishedIsMapped(job: Job, start: Store, sys: Sys, i: nat)
    requires Finished(job, start, sys) && i < |job.assets| && Outcome(job, start, i).Some?
    ensures Mapped(sys.store, job.assets[i].legacyId, Outcome(job, start, i).value)
  {
    assert TaskOk(job, start, sys.store, i, sys.tasks[i]);
  }

  lemma ImageTracedBack(job: Job, maps: seq<EntityMap>, i: nat, p: Id)
    requires ImageOf(job, i, p) && LoadedFrom(job.targets.products, maps) && InjectiveRows(maps)
    ensures p in Reverse(maps, |maps|) && Reverse(maps, |maps|)[p] == job.assets[i].entity
  {
    LegacyIdFound(job.targets.products, maps, job.assets[i].entity);
  }

  ghost predicate SkippedAsExisting(store: Store, c: Option<Backfill.Candidate>)
  {
    c.Some? && Backfill.Resolve(store.media, store.maps, c.value) == Backfill.SkipExisting
  }

  /** Every candidate that the backfill reads off a product link written by the
      import is already mapped: the two tools number images alike and trace a
      product back to the same legacy id. */
  lemma ProductLinksAgree(job: Job, start: Store, sys: Sys, maps: seq<EntityMap>, rows: Rows, row: ProductRow)
    requires Finished(job, start, sys) && AllWellNamed(job)
    requires LoadedFrom(job.targets.products, maps) && InjectiveRows(maps)
    requires RowsOf(job, start, row.product, rows) && row.media in rows && rows[row.media] == row.position
    ensures SkippedAsExisting(sys.store, ProductCandidate(Reverse(maps, |maps|), row))
  {
    var i := ImageBehind(job, start, rows, row);
    FinishedIsMapped(job, start, sys, i);
    ImageCandidateSkipped(job, sys.store, maps, i, row);
  }

  lemma ImageCandidateSkipped(job: Job, store: Store, maps: seq<EntityMap>, i: nat, row: ProductRow)
    requires ImageOf(job, i, row.product) && job.assets[i].position == row.position && AllWellNamed(job)
    requires LoadedFrom(job.targets.products, maps) && InjectiveRows(maps)
    requires Mapped(store, job.assets[i].legacyId, row.media)
    ensures SkippedAsExisting(store, ProductCandidate(Reverse(maps, |maps|), row))
  {
    ImageTracedBack(job, maps, i, row.product);
    ImageIdAgrees(Reverse(maps, |maps|), job.assets[i], row);
    MappedIsSkipped(store, Backfill.Candidate(job.assets[i].legacyId, row.media));
  }

  lemma ImageIdAgrees(reverse: map<Id, string>, a: Asset, row: ProductRow)
    requires a.kind.ProductImage? && WellNamed(a) && a.position == row.position
    requires row.product in reverse && reverse[row.product] == a.entity
    ensures ProductCandidate(reverse, row) == Some(Backfill.Candidate(a.legacyId, row.media))
  {
  }

  lemma MappedIsSkipped(store: Store, c: Backfill.Candidate)
    requires Mapped(store, c.legacyId, c.target)
    ensures Backfill.Resolve(store.media, store.maps, c) == Backfill.SkipExisting
  {
  }

  lemma ImageBehind(job: Job, start: Store, rows: Rows, row: ProductRow) returns (i: nat)
    requires RowsOf(job, start, row.product, rows) && row.media in rows && rows[row.media] == row.position
    ensures ImageOf(job, i, row.product) && Outcome(job, start, i) == Some(row.media) && job.assets[i].position == row.position
  {
    assert Justified(job, start, row.product, row.media);
    i :| Wanted(job, start, i, row.product) && Outcome(job, start, i).value == row.media;
    assert RowFor(job, start, i, rows);
  }

  /** The whole pipeline: build the assets of distinct legacy rows, run the
      import under any schedule, link, then collect: every row of a product that
      the import linked is skipped as existing. */
  lemma ImportThenBackfill(bs: seq<Business>, cs: seq<LegacyCategory>, ps: seq<LegacyProduct>, job: Job, start: Store,
                           schedule: Schedule, order: seq<Id>, maps: seq<EntityMap>, row: ProductRow)
    requires DistinctBusinesses(bs) && DistinctCategories(cs) && DistinctProducts(ps) && job.assets == AllAssets(bs, cs, ps)
    requires FreshStart(start) && ScheduleOf(job, schedule) && AllDone(Run(job, Start(job, start), schedule))
    requires LoadedFrom(job.targets.products, maps) && InjectiveRows(maps)
    requires DistinctOrder(InitialPlans(job), order) && row.product in order && AnyWanted(job, start, row.product)
    requires var sys := Run(job, Start(job, start), schedule);
             var r := LinkPlans(start.productMedia, sys.plans, order, |order|);
             && r.Linked? && row.product in r.productMedia
             && row.media in r.productMedia[row.product] && r.productMedia[row.product][row.media] == row.position
    ensures var sys := Run(job, Start(job, start), schedule);
            SkippedAsExisting(sys.store, ProductCandidate(Reverse(maps, |maps|), row))
  {
    var sys := Run(job, Start(job, start), schedule);
    BuiltAssets(bs, cs, ps, job);
    EndOfRun(job, start, schedule);
    FinishedDelivers(job, start, sys);
    FinalLinks(job, start, sys.plans, start.productMedia, order, row.product);
    var rows := LinkPlans(start.productMedia, sys.plans, order, |order|).productMedia[row.product];
    ProductLinksAgree(job, start, sys, maps, rows, row);
  }

  // ---------------------------------------------------------------- single links

  function LinkOf(store: Store, kind: Kind, target: Id): Option<MediaId>
  {
    match kind
    case CatalogLogo => if target in store.logos then Some(store.logos[target]) else None
    case CatalogBackground => if target in store.backgrounds then Some(store.backgrounds[target]) else None
    case CategoryImage => if target in store.categoryImages then Some(store.categoryImages[target]) else None
    case ProductImage => None
  }

  /** The asset writes a single link: a logo, a background, or the image of a
      category that is still there. */
  ghost predicate Single(job: Job, start: Store, i: nat, target: Id)
  {
    && i < |job.assets| && !job.assets[i].kind.ProductImage?
    && Resolve(job.assets[i], job.targets).Some? && Resolve(job.assets[i], job.targets).value.target == target
    && (job.assets[i].kind.CategoryImage? ==> target in start.categories)
  }

  /** No two assets of a kind write the same link. */
  ghost predicate OneWriter(job: Job, start: Store)
  {
    forall i: nat, j: nat, t: Id :: Single(job, start, i, t) && Single(job, start, j, t) ==>
      job.assets[i].kind != job.assets[j].kind || i == j
  }

  /** Injective entity maps leave each link a single writer. */
  lemma InjectiveMeansOneWriter(job: Job, start: Store)
    requires DistinctAssets(job) && AllWellNamed(job)
    requires InjectiveTargets(job.targets.businesses) && InjectiveTargets(job.targets.categories)
    ensures OneWriter(job, start)
  {
  }

  ghost predicate LinkWritten(job: Job, start: Store, sys: Sys, i: nat, target: Id)
    requires |sys.tasks| == |job.assets|
  {
    Single(job, start, i, target) && sys.tasks[i].Done? && Outcome(job, start, i).Some? ==>
      LinkOf(sys.store, job.assets[i].kind, target) == Outcome(job, start, i)
  }

  ghost predicate LinksWritten(job: Job, start: Store, sys: Sys)
  {
    && |sys.tasks| == |job.assets| && sys.store.categories == start.categories
    && forall i: nat, t: Id :: LinkWritten(job, start, sys, i, t)
  }

  lemma LinkAssetSpares(store: Store, a: Asset, target: Id, m: MediaId, kind: Kind, t: Id)
    requires a.kind != kind || target != t
    ensures LinkOf(LinkAsset(store, a, target, m), kind, t) == LinkOf(store, kind, t)
  {
  }

  lemma StepSparesLink(job: Job, start: Store, store: Store, i: nat, task: Task, j: nat, t: Id)
    requires OneWriter(job, start) && i < |job.assets| && i != j && Single(job, start, j, t)
    ensures LinkOf(NextStore(job, store, i, task), job.assets[j].kind, t) == LinkOf(store, job.assets[j].kind, t)
  {
    var a, kind := job.assets[i], job.assets[j].kind;
    var place := Resolve(a, job.targets);
    if task.Ready? && place.Some? {
      assert a.kind == kind && place.value.target == t ==> Single(job, start, i, t);
      LinkAssetSpares(store, a, place.value.target, task.media, kind, t);
    }
  }

  lemma StepKeepsLink(job: Job, start: Store, sys: Sys, i: nat, j: nat, t: Id)
    requires Consistent(job, start, sys) && LinksWritten(job, start, sys) && OneWriter(job, start) && i < |job.assets|
    ensures LinkWritten(job, start, Step(job, sys, i), j, t)
  {
    assert LinkWritten(job, start, sys, j, t);
    if Single(job, start, j, t) {
      if i != j {
        StepSparesLink(job, start, sys.store, i, sys.tasks[i], j, t);
      } else {
        OwnStepKeepsLink(job, start, sys, i, t);
      }
    }
  }

  lemma OwnStepKeepsLink(job: Job, start: Store, sys: Sys, i: nat, t: Id)
    requires Consistent(job, start, sys) && LinksWritten(job, start, sys) && Single(job, start, i, t)
    ensures LinkWritten(job, start, Step(job, sys, i), i, t)
  {
    var task := sys.tasks[i];
    assert TaskOk(job, start, sys.store, i, task);
    assert LinkWritten(job, start, sys, i, t);
  }

  /** A category that is gone gets no image. */
  lemma {:induction false} GoneCategoriesStayBare(job: Job, sys: Sys, schedule: Schedule, t: Id)
    requires |sys.tasks| == |job.assets| && ScheduleOf(job, schedule) && t !in sys.store.categories
    ensures LinkOf(Run(job, sys, schedule).store, CategoryImage, t) == LinkOf(sys.store, CategoryImage, t)
    decreases |schedule|
  {
    if schedule != [] {
      GoneCategoryStep(job, sys.store, schedule[0], sys.tasks[schedule[0]], t);
      GoneCategoriesStayBare(job, Step(job, sys, schedule[0]), schedule[1..], t);
    }
  }

  lemma GoneCategoryStep(job: Job, store: Store, i: nat, task: Task, t: Id)
    requires i < |job.assets| && t !in store.categories
    ensures var next := NextStore(job, store, i, task);
            next.categories == store.categories && LinkOf(next, CategoryImage, t) == LinkOf(store, CategoryImage, t)
  {
    var a := job.assets[i];
    var place := Resolve(a, job.targets);
    if place.Some? && task.Importing? && job.fetch(a.legacyId).Some? {
      PersistSparesImages(store, a, KeyOf(a, place.value, job.fetch(a.legacyId).value), t);
    } else if place.Some? && task.Ready? {
      GoneCategoryLink(store, a, place.value.target, task.media, t);
    }
  }

  lemma PersistSparesImages(store: Store, a: Asset, key: MediaKey, t: Id)
    ensures var next := Persist(store, a, key);
            next.categories == store.categories && LinkOf(next, CategoryImage, t) == LinkOf(store, CategoryImage, t)
  {
  }

  lemma GoneCategoryLink(store: Store, a: Asset, target: Id, m: MediaId, t: Id)
    requires t !in store.categories
    ensures var next := LinkAsset(store, a, target, m);
            next.categories == store.categories && LinkOf(next, CategoryImage, t) == LinkOf(store, CategoryImage, t)
  {
  }

  lemma {:induction false} RunWritesLinks(job: Job, start: Store, sys: Sys, schedule: Schedule)
    requires DistinctAssets(job) && FreshStart(start) && OneWriter(job, start) && ScheduleOf(job, schedule)
    requires Consistent(job, start, sys) && LinksWritten(job, start, sys)
    ensures LinksWritten(job, start, Run(job, sys, schedule))
    decreases |schedule|
  {
    if schedule != [] {
      var next := Step(job, sys, schedule[0]);
      StepStaysConsistent(job, start, sys, schedule[0]);
      forall j: nat, t: Id
        ensures LinkWritten(job, start, next, j, t)
      {
        StepKeepsLink(job, start, sys, schedule[0], j, t);
      }
      RunWritesLinks(job, start, next, schedule[1..]);
    }
  }

  lemma SingleLinkMapped(job: Job, start: Store, sys: Sys, i: nat, target: Id)
    requires Finished(job, start, sys) && LinksWritten(job, start, sys)
    requires Single(job, start, i, target) && Outcome(job, start, i).Some?
    ensures var m := Outcome(job, start, i).value;
            && LinkOf(sys.store, job.assets[i].kind, target) == Some(m)
            && Backfill.Resolve(sys.store.media, sys.store.maps, Backfill.Candidate(job.assets[i].legacyId, m)) == Backfill.SkipExisting
  {
    assert LinkWritten(job, start, sys, i, target);
    assert TaskOk(job, start, sys.store, i, sys.tasks[i]);
  }

  /** What the collectors read off the row that holds the link. */
  function SingleCandidate(store: Store, kind: Kind, target: Id, businesses: seq<EntityMap>, categories: seq<EntityMap>)
    : Option<Backfill.Candidate>
  {
    var m := LinkOf(store, kind, target);
    match kind
    case CatalogLogo => LogoCandidate(Reverse(businesses, |businesses|), CatalogConfig(target, m, None))
    case CatalogBackground => BackgroundCandidate(Reverse(businesses, |businesses|), CatalogConfig(target, None, m))
    case CategoryImage => CategoryCandidate(Reverse(categories, |categories|), CategoryRow(target, m))
    case ProductImage => None
  }

  /** Likewise for logos, backgrounds and category images. */
  lemma SingleLinksAgree(job: Job, start: Store, sys: Sys, businesses: seq<EntityMap>, categories: seq<EntityMap>,
                         i: nat, target: Id)
    requires Finished(job, start, sys) && LinksWritten(job, start, sys) && AllWellNamed(job)
    requires LoadedFrom(job.targets.businesses, businesses) && InjectiveRows(businesses)
    requires LoadedFrom(job.targets.categories, categories) && InjectiveRows(categories)
    requires Single(job, start, i, target) && Outcome(job, start, i).Some?
    ensures SkippedAsExisting(sys.store, SingleCandidate(sys.store, job.assets[i].kind, target, businesses, categories))
  {
    var a := job.assets[i];
    assert WellNamed(a);
    SingleLinkMapped(job, start, sys, i, target);
    if a.kind.CategoryImage? {
      LegacyIdFound(job.targets.categories, categories, a.entity);
    } else {
      LegacyIdFound(job.targets.businesses, businesses, a.entity);
    }
  }

  /** The whole pipeline for a single link: with injective entity maps, the link
      that stands after any schedule is the one its asset came to, and the
      backfill's candidate for it is skipped as existing. */
  lemma ImportThenBackfillSingle(bs: seq<Business>, cs: seq<LegacyCategory>, ps: seq<LegacyProduct>, job: Job, start: Store,
                                 schedule: Schedule, businesses: seq<EntityMap>, categories: seq<EntityMap>, i: nat, target: Id)
    requires DistinctBusinesses(bs) && DistinctCategories(cs) && DistinctProducts(ps) && job.assets == AllAssets(bs, cs, ps)
    requires FreshStart(start) && ScheduleOf(job, schedule) && AllDone(Run(job, Start(job, start), schedule))
    requires LoadedFrom(job.targets.businesses, businesses) && InjectiveRows(businesses)
    requires LoadedFrom(job.targets.categories, categories) && InjectiveRows(categories)
    requires Single(job, start, i, target) && Outcome(job, start, i).Some?
    ensures var sys := Run(job, Start(job, start), schedule);
            && LinkOf(sys.store, job.assets[i].kind, target) == Outcome(job, start, i)
            && SkippedAsExisting(sys.store, SingleCandidate(sys.store, job.assets[i].kind, target, businesses, categories))
  {
    BuiltAssets(bs, cs, ps, job);
    InjectiveMeansOneWriter(job, start);
    StartIsConsistent(job, start);
    RunWritesLinks(job, start, Start(job, start), schedule);
    EndOfRun(job, start, schedule);
    var sys := Run(job, Start(job, start), schedule);
    SingleLinkMapped(job, start, sys, i, target);
    SingleLinksAgree(job, start, sys, businesses, categories, i, target);
  }
}
