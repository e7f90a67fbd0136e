/** Import, then backfill, as the tools run: the backfill collects candidates
    from all link rows, deduplicates them and resolves each after the earlier
    ones were applied. */
module MediaPipeline {
  import opened Basics
  import opened MediaStore
  import opened MediaImport
  import opened MediaImportLaws
  import opened MediaLinking
  import opened MediaAssets
  import opened MediaClashes
  import opened MediaAgreement
  import Backfill = MediaMapBackfill

  type Candidates = seq<Backfill.Candidate>

  /** Entity maps of the three kinds, as the backfill reads them. */
  datatype Maps = Maps(businesses: seq<EntityMap>, categories: seq<EntityMap>, products: seq<EntityMap>)

  datatype Source = FromConfig(config: CatalogConfig) | FromCategory(category: CategoryRow) | FromProduct(link: ProductRow)

  function ReverseOf(rows: seq<EntityMap>): map<Id, string>
  {
    Reverse(rows, |rows|)
  }

  function Listed(c: Option<Backfill.Candidate>): Candidates
  {
    if c.Some? then [c.value] else []
  }

  function CandidatesOf(maps: Maps, source: Source): Candidates
  {
    match source
    case FromConfig(row) =>
      Listed(LogoCandidate(ReverseOf(maps.businesses), row)) + Listed(BackgroundCandidate(ReverseOf(maps.businesses), row))
    case FromCategory(row) => Listed(CategoryCandidate(ReverseOf(maps.categories), row))
    case FromProduct(row) => Listed(ProductCandidate(ReverseOf(maps.products), row))
  }

  function Joined(lists: seq<Candidates>): Candidates
  {
    if lists == [] then [] else Joined(lists[..|lists| - 1]) + lists[|lists| - 1]
  }

  lemma {:induction false} JoinedMembers(lists: seq<Candidates>, x: Backfill.Candidate)
    ensures x in Joined(lists) <==> exists i :: 0 <= i < |lists| && x in lists[i]
    decreases |lists|
  {
    if lists != [] {
      var front, last := lists[..|lists| - 1], lists[|lists| - 1];
      JoinedMembers(front, x);
      assert x in Joined(lists) <==> x in Joined(front) || x in last;
      assert forall i :: 0 <= i < |front| ==> front[i] == lists[i];
    }
  }

  /** The candidates of all rows: configs, categories and product links. */
  function Collected(maps: Maps, sources: seq<Source>): Candidates
  {
    Joined(seq(|sources|, i requires 0 <= i < |sources| => CandidatesOf(maps, sources[i])))
  }

  ghost predicate Contributes(maps: Maps, sources: seq<Source>, i: nat, c: Backfill.Candidate)
  {
    i < |sources| && c in CandidatesOf(maps, sources[i])
  }

  lemma CollectedFrom(maps: Maps, sources: seq<Source>, c: Backfill.Candidate)
    ensures c in Collected(maps, sources) <==> exists i: nat :: Contributes(maps, sources, i, c)
  {
    var lists := seq(|sources|, i requires 0 <= i < |sources| => CandidatesOf(maps, sources[i]));
    JoinedMembers(lists, c);
    if i: nat :| Contributes(maps, sources, i, c) {
      assert c in lists[i];
    }
    if i :| 0 <= i < |lists| && c in lists[i] {
      assert Contributes(maps, sources, i, c);
    }
  }

  // ---------------------------------------------------------------- in its turn

  /** All candidates for the legacy id are the same one. */
  ghost predicate Uncontested(cs: Candidates, c: Backfill.Candidate)
  {
    forall x :: x in cs && x.legacyId == c.legacyId ==> x == c
  }

  lemma {:induction false} UncontestedIsKept(cs: Candidates, n: nat, c: Backfill.Candidate)
    requires n <= |cs| && c in cs[..n] && Uncontested(cs, c)
    ensures c in Backfill.Firsts(cs, n)
    decreases n
  {
    assert cs[..n] == cs[..n - 1] + [cs[n - 1]];
    if c in cs[..n - 1] {
      UncontestedIsKept(cs, n - 1, c);
    } else {
      forall i | 0 <= i < n - 1
        ensures cs[i].legacyId != c.legacyId
      {
        assert cs[..n - 1][i] == cs[i];
      }
    }
  }

  /** Kept by the deduplication, and skipped as existing when its turn comes. */
  ghost predicate SkippedInTurn(store: Store, collected: Candidates, c: Backfill.Candidate)
  {
    var cs := Backfill.Firsts(collected, |collected|);
    exists k :: 0 <= k < |cs| && cs[k] == c
                && Backfill.Resolve(store.media, Backfill.AppliedMaps(store.media, store.maps, cs, k), c) == Backfill.SkipExisting
  }

  lemma ExistingStaysExisting(store: Store, cs: Candidates, k: nat)
    requires k < |cs| && Backfill.Resolve(store.media, store.maps, cs[k]) == Backfill.SkipExisting
    ensures Backfill.Resolve(store.media, Backfill.AppliedMaps(store.media, store.maps, cs, k), cs[k]) == Backfill.SkipExisting
  {
    Backfill.ValidMapsAreKept(store.media, store.maps, cs, k, cs[k].legacyId);
  }

  lemma UncontestedIsSkipped(store: Store, collected: Candidates, c: Backfill.Candidate)
    requires c in collected && Uncontested(collected, c)
    requires Backfill.Resolve(store.media, store.maps, c) == Backfill.SkipExisting
    ensures SkippedInTurn(store, collected, c)
  {
    assert collected[..|collected|] == collected;
    UncontestedIsKept(collected, |collected|, c);
    var cs := Backfill.Firsts(collected, |collected|);
    var k :| 0 <= k < |cs| && cs[k] == c;
    ExistingStaysExisting(store, cs, k);
  }

  // ---------------------------------------------------------------- nobody else claims the legacy id

  /** (source, entity, legacyId) is unique. */
  ghost predicate UniqueLegacyIds(rows: seq<EntityMap>)
  {
    forall i, j :: 0 <= i < |rows| && 0 <= j < |rows| && rows[i].legacyId == rows[j].legacyId ==> rows[i].target == rows[j].target
  }

  lemma {:induction false} ReverseComesFrom(rows: seq<EntityMap>, n: nat, p: Id)
    requires n <= |rows| && p in Reverse(rows, n)
    ensures exists k :: 0 <= k < n && rows[k] == EntityMap(Reverse(rows, n)[p], p)
    decreases n
  {
    if rows[n - 1].target != p {
      ReverseComesFrom(rows, n - 1, p);
    } else {
      assert rows[n - 1] == EntityMap(Reverse(rows, n)[p], p);
    }
  }

  lemma ReverseIsOneToOne(rows: seq<EntityMap>, p: Id, q: Id)
    requires UniqueLegacyIds(rows) && p in ReverseOf(rows) && q in ReverseOf(rows) && ReverseOf(rows)[p] == ReverseOf(rows)[q]
    ensures p == q
  {
    ReverseComesFrom(rows, |rows|, p);
    ReverseComesFrom(rows, |rows|, q);
  }

  ghost predicate UniqueMaps(maps: Maps)
  {
    UniqueLegacyIds(maps.businesses) && UniqueLegacyIds(maps.categories) && UniqueLegacyIds(maps.products)
  }

  /** The rows read are rows of the tables. */
  ghost predicate ReadFrom(store: Store, pm: ProductMedia, source: Source)
  {
    match source
    case FromConfig(row) =>
      row.logo == LinkOf(store, CatalogLogo, row.catalog) && row.background == LinkOf(store, CatalogBackground, row.catalog)
    case FromCategory(row) => row.image == LinkOf(store, CategoryImage, row.category)
    case FromProduct(row) => row.product in pm && row.media in pm[row.product] && pm[row.product][row.media] == row.position
  }

  ghost predicate AllRead(store: Store, pm: ProductMedia, sources: seq<Source>)
  {
    forall i :: 0 <= i < |sources| ==> ReadFrom(store, pm, sources[i])
  }

  /** What a candidate's legacy id says about the row it was read from. */
  ghost predicate Spells(maps: Maps, source: Source, c: Backfill.Candidate)
  {
    match source
    case FromConfig(row) =>
      && row.catalog in ReverseOf(maps.businesses)
      && ((c.legacyId == LogoId(ReverseOf(maps.businesses)[row.catalog]) && row.logo == Some(c.target))
          || (c.legacyId == BackgroundId(ReverseOf(maps.businesses)[row.catalog]) && row.background == Some(c.target)))
    case FromCategory(row) =>
      && row.category in ReverseOf(maps.categories)
      && c.legacyId == CategoryImageId(ReverseOf(maps.categories)[row.category]) && row.image == Some(c.target)
    case FromProduct(row) =>
      && row.product in ReverseOf(maps.products)
      && c.legacyId == ProductImageId(ReverseOf(maps.products)[row.product], row.position + 1) && row.media == c.target
  }

  lemma CandidateSpells(maps: Maps, source: Source, c: Backfill.Candidate)
    requires c in CandidatesOf(maps, source)
    ensures Spells(maps, source, c)
  {
  }

  /** At most one media per position of the product. */
  ghost predicate OnePerPosition(pm: ProductMedia, p: Id)
  {
    p in pm ==> forall m, m' :: m in pm[p] && m' in pm[p] && pm[p][m] == pm[p][m'] ==> m == m'
  }

  lemma SameProductImage(maps: Maps, store: Store, pm: ProductMedia, x: ProductRow, y: ProductRow, a: Backfill.Candidate, b: Backfill.Candidate)
    requires UniqueMaps(maps) && OnePerPosition(pm, x.product)
    requires ReadFrom(store, pm, FromProduct(x)) && ReadFrom(store, pm, FromProduct(y))
    requires Spells(maps, FromProduct(x), a) && Spells(maps, FromProduct(y), b) && a.legacyId == b.legacyId
    ensures a == b
  {
    var r := ReverseOf(maps.products);
    ProductImageIdInjective(r[x.product], x.position + 1, r[y.product], y.position + 1);
    ReverseIsOneToOne(maps.products, x.product, y.product);
  }

  lemma SameCategoryImage(maps: Maps, store: Store, pm: ProductMedia, x: CategoryRow, y: CategoryRow, a: Backfill.Candidate, b: Backfill.Candidate)
    requires UniqueMaps(maps) && ReadFrom(store, pm, FromCategory(x)) && ReadFrom(store, pm, FromCategory(y))
    requires Spells(maps, FromCategory(x), a) && Spells(maps, FromCategory(y), b) && a.legacyId == b.legacyId
    ensures a == b
  {
    var r := ReverseOf(maps.categories);
    CategoryImageIdInjective(r[x.category], r[y.category]);
    ReverseIsOneToOne(maps.categories, x.category, y.category);
  }

  lemma SameCatalogImage(maps: Maps, store: Store, pm: ProductMedia, x: CatalogConfig, y: CatalogConfig, a: Backfill.Candidate, b: Backfill.Candidate)
    requires UniqueMaps(maps) && ReadFrom(store, pm, FromConfig(x)) && ReadFrom(store, pm, FromConfig(y))
    requires Spells(maps, FromConfig(x), a) && Spells(maps, FromConfig(y), b) && a.legacyId == b.legacyId
    ensures a == b
  {
    var u, v := ReverseOf(maps.businesses)[x.catalog], ReverseOf(maps.businesses)[y.catalog];
    KindsApart(u, v, 0);
    KindsApart(v, u, 0);
    if a.legacyId == LogoId(u) {
      LogoIdInjective(u, v);
    } else {
      BackgroundIdInjective(u, v);
    }
    ReverseIsOneToOne(maps.businesses, x.catalog, y.catalog);
    KindsApart(u, u, 0);
  }

  function Initial(source: Source): char
  {
    match source case FromConfig(_) => 'b' case FromCategory(_) => 'c' case FromProduct(_) => 'p'
  }

  lemma InitialShows(maps: Maps, source: Source, c: Backfill.Candidate)
    requires Spells(maps, source, c)
    ensures c.legacyId != [] && c.legacyId[0] == Initial(source)
  {
  }

  lemma SameCandidate(maps: Maps, store: Store, pm: ProductMedia, x: Source, y: Source, a: Backfill.Candidate, b: Backfill.Candidate)
    requires UniqueMaps(maps) && ReadFrom(store, pm, x) && ReadFrom(store, pm, y)
    requires Spells(maps, x, a) && Spells(maps, y, b) && a.legacyId == b.legacyId
    requires x.FromProduct? ==> OnePerPosition(pm, x.link.product)
    ensures a == b
  {
    InitialShows(maps, x, a);
    InitialShows(maps, y, b);
    match x
    case FromConfig(row) => SameCatalogImage(maps, store, pm, row, y.config, a, b);
    case FromCategory(row) => SameCategoryImage(maps, store, pm, row, y.category, a, b);
    case FromProduct(row) => SameProductImage(maps, store, pm, row, y.link, a, b);
  }

  /** A candidate that resolves to skip-existing on the store keeps doing so in
      the middle of apply, and deduplication does not replace it. */
  lemma CollectedIsSkipped(maps: Maps, store: Store, pm: ProductMedia, sources: seq<Source>, i: nat, c: Backfill.Candidate)
    requires UniqueMaps(maps) && AllRead(store, pm, sources) && i < |sources| && c in CandidatesOf(maps, sources[i])
    requires sources[i].FromProduct? ==> OnePerPosition(pm, sources[i].link.product)
    requires Backfill.Resolve(store.media, store.maps, c) == Backfill.SkipExisting
    ensures SkippedInTurn(store, Collected(maps, sources), c)
  {
    var collected := Collected(maps, sources);
    CollectedFrom(maps, sources, c);
    assert Contributes(maps, sources, i, c);
    forall x | x in collected && x.legacyId == c.legacyId
      ensures x == c
    {
      CollectedFrom(maps, sources, x);
      var j: nat :| Contributes(maps, sources, j, x);
      CandidateSpells(maps, sources[i], c);
      CandidateSpells(maps, sources[j], x);
      SameCandidate(maps, store, pm, sources[i], sources[j], c, x);
    }
    UncontestedIsSkipped(store, collected, c);
  }

  // ---------------------------------------------------------------- the whole pipeline

  lemma RowsOnePerPosition(job: Job, start: Store, pm: ProductMedia, p: Id)
    requires DistinctPositions(job, p) && p in pm && RowsOf(job, start, p, pm[p])
    ensures OnePerPosition(pm, p)
  {
    forall m, m' | m in pm[p] && m' in pm[p] && pm[p][m] == pm[p][m']
      ensures m == m'
    {
      var i := ImageBehind(job, start, pm[p], ProductRow(p, m, pm[p][m]));
      var j := ImageBehind(job, start, pm[p], ProductRow(p, m', pm[p][m']));
    }
  }

  /** The import ran to its end from distinct legacy rows over injective maps. */
  ghost predicate Imported(bs: seq<Business>, cs: seq<LegacyCategory>, ps: seq<LegacyProduct>, job: Job, start: Store,
                           schedule: Schedule, maps: Maps)
  {
    && DistinctBusinesses(bs) && DistinctCategories(cs) && DistinctProducts(ps) && job.assets == AllAssets(bs, cs, ps)
    && FreshStart(start) && ScheduleOf(job, schedule) && AllDone(Run(job, Start(job, start), schedule))
    && LoadedFrom(job.targets.businesses, maps.businesses) && InjectiveRows(maps.businesses)
    && LoadedFrom(job.targets.categories, maps.categories) && InjectiveRows(maps.categories)
    && LoadedFrom(job.targets.products, maps.products) && InjectiveRows(maps.products)
    && UniqueMaps(maps)
  }

  ghost predicate LinkedInto(job: Job, start: Store, schedule: Schedule, order: seq<Id>, pm: ProductMedia)
    requires ScheduleOf(job, schedule)
  {
    && DistinctOrder(InitialPlans(job), order)
    && LinkPlans(start.productMedia, Run(job, Start(job, start), schedule).plans, order, |order|) == Linked(pm)
  }

  /** Every link of a product that the import linked is collected, kept by the
      deduplication and skipped as existing in its turn. */
  lemma ProductLinkSkippedInTurn(bs: seq<Business>, cs: seq<LegacyCategory>, ps: seq<LegacyProduct>, job: Job, start: Store,
                                 schedule: Schedule, order: seq<Id>, maps: Maps, pm: ProductMedia, sources: seq<Source>, i: nat)
    requires Imported(bs, cs, ps, job, start, schedule, maps) && LinkedInto(job, start, schedule, order, pm)
    requires AllRead(Run(job, Start(job, start), schedule).store, pm, sources) && i < |sources| && sources[i].FromProduct?
    requires sources[i].link.product in order && AnyWanted(job, start, sources[i].link.product)
    ensures var c := ProductCandidate(ReverseOf(maps.products), sources[i].link);
            c.Some? && SkippedInTurn(Run(job, Start(job, start), schedule).store, Collected(maps, sources), c.value)
  {
    var sys, row := Run(job, Start(job, start), schedule), sources[i].link;
    assert ReadFrom(sys.store, pm, sources[i]);
    ImportThenBackfill(bs, cs, ps, job, start, schedule, order, maps.products, row);
    BuiltAssets(bs, cs, ps, job);
    InjectiveNumbersApart(job, row.product);
    LinksOfRun(job, start, schedule, order, row.product);
    RowsOnePerPosition(job, start, pm, row.product);
    var c := ProductCandidate(ReverseOf(maps.products), row).value;
    assert CandidatesOf(maps, sources[i]) == [c];
    CollectedIsSkipped(maps, sys.store, pm, sources, i, c);
  }

  /** The source that holds a single link. */
  ghost predicate Holds(source: Source, kind: Kind, target: Id)
  {
    match kind
    case CatalogLogo => source.FromConfig? && source.config.catalog == target
    case CatalogBackground => source.FromConfig? && source.config.catalog == target
    case CategoryImage => source.FromCategory? && source.category.category == target
    case ProductImage => false
  }

  lemma SingleIsCollected(maps: Maps, store: Store, pm: ProductMedia, source: Source, kind: Kind, target: Id)
    requires Holds(source, kind, target) && ReadFrom(store, pm, source)
    requires SingleCandidate(store, kind, target, maps.businesses, maps.categories).Some?
    ensures SingleCandidate(store, kind, target, maps.businesses, maps.categories).value in CandidatesOf(maps, source)
  {
  }

  /** Likewise for the logo, background or image that an asset wrote. */
  lemma SingleLinkSkippedInTurn(bs: seq<Business>, cs: seq<LegacyCategory>, ps: seq<LegacyProduct>, job: Job, start: Store,
                                schedule: Schedule, maps: Maps, pm: ProductMedia, sources: seq<Source>, i: nat,
                                asset: nat, target: Id)
    requires Imported(bs, cs, ps, job, start, schedule, maps)
    requires AllRead(Run(job, Start(job, start), schedule).store, pm, sources) && i < |sources|
    requires Single(job, start, asset, target) && Outcome(job, start, asset).Some?
    requires Holds(sources[i], job.assets[asset].kind, target)
    ensures var store := Run(job, Start(job, start), schedule).store;
            var c := SingleCandidate(store, job.assets[asset].kind, target, maps.businesses, maps.categories);
            c.Some? && SkippedInTurn(store, Collected(maps, sources), c.value)
  {
    var store, kind := Run(job, Start(job, start), schedule).store, job.assets[asset].kind;
    ImportThenBackfillSingle(bs, cs, ps, job, start, schedule, maps.businesses, maps.categories, asset, target);
    assert ReadFrom(store, pm, sources[i]);
    SingleIsCollected(maps, store, pm, sources[i], kind, target);
    var c := SingleCandidate(store, kind, target, maps.businesses, maps.categories).value;
    CollectedIsSkipped(maps, store, pm, sources, i, c);
  }
}
