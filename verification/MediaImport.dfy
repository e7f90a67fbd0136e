/** The concurrent media import: one task per asset, interleaved at every
    database call, then one link transaction per product. */
module MediaImport {
  import opened Basics
  import opened MediaStore

  datatype Kind = CatalogLogo | CatalogBackground | CategoryImage | ProductImage

  datatype Asset = Asset(legacyId: string, kind: Kind, business: string, entity: string, position: nat)

  /** Targets of the legacy entities, by legacy id. */
  datatype Targets = Targets(businesses: map<string, Id>, categories: map<string, Id>, products: map<string, Id>)

  datatype Place = Place(catalog: Id, target: Id)

  /** A downloaded file: the hash of its url and its extension. */
  datatype File = File(hash: string, extension: string)

  /** What a run is given: the assets, the targets, and for each legacy id
      whether its url is usable and what importing it yields (None: it fails). */
  datatype Job = Job(assets: seq<Asset>, targets: Targets, usable: string -> bool, fetch: string -> Option<File>)

  /** `rows` is the media table by its unique key, `media` the ids in it. */
  datatype Store = Store(rows: map<MediaKey, MediaId>, media: set<MediaId>, maps: MediaMaps,
                         logos: map<Id, MediaId>, backgrounds: map<Id, MediaId>,
                         categories: set<Id>, categoryImages: map<Id, MediaId>,
                         productMedia: map<Id, map<MediaId, nat>>)

  datatype Task = Waiting | LookedUp(found: Option<MediaId>) | Importing | Ready(media: MediaId) | Done

  /** An entry of a product's plan; `asset` records which task pushed it. */
  datatype Item = Item(asset: nat, media: MediaId, position: nat)
  datatype Plan = Plan(items: seq<Item>, failures: nat)
  type Plans = map<Id, Plan>

  datatype Sys = Sys(store: Store, plans: Plans, tasks: seq<Task>)

  // ---------------------------------------------------------------- pure parts

  /** `resolveLegacyMediaAsset` */
  function Resolve(a: Asset, t: Targets): Option<Place>
  {
    if a.business !in t.businesses then None
    else match a.kind
      case CategoryImage =>
        if a.entity in t.categories then Some(Place(t.businesses[a.business], t.categories[a.entity])) else None
      case ProductImage =>
        if a.entity in t.products then Some(Place(t.businesses[a.business], t.products[a.entity])) else None
      case _ => Some(Place(t.businesses[a.business], t.businesses[a.business]))
  }

  function PathOf(kind: Kind): string
  {
    match kind
    case CatalogLogo => "branding/logo"
    case CatalogBackground => "branding/bg"
    case CategoryImage => "categories"
    case ProductImage => "products"
  }

  /** `buildRawKey`, with the unique key's catalog. */
  function KeyOf(a: Asset, place: Place, file: File): MediaKey
  {
    MediaKey(place.catalog, PathOf(a.kind), place.target,
             if a.kind.ProductImage? then FileName(a.position, file.hash, file.extension)
             else file.hash + "." + file.extension)
  }

  /** The asset is an image of target product p. */
  predicate ImageOf(job: Job, i: nat, p: Id)
  {
    && i < |job.assets| && job.assets[i].kind.ProductImage?
    && Resolve(job.assets[i], job.targets).Some? && Resolve(job.assets[i], job.targets).value.target == p
  }

  function Lookup(maps: MediaMaps, id: string): Option<MediaId>
  {
    if id in maps then Some(maps[id]) else None
  }

  function RowId(rows: map<MediaKey, MediaId>, key: MediaKey): MediaId
  {
    if key in rows then rows[key] else Created(key)
  }

  /** The media upsert and the map upsert of one import transaction. */
  function Persist(store: Store, a: Asset, key: MediaKey): Store
  {
    var id := RowId(store.rows, key);
    store.(rows := store.rows[key := id], media := store.media + {id}, maps := store.maps[a.legacyId := id])
  }

  function LinkAsset(store: Store, a: Asset, target: Id, id: MediaId): Store
  {
    match a.kind
    case CatalogLogo => store.(logos := store.logos[target := id])
    case CatalogBackground => store.(backgrounds := store.backgrounds[target := id])
    case CategoryImage =>
      if target in store.categories then store.(categoryImages := store.categoryImages[target := id]) else store
    case ProductImage => store
  }

  // ---------------------------------------------------------------- one step of one task

  predicate Accepted(job: Job, i: nat)
    requires i < |job.assets|
  {
    Resolve(job.assets[i], job.targets).Some? && job.usable(job.assets[i].legacyId)
  }

  function NextTask(job: Job, store: Store, i: nat, task: Task): Task
    requires i < |job.assets|
  {
    match task
    case Waiting => if Accepted(job, i) then LookedUp(Lookup(store.maps, job.assets[i].legacyId)) else Done
    case LookedUp(found) => if found.Some? && found.value in store.media then Ready(found.value) else Importing
    case Importing =>
      var file := job.fetch(job.assets[i].legacyId);
      var place := Resolve(job.assets[i], job.targets);
      if file.None? || place.None? then Done else Ready(RowId(store.rows, KeyOf(job.assets[i], place.value, file.value)))
    case _ => Done
  }

  function NextStore(job: Job, store: Store, i: nat, task: Task): Store
    requires i < |job.assets|
  {
    var a := job.assets[i];
    var place := Resolve(a, job.targets);
    if place.None? then store
    else if task.Importing? && job.fetch(a.legacyId).Some?
    then Persist(store, a, KeyOf(a, place.value, job.fetch(a.legacyId).value))
    else if task.Ready? then LinkAsset(store, a, place.value.target, task.media)
    else store
  }

  /** A task that ends without media. */
  predicate Fails(job: Job, i: nat, task: Task)
    requires i < |job.assets|
  {
    || (task.Waiting? && !Accepted(job, i))
    || (task.Importing? && job.fetch(job.assets[i].legacyId).None?)
  }

  function NextPlan(job: Job, plan: Plan, i: nat, task: Task): Plan
    requires i < |job.assets|
  {
    if task.Ready? then plan.(items := plan.items + [Item(i, task.media, job.assets[i].position)])
    else if Fails(job, i, task) then plan.(failures := plan.failures + 1)
    else plan
  }

  function NextPlans(job: Job, plans: Plans, i: nat, task: Task): Plans
    requires i < |job.assets|
  {
    map p | p in plans :: if ImageOf(job, i, p) then NextPlan(job, plans[p], i, task) else plans[p]
  }

  function Step(job: Job, sys: Sys, i: nat): Sys
    requires i < |job.assets| && |sys.tasks| == |job.assets|
  {
    Sys(NextStore(job, sys.store, i, sys.tasks[i]),
        NextPlans(job, sys.plans, i, sys.tasks[i]),
        sys.tasks[i := NextTask(job, sys.store, i, sys.tasks[i])])
  }

  /** Plans exist from the start, so tasks never overwrite each other's entry. */
  function InitialPlans(job: Job): Plans
  {
    map i | 0 <= i < |job.assets| && job.assets[i].kind.ProductImage? && Resolve(job.assets[i], job.targets).Some?
      :: Resolve(job.assets[i], job.targets).value.target := Plan([], 0)
  }

  function Start(job: Job, store: Store): Sys
  {
    Sys(store, InitialPlans(job), seq(|job.assets|, _ => Waiting))
  }

  /** An interleaving: which task makes the next step. */
  type Schedule = seq<nat>

  ghost predicate ScheduleOf(job: Job, schedule: Schedule)
  {
    forall k :: 0 <= k < |schedule| ==> schedule[k] < |job.assets|
  }

  function Run(job: Job, sys: Sys, schedule: Schedule): (r: Sys)
    requires |sys.tasks| == |job.assets| && forall k :: 0 <= k < |schedule| ==> schedule[k] < |job.assets|
    ensures |r.tasks| == |job.assets|
    decreases |schedule|
  {
    if schedule == [] then sys else Run(job, Step(job, sys, schedule[0]), schedule[1..])
  }

  ghost predicate AllDone(sys: Sys)
  {
    forall i :: 0 <= i < |sys.tasks| ==> sys.tasks[i] == Done
  }

  // ---------------------------------------------------------------- what an asset comes to

  /** Media that an earlier import already made for this asset. */
  function Reusable(job: Job, store: Store, i: nat): Option<MediaId>
    requires i < |job.assets|
  {
    var found := Lookup(store.maps, job.assets[i].legacyId);
    if found.Some? && found.value in store.media then found else None
  }

  /** The media of asset i, from the store the run started on: no schedule in sight. */
  function Outcome(job: Job, start: Store, i: nat): Option<MediaId>
    requires i < |job.assets|
  {
    if !Accepted(job, i) then None
    else if Reusable(job, start, i).Some? then Reusable(job, start, i)
    else
      var file := job.fetch(job.assets[i].legacyId);
      if file.None? then None
      else Some(RowId(start.rows, KeyOf(job.assets[i], Resolve(job.assets[i], job.targets).value, file.value)))
  }

  /** Distinct assets have distinct legacy ids. */
  ghost predicate DistinctAssets(job: Job)
  {
    forall i, j :: 0 <= i < j < |job.assets| ==> job.assets[i].legacyId != job.assets[j].legacyId
  }

  /** Nothing in the start store refers to a row the import will create. */
  ghost predicate FreshStart(start: Store)
  {
    && (forall m :: m in start.media && m.Created? ==> m.key in start.rows)
    && (forall id :: id in start.maps && start.maps[id].Created? ==> start.maps[id].key in start.rows)
    && (forall key :: key in start.rows ==> start.rows[key] in start.media)
  }
}
