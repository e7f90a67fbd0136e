/** Every interleaving of the import tasks ends in the same links. */
module MediaImportLaws {
  import opened Basics
  import opened MediaStore
  import opened MediaImport

  // ---------------------------------------------------------------- the invariant

  ghost predicate StoreGrew(start: Store, store: Store)
  {
    && start.media <= store.media
    && (forall m :: m in store.media && m !in start.media ==> m.Created? && m.key !in start.rows)
    && (forall key :: key in start.rows ==> key in store.rows && store.rows[key] == start.rows[key])
    && (forall key :: key in store.rows && key !in start.rows ==> store.rows[key] == Created(key))
    && store.productMedia == start.productMedia
  }

  ghost predicate SameEntry(start: Store, store: Store, id: string)
  {
    Lookup(store.maps, id) == Lookup(start.maps, id)
  }

  ghost predicate Mapped(store: Store, id: string, m: MediaId)
  {
    id in store.maps && store.maps[id] == m && m in store.media
  }

  ghost predicate TaskOk(job: Job, start: Store, store: Store, i: nat, task: Task)
    requires i < |job.assets|
  {
    var id := job.assets[i].legacyId;
    match task
    case Waiting => SameEntry(start, store, id)
    case LookedUp(found) => Accepted(job, i) && SameEntry(start, store, id) && found == Lookup(start.maps, id)
    case Importing => Accepted(job, i) && SameEntry(start, store, id) && Reusable(job, start, i).None?
    case Ready(m) => Accepted(job, i) && Outcome(job, start, i) == Some(m) && Mapped(store, id, m)
    case Done =>
      if Outcome(job, start, i).Some? then Mapped(store, id, Outcome(job, start, i).value) else SameEntry(start, store, id)
  }

  ghost predicate Success(job: Job, start: Store, tasks: seq<Task>, i: nat, p: Id)
    requires |tasks| == |job.assets|
  {
    ImageOf(job, i, p) && tasks[i].Done? && Outcome(job, start, i).Some?
  }

  ghost predicate Failure(job: Job, start: Store, tasks: seq<Task>, i: nat, p: Id)
    requires |tasks| == |job.assets|
  {
    ImageOf(job, i, p) && tasks[i].Done? && Outcome(job, start, i).None?
  }

  ghost predicate ItemOk(job: Job, start: Store, tasks: seq<Task>, item: Item, p: Id)
    requires |tasks| == |job.assets|
  {
    && Success(job, start, tasks, item.asset, p)
    && item.media == Outcome(job, start, item.asset).value && item.position == job.assets[item.asset].position
  }

  ghost predicate HasItem(plan: Plan, i: nat)
  {
    exists k :: 0 <= k < |plan.items| && plan.items[k].asset == i
  }

  /** The plan of p holds exactly the finished successes, once each, and knows
      whether anything failed. */
  ghost predicate PlanOk(job: Job, start: Store, tasks: seq<Task>, plan: Plan, p: Id)
    requires |tasks| == |job.assets|
  {
    && (forall j, k :: 0 <= j < k < |plan.items| ==> plan.items[j].asset != plan.items[k].asset)
    && (forall k :: 0 <= k < |plan.items| ==> ItemOk(job, start, tasks, plan.items[k], p))
    && (forall i: nat :: Success(job, start, tasks, i, p) ==> HasItem(plan, i))
    && (plan.failures > 0 <==> exists i: nat :: Failure(job, start, tasks, i, p))
  }

  ghost predicate Consistent(job: Job, start: Store, sys: Sys)
  {
    && |sys.tasks| == |job.assets|
    && sys.plans.Keys == InitialPlans(job).Keys
    && StoreGrew(start, sys.store)
    && (forall i :: 0 <= i < |sys.tasks| ==> TaskOk(job, start, sys.store, i, sys.tasks[i]))
    && (forall p :: p in sys.plans ==> PlanOk(job, start, sys.tasks, sys.plans[p], p))
  }

  lemma StartIsConsistent(job: Job, start: Store)
    ensures Consistent(job, start, Start(job, start))
  {
  }

  // ---------------------------------------------------------------- the store

  lemma PersistKeepsGrowing(start: Store, store: Store, a: Asset, key: MediaKey)
    requires FreshStart(start) && StoreGrew(start, store)
    ensures StoreGrew(start, Persist(store, a, key))
  {
  }

  lemma LinkKeepsGrowing(start: Store, store: Store, a: Asset, target: Id, m: MediaId)
    requires StoreGrew(start, store)
    ensures StoreGrew(start, LinkAsset(store, a, target, m))
  {
    LinkKeepsRows(store, a, target, m);
    StaysGrown(start, store, LinkAsset(store, a, target, m));
  }

  lemma LinkKeepsRows(store: Store, a: Asset, target: Id, m: MediaId)
    ensures var next := LinkAsset(store, a, target, m);
            && next.media == store.media && next.rows == store.rows
            && next.maps == store.maps && next.productMedia == store.productMedia
  {
  }

  lemma StaysGrown(start: Store, store: Store, next: Store)
    requires StoreGrew(start, store)
    requires next.media == store.media && next.rows == store.rows && next.productMedia == store.productMedia
    ensures StoreGrew(start, next)
  {
  }

  lemma StoreKeepsGrowing(job: Job, start: Store, store: Store, i: nat, task: Task)
    requires i < |job.assets| && FreshStart(start) && StoreGrew(start, store)
    ensures StoreGrew(start, NextStore(job, store, i, task))
  {
    var a := job.assets[i];
    var place := Resolve(a, job.targets);
    if place.Some? && task.Importing? && job.fetch(a.legacyId).Some? {
      PersistKeepsGrowing(start, store, a, KeyOf(a, place.value, job.fetch(a.legacyId).value));
    } else if place.Some? && task.Ready? {
      LinkKeepsGrowing(start, store, a, place.value.target, task.media);
    } else {
      assert NextStore(job, store, i, task) == store;
    }
  }

  lemma RowIdIsFixed(start: Store, store: Store, key: MediaKey)
    requires StoreGrew(start, store)
    ensures RowId(store.rows, key) == RowId(start.rows, key)
  {
  }

  /** What moves stays right. */
  lemma MovedTaskOk(job: Job, start: Store, store: Store, i: nat, task: Task)
    requires i < |job.assets| && FreshStart(start) && StoreGrew(start, store) && TaskOk(job, start, store, i, task)
    ensures TaskOk(job, start, NextStore(job, store, i, task), i, NextTask(job, store, i, task))
  {
    var a := job.assets[i];
    match task
    case Importing =>
      if job.fetch(a.legacyId).Some? {
        RowIdIsFixed(start, store, KeyOf(a, Resolve(a, job.targets).value, job.fetch(a.legacyId).value));
      }
    case _ =>
  }

  /** What does not move stays right. */
  lemma OtherTaskOk(job: Job, start: Store, store: Store, i: nat, task: Task, j: nat, other: Task)
    requires i < |job.assets| && j < |job.assets| && job.assets[i].legacyId != job.assets[j].legacyId
    requires TaskOk(job, start, store, j, other)
    ensures TaskOk(job, start, NextStore(job, store, i, task), j, other)
  {
  }

  // ---------------------------------------------------------------- the plans

  /** A step of a task of another product, or a step that does not finish,
      leaves a plan right. */
  lemma PlanUntouched(job: Job, start: Store, tasks: seq<Task>, i: nat, task: Task, plan: Plan, p: Id)
    requires |tasks| == |job.assets| && i < |tasks| && PlanOk(job, start, tasks, plan, p)
    requires !ImageOf(job, i, p) || (!tasks[i].Done? && !task.Done?) || (tasks[i].Done? && task.Done?)
    ensures PlanOk(job, start, tasks[i := task], plan, p)
  {
    var after := tasks[i := task];
    forall k: nat
      ensures Success(job, start, after, k, p) <==> Success(job, start, tasks, k, p)
      ensures Failure(job, start, after, k, p) <==> Failure(job, start, tasks, k, p)
    {
    }
    forall k | 0 <= k < |plan.items|
      ensures ItemOk(job, start, after, plan.items[k], p)
    {
      assert ItemOk(job, start, tasks, plan.items[k], p);
    }
  }

  lemma PlanGains(job: Job, start: Store, tasks: seq<Task>, i: nat, m: MediaId, plan: Plan, p: Id)
    requires |tasks| == |job.assets| && i < |tasks| && PlanOk(job, start, tasks, plan, p)
    requires ImageOf(job, i, p) && !tasks[i].Done? && Outcome(job, start, i) == Some(m)
    ensures PlanOk(job, start, tasks[i := Done], plan.(items := plan.items + [Item(i, m, job.assets[i].position)]), p)
  {
    var after := tasks[i := Done];
    var grown := plan.(items := plan.items + [Item(i, m, job.assets[i].position)]);
    forall k | 0 <= k < |plan.items|
      ensures plan.items[k].asset != i && ItemOk(job, start, after, grown.items[k], p)
    {
      assert ItemOk(job, start, tasks, plan.items[k], p);
    }
    forall k: nat | Success(job, start, after, k, p)
      ensures HasItem(grown, k)
    {
      if k == i {
        assert grown.items[|plan.items|].asset == i;
      } else {
        assert Success(job, start, tasks, k, p);
        var n :| 0 <= n < |plan.items| && plan.items[n].asset == k;
        assert grown.items[n].asset == k;
      }
    }
    forall k: nat
      ensures Failure(job, start, after, k, p) <==> Failure(job, start, tasks, k, p)
    {
    }
  }

  lemma PlanFails(job: Job, start: Store, tasks: seq<Task>, i: nat, plan: Plan, p: Id)
    requires |tasks| == |job.assets| && i < |tasks| && PlanOk(job, start, tasks, plan, p)
    requires ImageOf(job, i, p) && !tasks[i].Done? && Outcome(job, start, i).None?
    ensures PlanOk(job, start, tasks[i := Done], plan.(failures := plan.failures + 1), p)
  {
    var after := tasks[i := Done];
    assert Failure(job, start, after, i, p);
    forall k | 0 <= k < |plan.items|
      ensures ItemOk(job, start, after, plan.items[k], p)
    {
      assert ItemOk(job, start, tasks, plan.items[k], p);
    }
    forall k: nat | Success(job, start, after, k, p)
      ensures HasItem(plan, k)
    {
      assert Success(job, start, tasks, k, p);
    }
  }

  lemma NextPlanOk(job: Job, start: Store, sys: Sys, i: nat, p: Id)
    requires Consistent(job, start, sys) && i < |sys.tasks| && p in sys.plans
    ensures PlanOk(job, start, sys.tasks[i := NextTask(job, sys.store, i, sys.tasks[i])],
                   NextPlans(job, sys.plans, i, sys.tasks[i])[p], p)
  {
    var task := sys.tasks[i];
    var next := NextTask(job, sys.store, i, task);
    var plan := sys.plans[p];
    assert TaskOk(job, start, sys.store, i, task);
    assert PlanOk(job, start, sys.tasks, plan, p);
    if !ImageOf(job, i, p) {
      PlanUntouched(job, start, sys.tasks, i, next, plan, p);
    } else if task.Ready? {
      PlanGains(job, start, sys.tasks, i, task.media, plan, p);
    } else if Fails(job, i, task) {
      PlanFails(job, start, sys.tasks, i, plan, p);
    } else {
      PlanUntouched(job, start, sys.tasks, i, next, plan, p);
    }
  }

  // ---------------------------------------------------------------- runs

  lemma StepStaysConsistent(job: Job, start: Store, sys: Sys, i: nat)
    requires DistinctAssets(job) && FreshStart(start) && Consistent(job, start, sys) && i < |job.assets|
    ensures Consistent(job, start, Step(job, sys, i))
  {
    var next := Step(job, sys, i);
    StoreKeepsGrowing(job, start, sys.store, i, sys.tasks[i]);
    forall j | 0 <= j < |next.tasks|
      ensures TaskOk(job, start, next.store, j, next.tasks[j])
    {
      if j == i {
        MovedTaskOk(job, start, sys.store, i, sys.tasks[i]);
      } else {
        assert job.assets[if i < j then i else j].legacyId != job.assets[if i < j then j else i].legacyId;
        OtherTaskOk(job, start, sys.store, i, sys.tasks[i], j, sys.tasks[j]);
      }
    }
    forall p | p in next.plans
      ensures PlanOk(job, start, next.tasks, next.plans[p], p)
    {
      NextPlanOk(job, start, sys, i, p);
    }
  }

  lemma {:induction false} RunStaysConsistent(job: Job, start: Store, sys: Sys, schedule: Schedule)
    requires DistinctAssets(job) && FreshStart(start) && Consistent(job, start, sys) && ScheduleOf(job, schedule)
    ensures Consistent(job, start, Run(job, sys, schedule))
    decreases |schedule|
  {
    if schedule != [] {
      StepStaysConsistent(job, start, sys, schedule[0]);
      RunStaysConsistent(job, start, Step(job, sys, schedule[0]), schedule[1..]);
    }
  }

  // ---------------------------------------------------------------- every task gets to its end

  /** Steps a task still has before it, at most. */
  function Remaining(task: Task): nat
  {
    match task
    case Waiting => 4
    case LookedUp(_) => 3
    case Importing => 2
    case Ready(_) => 1
    case Done => 0
  }

  /** How often task i moves. */
  function Turns(schedule: Schedule, i: nat): nat
  {
    if schedule == [] then 0 else (if schedule[0] == i then 1 else 0) + Turns(schedule[1..], i)
  }

  lemma {:induction false} TurnsWearDown(job: Job, sys: Sys, schedule: Schedule, i: nat)
    requires |sys.tasks| == |job.assets| && ScheduleOf(job, schedule) && i < |job.assets|
    requires Remaining(sys.tasks[i]) <= Turns(schedule, i)
    ensures Run(job, sys, schedule).tasks[i] == Done
    decreases |schedule|
  {
    if schedule != [] {
      TurnsWearDown(job, Step(job, sys, schedule[0]), schedule[1..], i);
    }
  }

  /** No task waits for another: four turns each finish the import, in whatever
      order they come. */
  lemma FairSchedulesFinish(job: Job, start: Store, schedule: Schedule)
    requires ScheduleOf(job, schedule) && forall i :: 0 <= i < |job.assets| ==> Turns(schedule, i) >= 4
    ensures AllDone(Run(job, Start(job, start), schedule))
  {
    forall i | 0 <= i < |job.assets|
      ensures Run(job, Start(job, start), schedule).tasks[i] == Done
    {
      TurnsWearDown(job, Start(job, start), schedule, i);
    }
  }

  // ---------------------------------------------------------------- which assets are imported

  /** Legacy business, category and product are known. */
  ghost predicate Known(a: Asset, t: Targets)
  {
    && a.business in t.businesses
    && (a.kind == CategoryImage ==> a.entity in t.categories)
    && (a.kind == ProductImage ==> a.entity in t.products)
  }

  function TargetOf(a: Asset, t: Targets): Id
    requires Known(a, t)
  {
    if a.kind == CategoryImage then t.categories[a.entity]
    else if a.kind == ProductImage then t.products[a.entity]
    else t.businesses[a.business]
  }

  /** An asset finds its place exactly if everything it names is known: in the
      catalog of its business, at its own target. */
  lemma ResolvesIffKnown(a: Asset, t: Targets)
    ensures Resolve(a, t).Some? <==> Known(a, t)
    ensures Known(a, t) ==> Resolve(a, t) == Some(Place(t.businesses[a.business], TargetOf(a, t)))
  {
  }

  /** An asset comes to media exactly if it is known, its url is usable, and
      either its map entry points at media that is there or the download works;
      to the mapped media in the first case, and in the second to the media at
      its object key, new if there is none. */
  lemma ImportedIff(job: Job, start: Store, i: nat)
    requires i < |job.assets|
    ensures var a := job.assets[i];
            var mapped := a.legacyId in start.maps && start.maps[a.legacyId] in start.media;
            && (Outcome(job, start, i).Some? <==>
                  Known(a, job.targets) && job.usable(a.legacyId) && (mapped || job.fetch(a.legacyId).Some?))
            && (Outcome(job, start, i).Some? && mapped ==> Outcome(job, start, i).value == start.maps[a.legacyId])
            && (Outcome(job, start, i).Some? && !mapped ==>
                  var key := ObjectKey(a, job.targets, job.fetch(a.legacyId).value);
                  Outcome(job, start, i).value == if key in start.rows then start.rows[key] else Created(key))
  {
    ResolvesIffKnown(job.assets[i], job.targets);
  }

  /** Folder and file name of an asset's object. */
  function ObjectKey(a: Asset, t: Targets, file: File): MediaKey
    requires Known(a, t)
  {
    var name := file.hash + "." + file.extension;
    match a.kind
    case CatalogLogo => MediaKey(t.businesses[a.business], "branding/logo", t.businesses[a.business], name)
    case CatalogBackground => MediaKey(t.businesses[a.business], "branding/bg", t.businesses[a.business], name)
    case CategoryImage => MediaKey(t.businesses[a.business], "categories", t.categories[a.entity], name)
    case ProductImage =>
      MediaKey(t.businesses[a.business], "products", t.products[a.entity], FileName(a.position, file.hash, file.extension))
  }
}
