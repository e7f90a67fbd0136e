/** The link phase of the media import and what it leaves behind. */
module MediaLinking {
  import opened Basics
  import opened MediaStore
  import opened MediaImport
  import opened MediaImportLaws

  type Rows = map<MediaId, nat>
  type ProductMedia = map<Id, Rows>

  // ---------------------------------------------------------------- the rows of one plan

  /** The rows of the first n items; None when two share a media row and the
      insert hits the primary key (product, media). */
  function ItemRows(items: seq<Item>, n: nat): Option<Rows>
    requires n <= |items|
  {
    if n == 0 then Some(map[])
    else match ItemRows(items, n - 1)
      case None => None
      case Some(rows) => if items[n - 1].media in rows then None else Some(rows[items[n - 1].media := items[n - 1].position])
  }

  ghost predicate RowsOfItems(items: seq<Item>, n: nat, rows: Rows)
    requires n <= |items|
  {
    && (forall k :: 0 <= k < n ==> items[k].media in rows && rows[items[k].media] == items[k].position)
    && (forall m :: m in rows ==> exists k :: 0 <= k < n && items[k].media == m)
  }

  ghost predicate DistinctMedia(items: seq<Item>, n: nat)
    requires n <= |items|
  {
    forall j, k :: 0 <= j < k < n ==> items[j].media != items[k].media
  }

  ghost predicate Exact(items: seq<Item>, n: nat)
    requires n <= |items|
  {
    && (ItemRows(items, n).Some? <==> DistinctMedia(items, n))
    && (ItemRows(items, n).Some? ==> RowsOfItems(items, n, ItemRows(items, n).value))
  }

  lemma {:induction false} ItemRowsExact(items: seq<Item>, n: nat)
    requires n <= |items|
    ensures Exact(items, n)
    decreases n
  {
    if n > 0 {
      ItemRowsExact(items, n - 1);
    }
  }

  method CreateMany(items: seq<Item>) returns (r: Option<Rows>)
    ensures r == ItemRows(items, |items|)
  {
    var rows: Rows := map[];
    for n := 0 to |items|
      invariant ItemRows(items, n) == Some(rows)
    {
      if items[n].media in rows {
        StaysNone(items, n + 1);
        return None;
      }
      rows := rows[items[n].media := items[n].position];
    }
    r := Some(rows);
  }

  lemma {:induction false} StaysNone(items: seq<Item>, n: nat)
    requires n <= |items| && ItemRows(items, n).None?
    ensures ItemRows(items, |items|).None?
    decreases |items| - n
  {
    if n < |items| {
      StaysNone(items, n + 1);
    }
  }

  // ---------------------------------------------------------------- the link loop

  datatype LinkResult = Linked(productMedia: ProductMedia) | Stopped(productMedia: ProductMedia, product: Id)

  predicate AllFailed(plan: Plan)
  {
    plan.items == [] && plan.failures > 0
  }

  /** One link transaction: delete the product's links and insert the plan's,
      unless everything failed; a clash rolls back. */
  function LinkOne(pm: ProductMedia, plan: Plan, p: Id): LinkResult
  {
    if AllFailed(plan) then Linked(pm)
    else match ItemRows(plan.items, |plan.items|)
      case None => Stopped(pm, p)
      case Some(rows) => Linked(pm[p := rows])
  }

  /** The first n products; a failed transaction ends the loop. */
  function LinkPlans(pm: ProductMedia, plans: Plans, order: seq<Id>, n: nat): LinkResult
    requires n <= |order|
  {
    if n == 0 then Linked(pm)
    else
      var r := LinkPlans(pm, plans, order, n - 1);
      if r.Stopped? || order[n - 1] !in plans then r
      else LinkOne(r.productMedia, plans[order[n - 1]], order[n - 1])
  }

  /** The link phase of `applyLegacyMedia`. */
  method LinkProducts(pm: ProductMedia, plans: Plans, order: seq<Id>) returns (result: LinkResult)
    requires forall k :: 0 <= k < |order| ==> order[k] in plans
    ensures result == LinkPlans(pm, plans, order, |order|)
  {
    var now := pm;
    for n := 0 to |order|
      invariant LinkPlans(pm, plans, order, n) == Linked(now)
    {
      var plan := plans[order[n]];
      if plan.items == [] && plan.failures > 0 {
        continue;
      }
      var rows := CreateMany(plan.items);
      if rows.None? {
        StaysStopped(pm, plans, order, n + 1);
        return Stopped(now, order[n]);
      }
      now := now[order[n] := rows.value];
    }
    result := Linked(now);
  }

  lemma {:induction false} StaysStopped(pm: ProductMedia, plans: Plans, order: seq<Id>, n: nat)
    requires n <= |order| && LinkPlans(pm, plans, order, n).Stopped?
    ensures LinkPlans(pm, plans, order, |order|) == LinkPlans(pm, plans, order, n)
    decreases |order| - n
  {
    if n < |order| {
      StaysStopped(pm, plans, order, n + 1);
    }
  }

  // ---------------------------------------------------------------- what a product should get

  ghost predicate Wanted(job: Job, start: Store, i: nat, p: Id)
  {
    ImageOf(job, i, p) && Outcome(job, start, i).Some?
  }

  ghost predicate AnyWanted(job: Job, start: Store, p: Id)
  {
    exists i: nat :: Wanted(job, start, i, p)
  }

  ghost predicate Clash(job: Job, start: Store, i: nat, j: nat, p: Id)
  {
    i != j && Wanted(job, start, i, p) && Wanted(job, start, j, p) && Outcome(job, start, i) == Outcome(job, start, j)
  }

  /** No two images of p came to the same media row. */
  ghost predicate ClashFree(job: Job, start: Store, p: Id)
  {
    forall i: nat, j: nat :: !Clash(job, start, i, j, p)
  }

  ghost predicate RowFor(job: Job, start: Store, i: nat, rows: Rows)
    requires i < |job.assets| && Outcome(job, start, i).Some?
  {
    var m := Outcome(job, start, i).value;
    m in rows && rows[m] == job.assets[i].position
  }

  ghost predicate Justified(job: Job, start: Store, p: Id, m: MediaId)
  {
    exists i: nat :: Wanted(job, start, i, p) && Outcome(job, start, i).value == m
  }

  /** Exactly the successful images of p, at their original positions. */
  ghost predicate RowsOf(job: Job, start: Store, p: Id, rows: Rows)
  {
    && (forall i: nat :: Wanted(job, start, i, p) ==> RowFor(job, start, i, rows))
    && (forall m :: m in rows ==> Justified(job, start, p, m))
  }

  lemma RowsAreUnique(job: Job, start: Store, p: Id, r1: Rows, r2: Rows)
    requires RowsOf(job, start, p, r1) && RowsOf(job, start, p, r2)
    ensures r1 == r2
  {
  }

  // ---------------------------------------------------------------- finished runs

  ghost predicate Finished(job: Job, start: Store, sys: Sys)
  {
    Consistent(job, start, sys) && AllDone(sys)
  }

  lemma WantedIffItem(job: Job, start: Store, sys: Sys, p: Id, i: nat)
    requires Finished(job, start, sys) && p in sys.plans
    ensures Wanted(job, start, i, p) <==> HasItem(sys.plans[p], i)
  {
  }

  lemma ItemIsOutcome(job: Job, start: Store, sys: Sys, p: Id, k: nat)
    requires Finished(job, start, sys) && p in sys.plans && k < |sys.plans[p].items|
    ensures var item := sys.plans[p].items[k];
            && Wanted(job, start, item.asset, p) && Outcome(job, start, item.asset) == Some(item.media)
            && item.position == job.assets[item.asset].position
  {
  }

  lemma DistinctIffClashFree(job: Job, start: Store, sys: Sys, p: Id)
    requires Finished(job, start, sys) && p in sys.plans
    ensures DistinctMedia(sys.plans[p].items, |sys.plans[p].items|) <==> ClashFree(job, start, p)
  {
    var items := sys.plans[p].items;
    assert PlanOk(job, start, sys.tasks, sys.plans[p], p);
    if ClashFree(job, start, p) {
      forall j, k | 0 <= j < k < |items|
        ensures items[j].media != items[k].media
      {
        ItemIsOutcome(job, start, sys, p, j);
        ItemIsOutcome(job, start, sys, p, k);
        assert !Clash(job, start, items[j].asset, items[k].asset, p);
      }
    }
    if DistinctMedia(items, |items|) {
      forall i: nat, j: nat
        ensures !Clash(job, start, i, j, p)
      {
        if Wanted(job, start, i, p) && Wanted(job, start, j, p) && i != j {
          NoSharedMedia(job, start, sys, p, i, j);
        }
      }
    }
  }

  lemma NoSharedMedia(job: Job, start: Store, sys: Sys, p: Id, i: nat, j: nat)
    requires Finished(job, start, sys) && p in sys.plans && DistinctMedia(sys.plans[p].items, |sys.plans[p].items|)
    requires Wanted(job, start, i, p) && Wanted(job, start, j, p) && i != j
    ensures Outcome(job, start, i) != Outcome(job, start, j)
  {
    var items := sys.plans[p].items;
    WantedIffItem(job, start, sys, p, i);
    WantedIffItem(job, start, sys, p, j);
    var x :| 0 <= x < |items| && items[x].asset == i;
    var y :| 0 <= y < |items| && items[y].asset == j;
    ItemIsOutcome(job, start, sys, p, x);
    ItemIsOutcome(job, start, sys, p, y);
    assert if x < y then items[x].media != items[y].media else items[y].media != items[x].media;
  }

  lemma ItemsGiveRows(job: Job, start: Store, sys: Sys, p: Id, rows: Rows)
    requires Finished(job, start, sys) && p in sys.plans
    requires RowsOfItems(sys.plans[p].items, |sys.plans[p].items|, rows)
    ensures RowsOf(job, start, p, rows)
  {
    var items := sys.plans[p].items;
    forall i: nat | Wanted(job, start, i, p)
      ensures RowFor(job, start, i, rows)
    {
      WantedIffItem(job, start, sys, p, i);
      var k :| 0 <= k < |items| && items[k].asset == i;
      ItemIsOutcome(job, start, sys, p, k);
    }
    forall m | m in rows
      ensures Justified(job, start, p, m)
    {
      var k :| 0 <= k < |items| && items[k].media == m;
      ItemIsOutcome(job, start, sys, p, k);
    }
  }

  lemma PlannedHasImage(job: Job, p: Id) returns (i: nat)
    requires p in InitialPlans(job)
    ensures ImageOf(job, i, p)
  {
    i :| && 0 <= i < |job.assets| && job.assets[i].kind.ProductImage? && Resolve(job.assets[i], job.targets).Some?
         && Resolve(job.assets[i], job.targets).value.target == p;
  }

  lemma EmptyMeansFailed(job: Job, start: Store, sys: Sys, p: Id)
    requires Finished(job, start, sys) && p in sys.plans
    ensures AllFailed(sys.plans[p]) <==> !AnyWanted(job, start, p)
    ensures sys.plans[p].items == [] ==> AllFailed(sys.plans[p])
  {
    var plan := sys.plans[p];
    if plan.items != [] {
      ItemIsOutcome(job, start, sys, p, 0);
    } else {
      forall i: nat
        ensures !Wanted(job, start, i, p)
      {
        WantedIffItem(job, start, sys, p, i);
      }
      assert p in InitialPlans(job);
      var i := PlannedHasImage(job, p);
      assert PlanOk(job, start, sys.tasks, plan, p);
      assert !Wanted(job, start, i, p);
      assert Failure(job, start, sys.tasks, i, p);
    }
  }

  /** The plan of p inserts exactly the rows of its product, and only a media
      row shared by two of its images can stop it. */
  ghost predicate Delivers(job: Job, start: Store, plan: Plan, p: Id)
  {
    var r := ItemRows(plan.items, |plan.items|);
    && (AllFailed(plan) <==> !AnyWanted(job, start, p))
    && (r.Some? <==> ClashFree(job, start, p))
    && (r.Some? ==> RowsOf(job, start, p, r.value))
    && (AllFailed(plan) ==> ClashFree(job, start, p))
  }

  lemma FinishedPlanDelivers(job: Job, start: Store, sys: Sys, p: Id)
    requires Finished(job, start, sys) && p in sys.plans
    ensures Delivers(job, start, sys.plans[p], p)
  {
    var items := sys.plans[p].items;
    ItemRowsExact(items, |items|);
    DistinctIffClashFree(job, start, sys, p);
    EmptyMeansFailed(job, start, sys, p);
    if ItemRows(items, |items|).Some? {
      ItemsGiveRows(job, start, sys, p, ItemRows(items, |items|).value);
    }
  }

  // ---------------------------------------------------------------- schedules do not matter

  lemma SameLink(job: Job, start: Store, x: Plan, y: Plan, pm: ProductMedia, p: Id)
    requires Delivers(job, start, x, p) && Delivers(job, start, y, p)
    ensures LinkOne(pm, x, p) == LinkOne(pm, y, p)
  {
    if ClashFree(job, start, p) {
      RowsAreUnique(job, start, p, ItemRows(x.items, |x.items|).value, ItemRows(y.items, |y.items|).value);
    }
  }

  ghost predicate AllDeliver(job: Job, start: Store, plans: Plans)
  {
    forall p :: p in plans ==> Delivers(job, start, plans[p], p)
  }

  lemma FinishedDelivers(job: Job, start: Store, sys: Sys)
    requires Finished(job, start, sys)
    ensures AllDeliver(job, start, sys.plans) && sys.plans.Keys == InitialPlans(job).Keys
  {
    forall p | p in sys.plans
      ensures Delivers(job, start, sys.plans[p], p)
    {
      FinishedPlanDelivers(job, start, sys, p);
    }
  }

  /** The plans lead to the same links from every table. */
  ghost predicate Alike(x: Plans, y: Plans)
  {
    x.Keys == y.Keys && forall pm, p :: p in x ==> LinkOne(pm, x[p], p) == LinkOne(pm, y[p], p)
  }

  lemma DeliveringPlansAreAlike(job: Job, start: Store, x: Plans, y: Plans)
    requires AllDeliver(job, start, x) && AllDeliver(job, start, y) && x.Keys == y.Keys
    ensures Alike(x, y)
  {
    forall pm, p | p in x
      ensures LinkOne(pm, x[p], p) == LinkOne(pm, y[p], p)
    {
      SameLink(job, start, x[p], y[p], pm, p);
    }
  }

  lemma {:induction false} SameLinks(x: Plans, y: Plans, pm: ProductMedia, order: seq<Id>, n: nat)
    requires Alike(x, y) && n <= |order|
    ensures LinkPlans(pm, x, order, n) == LinkPlans(pm, y, order, n)
    decreases n
  {
    if n > 0 {
      SameLinks(x, y, pm, order, n - 1);
    }
  }

  lemma EndOfRun(job: Job, start: Store, schedule: Schedule)
    requires DistinctAssets(job) && FreshStart(start) && ScheduleOf(job, schedule)
    requires AllDone(Run(job, Start(job, start), schedule))
    ensures Finished(job, start, Run(job, Start(job, start), schedule))
  {
    StartIsConsistent(job, start);
    RunStaysConsistent(job, start, Start(job, start), schedule);
  }

  /** For every two interleavings of the import tasks that finish, the product
      links end up the same. */
  lemma EveryScheduleLinksTheSame(job: Job, start: Store, x: Schedule, y: Schedule, order: seq<Id>)
    requires DistinctAssets(job) && FreshStart(start) && ScheduleOf(job, x) && ScheduleOf(job, y)
    requires AllDone(Run(job, Start(job, start), x)) && AllDone(Run(job, Start(job, start), y))
    ensures LinkPlans(start.productMedia, Run(job, Start(job, start), x).plans, order, |order|) ==
            LinkPlans(start.productMedia, Run(job, Start(job, start), y).plans, order, |order|)
  {
    EndOfRun(job, start, x);
    EndOfRun(job, start, y);
    FinishedDelivers(job, start, Run(job, Start(job, start), x));
    FinishedDelivers(job, start, Run(job, Start(job, start), y));
    var plansX, plansY := Run(job, Start(job, start), x).plans, Run(job, Start(job, start), y).plans;
    DeliveringPlansAreAlike(job, start, plansX, plansY);
    SameLinks(plansX, plansY, start.productMedia, order, |order|);
  }

  // ---------------------------------------------------------------- the final links

  ghost predicate SameLinksOf(before: ProductMedia, after: ProductMedia, p: Id)
  {
    (p in after <==> p in before) && (p in before ==> after[p] == before[p])
  }

  ghost predicate Replaced(job: Job, start: Store, after: ProductMedia, p: Id)
  {
    p in after && RowsOf(job, start, p, after[p])
  }

  ghost predicate DistinctOrder(plans: Plans, order: seq<Id>)
  {
    && (forall j, k :: 0 <= j < k < |order| ==> order[j] != order[k])
    && (forall k :: 0 <= k < |order| ==> order[k] in plans)
  }

  predicate Insertable(plan: Plan)
  {
    AllFailed(plan) || ItemRows(plan.items, |plan.items|).Some?
  }

  lemma {:induction false} LinkedIffInsertable(plans: Plans, pm: ProductMedia, order: seq<Id>, n: nat)
    requires DistinctOrder(plans, order) && n <= |order|
    ensures LinkPlans(pm, plans, order, n).Linked? <==> forall k :: 0 <= k < n ==> Insertable(plans[order[k]])
    decreases n
  {
    if n > 0 {
      LinkedIffInsertable(plans, pm, order, n - 1);
    }
  }

  /** The loop goes through exactly when no product's images share a media row. */
  lemma LinkedIff(job: Job, start: Store, plans: Plans, pm: ProductMedia, order: seq<Id>)
    requires AllDeliver(job, start, plans) && DistinctOrder(plans, order)
    ensures LinkPlans(pm, plans, order, |order|).Linked? <==> forall k :: 0 <= k < |order| ==> ClashFree(job, start, order[k])
  {
    LinkedIffInsertable(plans, pm, order, |order|);
    forall k | 0 <= k < |order|
      ensures Insertable(plans[order[k]]) <==> ClashFree(job, start, order[k])
    {
      assert Delivers(job, start, plans[order[k]], order[k]);
    }
  }

  predicate HasRows(plan: Plan)
  {
    !AllFailed(plan) && ItemRows(plan.items, |plan.items|).Some?
  }

  /** Each product's links are its plan's rows, or what they were. */
  lemma {:induction false} LinksAfter(plans: Plans, pm: ProductMedia, order: seq<Id>, n: nat, p: Id)
    requires DistinctOrder(plans, order) && n <= |order|
    ensures var r := LinkPlans(pm, plans, order, n);
            if r.Linked? && p in order[..n] && HasRows(plans[p])
            then p in r.productMedia && Some(r.productMedia[p]) == ItemRows(plans[p].items, |plans[p].items|)
            else || SameLinksOf(pm, r.productMedia, p)
                 || (p in order[..n] && HasRows(plans[p]) && p in r.productMedia
                     && Some(r.productMedia[p]) == ItemRows(plans[p].items, |plans[p].items|))
    decreases n
  {
    if n > 0 {
      LinksAfter(plans, pm, order, n - 1, p);
      assert order[..n] == order[..n - 1] + [order[n - 1]];
    }
  }

  /** A product whose turn has come and which has a successful image now has
      exactly its successful images; any other product keeps its old links. */
  lemma FinalLinks(job: Job, start: Store, plans: Plans, pm: ProductMedia, order: seq<Id>, p: Id)
    requires AllDeliver(job, start, plans) && DistinctOrder(plans, order)
    ensures var r := LinkPlans(pm, plans, order, |order|);
            && (r.Linked? && p in order && AnyWanted(job, start, p) ==> Replaced(job, start, r.productMedia, p))
            && (p !in order || !AnyWanted(job, start, p) ==> SameLinksOf(pm, r.productMedia, p))
            && (SameLinksOf(pm, r.productMedia, p) || (Replaced(job, start, r.productMedia, p) && AnyWanted(job, start, p)))
  {
    LinksAfter(plans, pm, order, |order|, p);
    assert order[..|order|] == order;
    if p in order {
      assert p in plans && Delivers(job, start, plans[p], p);
      LinkedIff(job, start, plans, pm, order);
    }
  }

  /** The link phase after any finished interleaving: it goes through exactly
      when no product's images share a media row; a product with a successful
      image then has exactly its successful images at their original positions,
      any other product keeps its links, and a product's links only ever change
      into a non-empty set of rows. */
  lemma LinksOfRun(job: Job, start: Store, schedule: Schedule, order: seq<Id>, p: Id)
    requires DistinctAssets(job) && FreshStart(start) && ScheduleOf(job, schedule)
    requires AllDone(Run(job, Start(job, start), schedule)) && DistinctOrder(InitialPlans(job), order)
    ensures var r := LinkPlans(start.productMedia, Run(job, Start(job, start), schedule).plans, order, |order|);
            && (r.Linked? <==> forall k :: 0 <= k < |order| ==> ClashFree(job, start, order[k]))
            && (r.Linked? && p in order && AnyWanted(job, start, p) ==> Replaced(job, start, r.productMedia, p))
            && (p !in order || !AnyWanted(job, start, p) ==> SameLinksOf(start.productMedia, r.productMedia, p))
            && (!SameLinksOf(start.productMedia, r.productMedia, p) ==>
                  Replaced(job, start, r.productMedia, p) && r.productMedia[p] != map[])
  {
    var plans := Run(job, Start(job, start), schedule).plans;
    EndOfRun(job, start, schedule);
    FinishedDelivers(job, start, Run(job, Start(job, start), schedule));
    LinkedIff(job, start, plans, start.productMedia, order);
    FinalLinks(job, start, plans, start.productMedia, order, p);
  }
}
