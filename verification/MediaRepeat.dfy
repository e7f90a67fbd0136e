/** Running the import again. */
module MediaRepeat {
  import opened Basics
  import opened MediaStore
  import opened MediaImport
  import opened MediaImportLaws
  import opened MediaLinking

  // ---------------------------------------------------------------- the store is a start again

  lemma PersistKeepsFresh(store: Store, a: Asset, key: MediaKey)
    requires FreshStart(store)
    ensures FreshStart(Persist(store, a, key))
  {
  }

  lemma LinkKeepsFresh(store: Store, a: Asset, target: Id, m: MediaId)
    requires FreshStart(store)
    ensures FreshStart(LinkAsset(store, a, target, m))
  {
    LinkKeepsRows(store, a, target, m);
    StaysFresh(store, LinkAsset(store, a, target, m));
  }

  lemma StaysFresh(store: Store, next: Store)
    requires FreshStart(store) && next.media == store.media && next.rows == store.rows && next.maps == store.maps
    ensures FreshStart(next)
  {
  }

  lemma StepKeepsFresh(job: Job, store: Store, i: nat, task: Task)
    requires i < |job.assets| && FreshStart(store)
    ensures FreshStart(NextStore(job, store, i, task))
  {
    var a := job.assets[i];
    var place := Resolve(a, job.targets);
    if place.Some? && task.Importing? && job.fetch(a.legacyId).Some? {
      PersistKeepsFresh(store, a, KeyOf(a, place.value, job.fetch(a.legacyId).value));
    } else if place.Some? && task.Ready? {
      LinkKeepsFresh(store, a, place.value.target, task.media);
    }
  }

  lemma {:induction false} RunKeepsFresh(job: Job, sys: Sys, schedule: Schedule)
    requires |sys.tasks| == |job.assets| && ScheduleOf(job, schedule) && FreshStart(sys.store)
    ensures FreshStart(Run(job, sys, schedule).store)
    decreases |schedule|
  {
    if schedule != [] {
      StepKeepsFresh(job, sys.store, schedule[0], sys.tasks[schedule[0]]);
      RunKeepsFresh(job, Step(job, sys, schedule[0]), schedule[1..]);
    }
  }

  // ---------------------------------------------------------------- every asset comes to the same

  /** Media that was missing at the start is still missing. */
  lemma StillNotReusable(job: Job, start: Store, store: Store, i: nat)
    requires i < |job.assets| && FreshStart(start) && StoreGrew(start, store) && SameEntry(start, store, job.assets[i].legacyId)
    requires Reusable(job, start, i).None?
    ensures Reusable(job, store, i).None?
  {
  }

  ghost predicate SameOutcome(job: Job, start: Store, again: Store, i: nat)
  {
    i < |job.assets| ==> Outcome(job, again, i) == Outcome(job, start, i)
  }

  lemma OutcomesRepeat(job: Job, start: Store, sys: Sys, again: Store, i: nat)
    requires Finished(job, start, sys) && FreshStart(start) && i < |job.assets|
    requires again == sys.store.(productMedia := again.productMedia)
    ensures SameOutcome(job, start, again, i)
  {
    assert TaskOk(job, start, sys.store, i, sys.tasks[i]);
    if Accepted(job, i) && Outcome(job, start, i).None? {
      StillNotReusable(job, start, sys.store, i);
    }
  }

  ghost predicate SameOutcomes(job: Job, start: Store, again: Store)
  {
    forall i: nat :: SameOutcome(job, start, again, i)
  }

  lemma SameWishes(job: Job, start: Store, again: Store, p: Id)
    requires SameOutcomes(job, start, again)
    ensures AnyWanted(job, again, p) <==> AnyWanted(job, start, p)
    ensures ClashFree(job, again, p) <==> ClashFree(job, start, p)
    ensures forall rows :: RowsOf(job, again, p, rows) ==> RowsOf(job, start, p, rows)
  {
    forall i: nat
      ensures Wanted(job, again, i, p) <==> Wanted(job, start, i, p)
      ensures Wanted(job, start, i, p) ==> Outcome(job, again, i) == Outcome(job, start, i)
    {
      assert SameOutcome(job, start, again, i);
    }
    forall i: nat, j: nat
      ensures Clash(job, again, i, j, p) <==> Clash(job, start, i, j, p)
    {
    }
    forall rows | RowsOf(job, again, p, rows)
      ensures RowsOf(job, start, p, rows)
    {
      SameRows(job, start, again, p, rows);
    }
  }

  lemma SameRows(job: Job, start: Store, again: Store, p: Id, rows: Rows)
    requires SameOutcomes(job, start, again) && RowsOf(job, again, p, rows)
    ensures RowsOf(job, start, p, rows)
  {
    forall i: nat | Wanted(job, start, i, p)
      ensures RowFor(job, start, i, rows)
    {
      assert SameOutcome(job, start, again, i) && Wanted(job, again, i, p) && RowFor(job, again, i, rows);
    }
    forall m | m in rows
      ensures Justified(job, start, p, m)
    {
      assert Justified(job, again, p, m);
      var i: nat :| Wanted(job, again, i, p) && Outcome(job, again, i).value == m;
      assert SameOutcome(job, start, again, i) && Wanted(job, start, i, p);
    }
  }

  // ---------------------------------------------------------------- the second import

  /** The import finishes under the schedule and links into pm. */
  ghost predicate LinksTo(job: Job, start: Store, schedule: Schedule, order: seq<Id>, pm: ProductMedia)
    requires ScheduleOf(job, schedule)
  {
    var sys := Run(job, Start(job, start), schedule);
    AllDone(sys) && LinkPlans(start.productMedia, sys.plans, order, |order|) == Linked(pm)
  }

  lemma SameLinksAgain(job: Job, start: Store, again: Store, x: Schedule, y: Schedule, order: seq<Id>, pm: ProductMedia, p: Id)
    requires DistinctAssets(job) && FreshStart(start) && FreshStart(again) && SameOutcomes(job, start, again)
    requires ScheduleOf(job, x) && ScheduleOf(job, y) && DistinctOrder(InitialPlans(job), order)
    requires LinksTo(job, start, x, order, pm) && again.productMedia == pm && AllDone(Run(job, Start(job, again), y))
    ensures var r := LinkPlans(pm, Run(job, Start(job, again), y).plans, order, |order|);
            r.Linked? && SameLinksOf(pm, r.productMedia, p)
  {
    forall q
      ensures ClashFree(job, again, q) <==> ClashFree(job, start, q)
    {
      SameWishes(job, start, again, q);
    }
    SameWishes(job, start, again, p);
    LinksOfRun(job, start, x, order, p);
    LinksOfRun(job, again, y, order, p);
    var r := LinkPlans(pm, Run(job, Start(job, again), y).plans, order, |order|);
    if !SameLinksOf(pm, r.productMedia, p) {
      RowsAreUnique(job, start, p, pm[p], r.productMedia[p]);
    }
  }

  /** The store that the import and its link phase leave. */
  ghost predicate LeftBy(job: Job, start: Store, x: Schedule, pm: ProductMedia, again: Store)
    requires ScheduleOf(job, x)
  {
    again == Run(job, Start(job, start), x).store.(productMedia := pm)
  }

  lemma LeftStoreRepeats(job: Job, start: Store, x: Schedule, pm: ProductMedia, again: Store)
    requires DistinctAssets(job) && FreshStart(start) && ScheduleOf(job, x) && AllDone(Run(job, Start(job, start), x))
    requires LeftBy(job, start, x, pm, again)
    ensures FreshStart(again) && SameOutcomes(job, start, again)
  {
    var sys := Run(job, Start(job, start), x);
    EndOfRun(job, start, x);
    RunKeepsFresh(job, Start(job, start), x);
    StaysFresh(sys.store, again);
    forall i: nat
      ensures SameOutcome(job, start, again, i)
    {
      if i < |job.assets| {
        OutcomesRepeat(job, start, sys, again, i);
      }
    }
  }

  lemma LinksAgain(job: Job, start: Store, again: Store, x: Schedule, y: Schedule, order: seq<Id>, pm: ProductMedia, r: LinkResult)
    requires DistinctAssets(job) && FreshStart(start) && FreshStart(again) && SameOutcomes(job, start, again)
    requires ScheduleOf(job, x) && ScheduleOf(job, y) && DistinctOrder(InitialPlans(job), order)
    requires LinksTo(job, start, x, order, pm) && again.productMedia == pm && AllDone(Run(job, Start(job, again), y))
    requires r == LinkPlans(pm, Run(job, Start(job, again), y).plans, order, |order|)
    ensures r == Linked(pm)
  {
    SameLinksAgain(job, start, again, x, y, order, pm, 0);
    if r.productMedia != pm {
      var p := SomeDifference(pm, r.productMedia);
      SameLinksAgain(job, start, again, x, y, order, pm, p);
    }
  }

  /** A second import of the same assets, under any schedule and with no edits in
      between, leaves the product links as they are. */
  lemma SecondImportChangesNothing(job: Job, start: Store, x: Schedule, again: Store, y: Schedule, order: seq<Id>, pm: ProductMedia)
    requires DistinctAssets(job) && FreshStart(start) && ScheduleOf(job, x) && ScheduleOf(job, y)
    requires DistinctOrder(InitialPlans(job), order) && LinksTo(job, start, x, order, pm)
    requires LeftBy(job, start, x, pm, again) && AllDone(Run(job, Start(job, again), y))
    ensures LinksTo(job, again, y, order, pm)
  {
    LeftStoreRepeats(job, start, x, pm, again);
    LinksAgain(job, start, again, x, y, order, pm, LinkPlans(pm, Run(job, Start(job, again), y).plans, order, |order|));
  }

  lemma SomeDifference(before: ProductMedia, after: ProductMedia) returns (p: Id)
    requires after != before
    ensures !SameLinksOf(before, after, p)
  {
    var gone, added := before.Keys - after.Keys, after.Keys - before.Keys;
    var changed := set q | q in before && q in after && after[q] != before[q];
    if gone + added + changed == {} {
      assert after.Keys == before.Keys by {
        assert gone == {} && added == {};
      }
      forall q | q in before
        ensures after[q] == before[q]
      {
        assert q !in changed;
      }
    }
    p := SomeOf(gone + added + changed);
  }
}
