/** What stays of a value for good: deleted rows never change again, so a merge
    can be followed however long ago it was. */
module AttributeHistory {
  import opened Basics
  import opened AttributeDb
  import opened EnumMerge
  import opened EnumMergeLaws
  import opened AttributeRequests

  ghost predicate DeadRowsKept(vs: Values, vs': Values)
  {
    forall v :: v in vs && !vs[v].live ==> v in vs' && vs'[v] == vs[v]
  }

  /** No request touches a deleted value. */
  lemma RequestsKeepDeadRows(db: Db, s: Scope, r: Request, o: Choices)
    requires Allowed(db, s, r, o)
    ensures DeadRowsKept(db.values, After(db, Exec(db, s, r, o)).values)
  {
  }

  lemma {:induction false} RunsKeepDeadRows(db: Db, events: seq<Event>)
    requires ValidRun(db, events)
    ensures DeadRowsKept(db.values, Run(db, events).values)
    decreases |events|
  {
    if events != [] {
      var e := events[0];
      RequestsKeepDeadRows(db, e.scope, e.request, e.choices);
      RunsKeepDeadRows(After(db, Exec(db, e.scope, e.request, e.choices)), events[1..]);
    }
  }

  /** Once a merge was served, following the links from its source starts at its
      target, whatever requests come later. */
  lemma MergedValueLeadsToTarget(db: Db, e: Event, later: seq<Event>)
    requires e.request.Merge? && Allowed(db, e.scope, e.request, e.choices)
    requires Exec(db, e.scope, e.request, e.choices).Done? && ValidRun(db, [e] + later)
    ensures var vs := Run(db, [e] + later).values;
            && e.request.id in vs && !vs[e.request.id].live && vs[e.request.id].mergedInto == Some(e.request.target)
            && (forall p :: MergePath(vs, p) && |p| > 1 && p[0] == e.request.id ==> p[1] == e.request.target)
  {
    var next := After(db, Exec(db, e.scope, e.request, e.choices));
    MergePointsAtTarget(db, e.scope, e.request.attr, e.request.id, e.request.target, e.choices);
    assert ([e] + later)[0] == e && ([e] + later)[1..] == later;
    RunsKeepDeadRows(next, later);
  }
}
