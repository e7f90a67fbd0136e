/** The dictionary as its users see it: which value a name resolves to. Every
    request has an exact effect on that relation, and on nothing else of it. */
module AttributeResolution {
  import opened Basics
  import opened AttributeDb
  import opened EnumMerge
  import opened EnumMergeLaws
  import opened AttributeRequests

  // ---------------------------------------------------------------- single rows

  /** A renamed value answers to the new name and to its aliases. */
  lemma RenamedValueResolves(vs: Values, als: Aliases, s: Scope, id: Id, row: EnumValue, attr: Id, n: string, x: Id)
    requires LiveValue(vs, s, row.attr, id) && row.live && row.catalog == vs[id].catalog && row.attr == vs[id].attr
    ensures Owns(vs[id := row], als, s, attr, n, x) <==>
            if x != id then Owns(vs, als, s, attr, n, x)
            else attr == row.attr && (n == row.name || HasAlias(als, s, attr, n, id))
  {
  }

  lemma NewAliasResolves(vs: Values, als: Aliases, s: Scope, a: Id, row: Alias, attr: Id, n: string, x: Id)
    requires a !in als && row.live && InScope(s, row.catalog) && LiveValue(vs, s, row.attr, row.owner)
    ensures Owns(vs, als[a := row], s, attr, n, x) <==>
            Owns(vs, als, s, attr, n, x) || (x == row.owner && attr == row.attr && n == row.name)
  {
    var d := als[a := row];
    if Owns(vs, als, s, attr, n, x) && vs[x].name != n {
      var b :| b in als && AliasRow(als, s, attr, n, b) && als[b].owner == x;
      assert AliasRow(d, s, attr, n, b) && d[b].owner == x;
    }
    if x == row.owner && attr == row.attr && n == row.name {
      assert AliasRow(d, s, attr, n, a) && d[a].owner == x;
    }
    if Owns(vs, d, s, attr, n, x) && vs[x].name != n {
      var b :| b in d && AliasRow(d, s, attr, n, b) && d[b].owner == x;
      assert b != a ==> AliasRow(als, s, attr, n, b) && als[b].owner == x;
    }
  }

  /** The name is held by some other alias row too. */
  predicate HasOtherAlias(als: Aliases, s: Scope, attr: Id, name: string, v: Id, a: Id)
  {
    exists b :: b in als && b != a && AliasRow(als, s, attr, name, b) && als[b].owner == v
  }

  lemma DeadAliasResolves(vs: Values, als: Aliases, s: Scope, a: Id, attr: Id, n: string, x: Id)
    requires a in als
    ensures var d := als[a := als[a].(live := false)];
            Owns(vs, d, s, attr, n, x) <==>
            LiveValue(vs, s, attr, x) && (vs[x].name == n || HasOtherAlias(als, s, attr, n, x, a))
  {
    var d := als[a := als[a].(live := false)];
    if b :| b in als && b != a && AliasRow(als, s, attr, n, b) && als[b].owner == x {
      assert AliasRow(d, s, attr, n, b) && d[b].owner == x;
    }
    if b :| b in d && AliasRow(d, s, attr, n, b) && d[b].owner == x {
      assert b != a && AliasRow(als, s, attr, n, b) && als[b].owner == x;
    }
  }

  // ---------------------------------------------------------------- requests

  /** Who answers to a name after a served request, in terms of who did before. */
  ghost predicate Resolves(db: Db, s: Scope, r: Request, o: Choices, attr: Id, n: string, x: Id)
    requires Allowed(db, s, r, o) && Exec(db, s, r, o).Done?
  {
    var before := Owns(db.values, db.aliases, s, attr, n, x);
    match r
    case CreateValue(_, _, _, _, _, _) => before || (x == o.newId && attr == r.attr && n == NewValueName(db, s, r))
    case UpdateValue(_, _, _, _, _, _) =>
      if x != r.id || r.newName.None? then before
      else attr == r.attr && (n == r.newName.value || HasAlias(db.aliases, s, attr, n, x))
    case RemoveValue(_, _) => before && x != r.id
    case CreateAlias(_, _, _, _) => before || (x == r.id && attr == r.attr && n == r.name)
    case RemoveAlias(_, _, _) =>
      if x != r.id || n != db.aliases[r.alias].name then before
      else LiveValue(db.values, s, attr, x) && (db.values[x].name == n || HasOtherAlias(db.aliases, s, attr, n, x, r.alias))
    case Merge(_, _, _) =>
      if attr != r.attr then before
      else x != r.id && (before || (x == r.target && Owns(db.values, db.aliases, s, attr, n, r.id)))
    case RemoveAttribute(_) => before && attr != r.id
    case CreateAttribute(_, _, _, _, _, _) => before
    case UpdateAttribute(_, _, _, _, _, _) => before
  }

  lemma UpdateValueResolves(db: Db, s: Scope, r: Request, o: Choices, attr: Id, n: string, x: Id)
    requires r.UpdateValue? && Allowed(db, s, r, o) && Exec(db, s, r, o).Done?
    ensures var d := Exec(db, s, r, o).db;
            Owns(d.values, d.aliases, s, attr, n, x) <==> Resolves(db, s, r, o, attr, n, x)
  {
    RenamedValueResolves(db.values, db.aliases, s, r.id, UpdatedValue(db.values[r.id], r), attr, n, x);
  }

  lemma RemoveAliasResolves(db: Db, s: Scope, r: Request, o: Choices, attr: Id, n: string, x: Id)
    requires r.RemoveAlias? && Allowed(db, s, r, o) && Exec(db, s, r, o).Done?
    ensures var d := Exec(db, s, r, o).db;
            Owns(d.values, d.aliases, s, attr, n, x) <==> Resolves(db, s, r, o, attr, n, x)
  {
    DeadAliasResolves(db.values, db.aliases, s, r.alias, attr, n, x);
    if x != r.id || n != db.aliases[r.alias].name {
      assert HasOtherAlias(db.aliases, s, attr, n, x, r.alias) <==> HasAlias(db.aliases, s, attr, n, x);
    }
  }

  lemma RemoveAttributeResolves(db: Db, s: Scope, r: Request, o: Choices, attr: Id, n: string, x: Id)
    requires r.RemoveAttribute? && Allowed(db, s, r, o) && Exec(db, s, r, o).Done?
    ensures var d := Exec(db, s, r, o).db;
            Owns(d.values, d.aliases, s, attr, n, x) <==> Resolves(db, s, r, o, attr, n, x)
  {
    var d := Exec(db, s, r, o).db;
    assert d.values == KillValues(db.values, r.id) && d.aliases == db.aliases;
    assert LiveValue(d.values, s, attr, x) <==> LiveValue(db.values, s, attr, x) && attr != r.id;
  }

  /** The effect of every request on name resolution in its own scope: a served
      request changes exactly the answers it is about. */
  lemma RequestsResolve(db: Db, s: Scope, r: Request, o: Choices, attr: Id, n: string, x: Id)
    requires Inv(db, s.Some?) && Allowed(db, s, r, o) && Exec(db, s, r, o).Done?
    ensures var d := Exec(db, s, r, o).db;
            Owns(d.values, d.aliases, s, attr, n, x) <==> Resolves(db, s, r, o, attr, n, x)
  {
    match r
    case CreateValue(_, _, _, _, _, _) =>
      var row := EnumValue(r.attr, s, NewValueName(db, s, r), r.title, r.business, r.source, None, true);
    case UpdateValue(_, _, _, _, _, _) => UpdateValueResolves(db, s, r, o, attr, n, x);
    case CreateAlias(_, _, _, _) =>
      NewAliasResolves(db.values, db.aliases, s, o.newId, Alias(r.attr, s, r.id, r.name, r.title, true), attr, n, x);
    case RemoveAlias(_, _, _) => RemoveAliasResolves(db, s, r, o, attr, n, x);
    case Merge(_, _, _) =>
      OwnedInScope(db.values, db.aliases, s);
      MergeCollapsesNames(db, s, r.attr, r.id, r.target, o, attr, n, x);
    case RemoveAttribute(_) => RemoveAttributeResolves(db, s, r, o, attr, n, x);
    case _ =>
  }

  /** Every answer after the request is the one its specification gives. */
  ghost predicate AnswersMove(db: Db, s: Scope, r: Request, o: Choices, d: Db)
    requires Allowed(db, s, r, o) && Exec(db, s, r, o).Done?
  {
    forall attr, n, x :: Owns(d.values, d.aliases, s, attr, n, x) <==> Resolves(db, s, r, o, attr, n, x)
  }

  lemma RequestMovesAnswers(db: Db, s: Scope, r: Request, o: Choices)
    requires Inv(db, s.Some?) && Allowed(db, s, r, o) && Exec(db, s, r, o).Done?
    ensures AnswersMove(db, s, r, o, Exec(db, s, r, o).db)
  {
    forall attr, n, x
      ensures Owns(Exec(db, s, r, o).db.values, Exec(db, s, r, o).db.aliases, s, attr, n, x) <==> Resolves(db, s, r, o, attr, n, x)
    {
      RequestsResolve(db, s, r, o, attr, n, x);
    }
  }
}
