/** What every run of attribute requests keeps. */
module AttributeLaws {
  import opened Basics
  import opened AttributeDb
  import opened EnumMerge
  import opened EnumMergeLaws
  import opened AttributeRequests

  // ---------------------------------------------------------------- names

  /** Writing one value row keeps single ownership if nobody else answers to
      the row's name. */
  lemma PutValueKeepsNames(vs: Values, als: Aliases, s: Scope, v: Id, row: EnumValue)
    requires AliasesAttached(vs, als) && NamesOwned(vs, als, s)
    requires v in vs ==> vs[v].attr == row.attr && vs[v].catalog == row.catalog && vs[v].live == row.live
    requires forall w :: Owns(vs, als, s, row.attr, row.name, w) && InScope(s, row.catalog) ==> w == v
    ensures NamesOwned(vs[v := row], als, s)
  {
    var vs' := vs[v := row];
    forall attr, n, x, y | Owns(vs', als, s, attr, n, x) && Owns(vs', als, s, attr, n, y)
      ensures x == y
    {
      assert x != v ==> Owns(vs, als, s, attr, n, x);
      assert y != v ==> Owns(vs, als, s, attr, n, y);
      if v in vs && n != row.name {
        assert x == v ==> Owns(vs, als, s, attr, n, x);
        assert y == v ==> Owns(vs, als, s, attr, n, y);
      }
    }
  }

  lemma PutAliasKeepsNames(vs: Values, als: Aliases, s: Scope, a: Id, row: Alias)
    requires NamesOwned(vs, als, s) && a !in als
    requires forall w :: Owns(vs, als, s, row.attr, row.name, w) && InScope(s, row.catalog) ==> w == row.owner
    ensures NamesOwned(vs, als[a := row], s)
  {
    var als' := als[a := row];
    forall attr, n, x, y | Owns(vs, als', s, attr, n, x) && Owns(vs, als', s, attr, n, y)
      ensures x == y
    {
      OldOrNewOwner(vs, als, s, a, row, attr, n, x);
      OldOrNewOwner(vs, als, s, a, row, attr, n, y);
    }
  }

  lemma OldOrNewOwner(vs: Values, als: Aliases, s: Scope, a: Id, row: Alias, attr: Id, n: string, x: Id)
    requires a !in als && Owns(vs, als[a := row], s, attr, n, x)
    ensures || Owns(vs, als, s, attr, n, x)
            || (x == row.owner && attr == row.attr && n == row.name && InScope(s, row.catalog))
  {
  }

  /** Rows that only die take names away, never add them. */
  ghost predicate OnlyDie(vs: Values, als: Aliases, vs': Values, als': Aliases)
  {
    && (forall v :: v in vs' && vs'[v].live ==> v in vs && vs[v] == vs'[v])
    && (forall a :: a in als' && als'[a].live ==> a in als && als[a] == als'[a])
  }

  lemma DyingKeepsNames(vs: Values, als: Aliases, vs': Values, als': Aliases, tenant: bool)
    requires NamesOwnedOnce(vs, als, tenant) && OnlyDie(vs, als, vs', als')
    ensures NamesOwnedOnce(vs', als', tenant)
  {
    forall s: Scope, attr, n, v | Owns(vs', als', s, attr, n, v)
      ensures Owns(vs, als, s, attr, n, v)
    {
      if vs'[v].name != n {
        var a :| a in als' && AliasRow(als', s, attr, n, a) && als'[a].owner == v;
        assert AliasRow(als, s, attr, n, a);
      }
    }
  }

  lemma PutValueKeepsAllNames(vs: Values, als: Aliases, s: Scope, v: Id, row: EnumValue)
    requires AliasesAttached(vs, als) && NamesOwnedOnce(vs, als, s.Some?)
    requires v in vs ==> vs[v].attr == row.attr && vs[v].catalog == row.catalog && vs[v].live == row.live
    requires InScope(s, row.catalog) && !Taken(vs, als, s, row.attr, row.name, if v in vs then Some(v) else None)
    ensures NamesOwnedOnce(vs[v := row], als, s.Some?)
  {
    TakenIffOwned(vs, als, s, row.attr, row.name, if v in vs then Some(v) else None);
    OwnedInScope(vs, als, s);
    PutValueKeepsNames(vs, als, s, v, row);
    if s.Some? {
      forall c: Id
        ensures NamesOwned(vs[v := row], als, Some(c))
      {
        if Some(c) != s {
          PutValueKeepsNames(vs, als, Some(c), v, row);
        }
      }
    }
  }

  lemma PutAliasKeepsAllNames(vs: Values, als: Aliases, s: Scope, a: Id, row: Alias)
    requires AliasesAttached(vs, als) && NamesOwnedOnce(vs, als, s.Some?)
    requires a !in als && row.catalog == s && !Taken(vs, als, s, row.attr, row.name, None)
    ensures NamesOwnedOnce(vs, als[a := row], s.Some?)
  {
    TakenIffOwned(vs, als, s, row.attr, row.name, None);
    OwnedInScope(vs, als, s);
    PutAliasKeepsNames(vs, als, s, a, row);
    if s.Some? {
      forall c: Id
        ensures NamesOwned(vs, als[a := row], Some(c))
      {
        if Some(c) != s {
          PutAliasKeepsNames(vs, als, Some(c), a, row);
        }
      }
    }
  }

  // ---------------------------------------------------------------- rows and links

  /** Rows change without touching keys, owners or links. */
  lemma SameKeysKeepRows(vs: Values, als: Aliases, vs': Values, als': Aliases)
    requires AliasesAttached(vs, als) && ValuesIndexed(vs) && AliasesIndexed(als)
    requires LinksPlaced(vs) && LinksAcyclic(vs)
    requires vs'.Keys == vs.Keys && als'.Keys == als.Keys
    requires forall v :: v in vs ==>
      && vs'[v].attr == vs[v].attr && vs'[v].catalog == vs[v].catalog && vs'[v].name == vs[v].name
      && vs'[v].mergedInto == vs[v].mergedInto && (vs'[v].live ==> vs[v].live)
    requires forall a :: a in als ==>
      als'[a].attr == als[a].attr && als'[a].catalog == als[a].catalog && als'[a].name == als[a].name && als'[a].owner == als[a].owner
    ensures AliasesAttached(vs', als') && ValuesIndexed(vs') && AliasesIndexed(als')
    ensures LinksPlaced(vs') && LinksAcyclic(vs')
  {
    forall v, w | v in vs' && w in vs' && SameValueKey(vs'[v], vs'[w])
      ensures v == w
    {
      assert SameValueKey(vs[v], vs[w]);
    }
    forall a, b | a in als' && b in als' && SameAliasKey(als'[a], als'[b])
      ensures a == b
    {
      assert SameAliasKey(als[a], als[b]);
    }
    var rank :| Climbs(vs, rank);
    assert Climbs(vs', rank);
  }

  lemma PutValueKeepsRows(vs: Values, als: Aliases, v: Id, row: EnumValue)
    requires AliasesAttached(vs, als) && ValuesIndexed(vs) && LinksPlaced(vs) && LinksAcyclic(vs)
    requires if v in vs then vs[v].attr == row.attr && vs[v].mergedInto == row.mergedInto && vs[v].live == row.live
             else row.mergedInto.None?
    requires ValueIndexFree(vs, row.attr, row.catalog, row.name, if v in vs then Some(v) else None)
    ensures AliasesAttached(vs[v := row], als) && ValuesIndexed(vs[v := row])
    ensures LinksPlaced(vs[v := row]) && LinksAcyclic(vs[v := row])
  {
    var vs' := vs[v := row];
    forall x, y | x in vs' && y in vs' && SameValueKey(vs'[x], vs'[y])
      ensures x == y
    {
      if x != v && y != v {
        assert SameValueKey(vs[x], vs[y]);
      }
    }
    var rank :| Climbs(vs, rank);
    var rank' := if v in vs then rank else rank[v := 0];
    assert Climbs(vs', rank');
  }

  // ---------------------------------------------------------------- attribute keys

  lemma PutAttributeKeepsKeys(ats: Attributes, id: Id, row: Attribute)
    requires KeysDistinct(ats) && VariantsAreEnum(ats)
    requires row.live ==> !KeyTaken(ats, row.types, row.key, Some(id)) && VariantRules(row.dataType, row.isVariant)
    ensures KeysDistinct(ats[id := row]) && VariantsAreEnum(ats[id := row])
  {
  }

  // ---------------------------------------------------------------- each request keeps the invariant

  lemma CreateAttributeKeepsInv(db: Db, r: Request, newId: Id, tenant: bool)
    requires Inv(db, tenant) && r.CreateAttribute? && newId !in db.attributes
    ensures Inv(After(db, ExecCreateAttribute(db, r, newId)), tenant)
  {
  }

  lemma UpdateAttributeKeepsInv(db: Db, r: Request, tenant: bool)
    requires Inv(db, tenant) && r.UpdateAttribute?
    ensures Inv(After(db, ExecUpdateAttribute(db, r)), tenant)
  {
  }

  lemma RemoveAttributeKeepsInv(db: Db, r: Request, tenant: bool)
    requires Inv(db, tenant) && r.RemoveAttribute?
    ensures Inv(After(db, ExecRemoveAttribute(db, r)), tenant)
  {
    var reply := ExecRemoveAttribute(db, r);
    if reply.Done? {
      PutAttributeKeepsKeys(db.attributes, r.id, db.attributes[r.id].(live := false));
      KillValuesKeeps(db.values, db.aliases, r.id, tenant);
    }
  }

  lemma KillValuesKeeps(vs: Values, als: Aliases, attr: Id, tenant: bool)
    requires AliasesAttached(vs, als) && ValuesIndexed(vs) && AliasesIndexed(als)
    requires LinksPlaced(vs) && LinksAcyclic(vs) && NamesOwnedOnce(vs, als, tenant)
    ensures var d := KillValues(vs, attr);
            && AliasesAttached(d, als) && ValuesIndexed(d) && AliasesIndexed(als)
            && LinksPlaced(d) && LinksAcyclic(d) && NamesOwnedOnce(d, als, tenant)
  {
    SameKeysKeepRows(vs, als, KillValues(vs, attr), als);
    DyingKeepsNames(vs, als, KillValues(vs, attr), als, tenant);
  }

  lemma CreateValueKeepsInv(db: Db, s: Scope, r: Request, newId: Id)
    requires Inv(db, s.Some?) && r.CreateValue? && newId !in db.values
    ensures Inv(After(db, ExecCreateValue(db, s, r, newId)), s.Some?)
  {
    var reply := ExecCreateValue(db, s, r, newId);
    if reply.Done? {
      PutValueKeepsAllNames(db.values, db.aliases, s, newId, reply.db.values[newId]);
      PutValueKeepsRows(db.values, db.aliases, newId, reply.db.values[newId]);
    }
  }

  lemma UpdateValueKeepsInv(db: Db, s: Scope, r: Request)
    requires Inv(db, s.Some?) && r.UpdateValue?
    ensures Inv(After(db, ExecUpdateValue(db, s, r)), s.Some?)
  {
    var reply := ExecUpdateValue(db, s, r);
    if reply.Done? {
      var vs, als := db.values, db.aliases;
      var row := UpdatedValue(vs[r.id], r);
      if r.newName.None? {
        OwnNameIsFree(vs, als, s, r.attr, r.id);
      }
      PutValueKeepsAllNames(vs, als, s, r.id, row);
      PutValueKeepsRows(vs, als, r.id, row);
    }
  }

  lemma OwnNameIsFree(vs: Values, als: Aliases, s: Scope, attr: Id, v: Id)
    requires AliasesAttached(vs, als) && NamesOwnedOnce(vs, als, s.Some?) && LiveValue(vs, s, attr, v)
    ensures !Taken(vs, als, s, attr, vs[v].name, Some(v))
  {
    OwnedInScope(vs, als, s);
    TakenIffOwned(vs, als, s, attr, vs[v].name, Some(v));
    assert Owns(vs, als, s, attr, vs[v].name, v);
  }

  lemma RemoveValueKeepsInv(db: Db, s: Scope, r: Request)
    requires Inv(db, s.Some?) && r.RemoveValue?
    ensures Inv(After(db, ExecRemoveValue(db, s, r)), s.Some?)
  {
    var reply := ExecRemoveValue(db, s, r);
    if reply.Done? {
      SameKeysKeepRows(db.values, db.aliases, reply.db.values, reply.db.aliases);
      DyingKeepsNames(db.values, db.aliases, reply.db.values, reply.db.aliases, s.Some?);
    }
  }

  lemma CreateAliasKeepsInv(db: Db, s: Scope, r: Request, newId: Id)
    requires Inv(db, s.Some?) && r.CreateAlias? && newId !in db.aliases
    ensures Inv(After(db, ExecCreateAlias(db, s, r, newId)), s.Some?)
  {
    var reply := ExecCreateAlias(db, s, r, newId);
    if reply.Done? {
      PutAliasKeepsAllNames(db.values, db.aliases, s, newId, reply.db.aliases[newId]);
    }
  }

  lemma RemoveAliasKeepsInv(db: Db, s: Scope, r: Request)
    requires Inv(db, s.Some?) && r.RemoveAlias?
    ensures Inv(After(db, ExecRemoveAlias(db, s, r)), s.Some?)
  {
    var reply := ExecRemoveAlias(db, s, r);
    if reply.Done? {
      SameKeysKeepRows(db.values, db.aliases, reply.db.values, reply.db.aliases);
      DyingKeepsNames(db.values, db.aliases, reply.db.values, reply.db.aliases, s.Some?);
    }
  }

  lemma StepKeepsInv(db: Db, s: Scope, r: Request, o: Choices)
    requires Inv(db, s.Some?) && Allowed(db, s, r, o)
    ensures Inv(After(db, Exec(db, s, r, o)), s.Some?)
  {
    match r
    case CreateAttribute(_, _, _, _, _, _) => CreateAttributeKeepsInv(db, r, o.newId, s.Some?);
    case UpdateAttribute(_, _, _, _, _, _) => UpdateAttributeKeepsInv(db, r, s.Some?);
    case RemoveAttribute(_) => RemoveAttributeKeepsInv(db, r, s.Some?);
    case CreateValue(_, _, _, _, _, _) => CreateValueKeepsInv(db, s, r, o.newId);
    case UpdateValue(_, _, _, _, _, _) => UpdateValueKeepsInv(db, s, r);
    case RemoveValue(_, _) => RemoveValueKeepsInv(db, s, r);
    case CreateAlias(_, _, _, _) => CreateAliasKeepsInv(db, s, r, o.newId);
    case RemoveAlias(_, _, _) => RemoveAliasKeepsInv(db, s, r);
    case Merge(_, _, _) =>
      if ExecMerge(db, s, r, o).Done? {
        MergeKeepsInv(db, s, r.attr, r.id, r.target, o);
      }
  }

  /** Over every run whose requests all carry a catalog (any mix of catalogs),
      and over every run whose requests carry none: each name keeps at most one
      owner, merge links stay acyclic, keys stay distinct within a type and
      variant attributes stay ENUM. */
  lemma {:induction false} RunKeepsInv(db: Db, events: seq<Event>, tenant: bool)
    requires Inv(db, tenant) && ValidRun(db, events) && UniformScope(events, tenant)
    ensures Inv(Run(db, events), tenant)
    decreases |events|
  {
    if events != [] {
      var e := events[0];
      StepKeepsInv(db, e.scope, e.request, e.choices);
      RunKeepsInv(After(db, Exec(db, e.scope, e.request, e.choices)), events[1..], tenant);
    }
  }

  /** The empty dictionary satisfies the invariant, so every run from it does. */
  lemma EmptyDictionary(types: set<Id>, tenant: bool)
    ensures Inv(Db(types, map[], map[], map[], map[], map[], map[], map[]), tenant)
  {
    var none: Values := map[];
    assert Climbs(none, map[]);
  }
}
