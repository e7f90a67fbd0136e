/** Cached readers and the removal cascade. */
module AttributeViews {
  import opened AttributeDb
  import opened EnumMerge
  import opened EnumMergeLaws
  import opened AttributeRequests
  import opened AttributeLaws

  // ---------------------------------------------------------------- cache invalidation

  /** Values and aliases change only inside one attribute. */
  ghost predicate OnlyInside(vs: Values, als: Aliases, vs': Values, als': Aliases, attr: Id)
  {
    && (forall v :: v in vs && vs[v].attr != attr ==> v in vs' && vs'[v] == vs[v])
    && (forall v :: v in vs' && vs'[v].attr != attr ==> v in vs && vs'[v] == vs[v])
    && (forall a :: a in als && als[a].attr != attr ==> a in als' && als'[a] == als[a])
    && (forall a :: a in als' && als'[a].attr != attr ==> a in als && als'[a] == als[a])
  }

  lemma AliasesLookTheSame(vs: Values, als: Aliases, vs': Values, als': Aliases, attr: Id, v: Id)
    requires AliasesAttached(vs, als) && AliasesAttached(vs', als')
    requires OnlyInside(vs, als, vs', als', attr) && v in vs && vs[v].attr != attr
    ensures LiveAliasesOf(als', v) == LiveAliasesOf(als, v)
  {
    var before, after := LiveAliasesOf(als, v), LiveAliasesOf(als', v);
    forall a | a in before
      ensures a in after && after[a] == before[a]
    {
      assert als[a].attr == vs[v].attr;
    }
    forall a | a in after
      ensures a in before
    {
      assert als'[a].attr == vs'[v].attr;
    }
  }

  lemma OtherAttributesLookTheSame(vs: Values, als: Aliases, vs': Values, als': Aliases, attr: Id, s: Scope, other: Id)
    requires AliasesAttached(vs, als) && AliasesAttached(vs', als')
    requires OnlyInside(vs, als, vs', als', attr) && other != attr
    ensures LiveValuesOf(vs', als', s, other) == LiveValuesOf(vs, als, s, other)
  {
    forall v | v in vs && vs[v].attr == other
      ensures v in vs' && vs'[v] == vs[v] && LiveAliasesOf(als', v) == LiveAliasesOf(als, v)
    {
      AliasesLookTheSame(vs, als, vs', als', attr, v);
    }
    assert LiveValuesOf(vs', als', s, other).Keys == LiveValuesOf(vs, als, s, other).Keys;
  }

  /** If only one attribute's dictionary changed, only its types look different. */
  lemma DictionaryChangeIsLocal(db: Db, d: Db, attr: Id, s: Scope, t: Id)
    requires d.attributes == db.attributes && LiveAttribute(db.attributes, attr)
    requires AliasesAttached(db.values, db.aliases) && AliasesAttached(d.values, d.aliases)
    requires OnlyInside(db.values, db.aliases, d.values, d.aliases, attr)
    requires t !in db.attributes[attr].types
    ensures TypeView(d, s, t) == TypeView(db, s, t)
  {
    forall a | a in db.attributes && db.attributes[a].live && t in db.attributes[a].types
      ensures LiveValuesOf(d.values, d.aliases, s, a) == LiveValuesOf(db.values, db.aliases, s, a)
    {
      OtherAttributesLookTheSame(db.values, db.aliases, d.values, d.aliases, attr, s, a);
    }
  }

  /** If one attribute row changed, only its old and new types look different. */
  lemma AttributeChangeIsLocal(db: Db, d: Db, attr: Id, s: Scope, t: Id)
    requires d.attributes.Keys == db.attributes.Keys + {attr}
    requires forall a :: a in db.attributes && a != attr ==> d.attributes[a] == db.attributes[a]
    requires AliasesAttached(db.values, db.aliases) && AliasesAttached(d.values, d.aliases)
    requires OnlyInside(db.values, db.aliases, d.values, d.aliases, attr)
    requires LiveAttribute(db.attributes, attr) ==> t !in db.attributes[attr].types
    requires LiveAttribute(d.attributes, attr) ==> t !in d.attributes[attr].types
    ensures TypeView(d, s, t) == TypeView(db, s, t)
  {
    forall a | a in db.attributes && a != attr
      ensures LiveValuesOf(d.values, d.aliases, s, a) == LiveValuesOf(db.values, db.aliases, s, a)
    {
      OtherAttributesLookTheSame(db.values, db.aliases, d.values, d.aliases, attr, s, a);
    }
  }

  predicate OnAttribute(r: Request)
  {
    r.CreateAttribute? || r.UpdateAttribute? || r.RemoveAttribute?
  }

  lemma DictionaryRequestStaysInside(db: Db, s: Scope, r: Request, o: Choices)
    requires Allowed(db, s, r, o) && !OnAttribute(r) && Exec(db, s, r, o).Done?
    ensures var d := Exec(db, s, r, o).db;
            && d.attributes == db.attributes && LiveAttribute(db.attributes, r.attr)
            && OnlyInside(db.values, db.aliases, d.values, d.aliases, r.attr)
            && Exec(db, s, r, o).invalidated == db.attributes[r.attr].types
  {
    if r.Merge? {
      MergeStaysInside(db, s, r.attr, r.id, r.target, o);
    }
  }

  lemma MergeStaysInside(db: Db, s: Scope, attr: Id, src: Id, tgt: Id, o: Choices)
    requires ValidChoices(db, s, attr, src, tgt, o) && MergeTx(db, s, attr, src, tgt, o).Committed?
    ensures var d := MergeTx(db, s, attr, src, tgt, o).db;
            d.attributes == db.attributes && OnlyInside(db.values, db.aliases, d.values, d.aliases, attr)
  {
    MovedKeepsKeys(db.aliases, s, attr, src, tgt, o.order);
  }

  lemma CreateAttributeIsLocal(db: Db, r: Request, newId: Id, reader: Scope, t: Id)
    requires AliasesAttached(db.values, db.aliases) && r.CreateAttribute? && newId !in db.attributes
    requires ExecCreateAttribute(db, r, newId).Done? && t !in ExecCreateAttribute(db, r, newId).invalidated
    ensures TypeView(ExecCreateAttribute(db, r, newId).db, reader, t) == TypeView(db, reader, t)
  {
    AttributeChangeIsLocal(db, ExecCreateAttribute(db, r, newId).db, newId, reader, t);
  }

  lemma UpdateAttributeIsLocal(db: Db, r: Request, reader: Scope, t: Id)
    requires AliasesAttached(db.values, db.aliases) && r.UpdateAttribute?
    requires ExecUpdateAttribute(db, r).Done? && t !in ExecUpdateAttribute(db, r).invalidated
    ensures TypeView(ExecUpdateAttribute(db, r).db, reader, t) == TypeView(db, reader, t)
  {
    AttributeChangeIsLocal(db, ExecUpdateAttribute(db, r).db, r.id, reader, t);
  }

  /** The part of the cascade that readers of types see. */
  lemma CascadeInViews(db: Db, attr: Id)
    requires attr in db.attributes
    ensures var d := Cascade(db, attr);
            && d.attributes == db.attributes[attr := db.attributes[attr].(live := false)]
            && d.values == KillValues(db.values, attr) && d.aliases == db.aliases
  {
  }

  lemma KillingStaysInside(vs: Values, als: Aliases, attr: Id)
    requires AliasesAttached(vs, als)
    ensures AliasesAttached(KillValues(vs, attr), als) && OnlyInside(vs, als, KillValues(vs, attr), als, attr)
  {
  }

  lemma RemoveAttributeIsLocal(db: Db, r: Request, reader: Scope, t: Id)
    requires AliasesAttached(db.values, db.aliases) && r.RemoveAttribute?
    requires ExecRemoveAttribute(db, r).Done? && t !in ExecRemoveAttribute(db, r).invalidated
    ensures TypeView(ExecRemoveAttribute(db, r).db, reader, t) == TypeView(db, reader, t)
  {
    CascadeInViews(db, r.id);
    KillingStaysInside(db.values, db.aliases, r.id);
    AttributeChangeIsLocal(db, Cascade(db, r.id), r.id, reader, t);
  }

  lemma AttributeRequestIsLocal(db: Db, s: Scope, r: Request, o: Choices, reader: Scope, t: Id)
    requires AliasesAttached(db.values, db.aliases)
    requires Allowed(db, s, r, o) && OnAttribute(r) && Exec(db, s, r, o).Done?
    requires t !in Exec(db, s, r, o).invalidated
    ensures TypeView(Exec(db, s, r, o).db, reader, t) == TypeView(db, reader, t)
  {
    if r.CreateAttribute? {
      CreateAttributeIsLocal(db, r, o.newId, reader, t);
    } else if r.UpdateAttribute? {
      UpdateAttributeIsLocal(db, r, reader, t);
    } else {
      RemoveAttributeIsLocal(db, r, reader, t);
    }
  }

  /** Whenever a request changes what readers of a type see, in any catalog,
      that type's cache is invalidated; an update also covers the types it
      detached. */
  lemma ChangesAreInvalidated(db: Db, s: Scope, r: Request, o: Choices, reader: Scope, t: Id)
    requires Inv(db, s.Some?) && Allowed(db, s, r, o) && Exec(db, s, r, o).Done?
    requires TypeView(Exec(db, s, r, o).db, reader, t) != TypeView(db, reader, t)
    ensures t in Exec(db, s, r, o).invalidated
  {
    var reply := Exec(db, s, r, o);
    if t !in reply.invalidated {
      if OnAttribute(r) {
        AttributeRequestIsLocal(db, s, r, o, reader, t);
      } else {
        StepKeepsInv(db, s, r, o);
        DictionaryRequestStaysInside(db, s, r, o);
        DictionaryChangeIsLocal(db, reply.db, r.attr, reader, t);
      }
    }
  }

  /** What readers of a type see: its live attributes, and with each its live
      values in the reader's catalog with their live aliases. */
  lemma TypeViewShows(db: Db, s: Scope, t: Id, a: Id)
    ensures a in TypeView(db, s, t) <==> a in db.attributes && db.attributes[a].live && t in db.attributes[a].types
    ensures a in TypeView(db, s, t) ==> TypeView(db, s, t)[a].row == db.attributes[a]
    ensures a in TypeView(db, s, t) ==>
      forall v :: v in TypeView(db, s, t)[a].values <==>
        v in db.values && db.values[v].live && db.values[v].attr == a && (s.Some? ==> db.values[v].catalog == s)
    ensures a in TypeView(db, s, t) ==>
      forall v :: v in TypeView(db, s, t)[a].values ==> TypeView(db, s, t)[a].values[v].row == db.values[v]
    ensures a in TypeView(db, s, t) ==>
      forall v, x :: v in TypeView(db, s, t)[a].values ==>
        (x in TypeView(db, s, t)[a].values[v].aliases <==> x in db.aliases && db.aliases[x].live && db.aliases[x].owner == v)
    ensures a in TypeView(db, s, t) ==>
      forall v, x :: v in TypeView(db, s, t)[a].values && x in TypeView(db, s, t)[a].values[v].aliases ==>
        TypeView(db, s, t)[a].values[v].aliases[x] == db.aliases[x]
  {
  }

  // ---------------------------------------------------------------- versions over runs

  type Versions = map<Id, nat>

  function VersionOf(versions: Versions, t: Id): nat
  {
    if t in versions then versions[t] else 0
  }

  function Bumped(versions: Versions, types: set<Id>): Versions
  {
    map t | t in versions.Keys + types :: VersionOf(versions, t) + (if t in types then 1 else 0)
  }

  /** The given types go up by one, no other changes. */
  lemma BumpedMeans(versions: Versions, types: set<Id>, t: Id)
    ensures var d := Bumped(versions, types);
            && (t in types ==> t in d && d[t] == (if t in versions then versions[t] else 0) + 1)
            && (t !in types ==> (t in d <==> t in versions) && (t in versions ==> d[t] == versions[t]))
  {
  }

  function VersionsAfter(versions: Versions, reply: Reply): Versions
  {
    if reply.Done? then Bumped(versions, reply.invalidated) else versions
  }

  ghost function RunVersions(db: Db, versions: Versions, events: seq<Event>): Versions
    requires ValidRun(db, events)
    decreases |events|
  {
    if events == [] then versions
    else
      var reply := Exec(db, events[0].scope, events[0].request, events[0].choices);
      RunVersions(After(db, reply), VersionsAfter(versions, reply), events[1..])
  }

  lemma {:induction false} VersionsOnlyGrow(db: Db, versions: Versions, events: seq<Event>, t: Id)
    requires ValidRun(db, events)
    ensures VersionOf(versions, t) <= VersionOf(RunVersions(db, versions, events), t)
    decreases |events|
  {
    if events != [] {
      var reply := Exec(db, events[0].scope, events[0].request, events[0].choices);
      VersionsOnlyGrow(After(db, reply), VersionsAfter(versions, reply), events[1..], t);
    }
  }

  /** What was cached under a version stays right as long as the version does:
      in every run, a type whose version is the same at the end looks the same
      to every reader, whatever happened in between. */
  lemma {:induction false} SameVersionSameView(db: Db, versions: Versions, events: seq<Event>, tenant: bool, reader: Scope, t: Id)
    requires Inv(db, tenant) && ValidRun(db, events) && UniformScope(events, tenant)
    requires VersionOf(RunVersions(db, versions, events), t) == VersionOf(versions, t)
    ensures TypeView(Run(db, events), reader, t) == TypeView(db, reader, t)
    decreases |events|
  {
    if events != [] {
      var e := events[0];
      var reply := Exec(db, e.scope, e.request, e.choices);
      var next, bumped := After(db, reply), VersionsAfter(versions, reply);
      VersionsOnlyGrow(next, bumped, events[1..], t);
      assert e.scope.Some? == tenant;
      StepKeepsInv(db, e.scope, e.request, e.choices);
      SameVersionSameView(next, bumped, events[1..], tenant, reader, t);
      if TypeView(next, reader, t) != TypeView(db, reader, t) {
        ChangesAreInvalidated(db, e.scope, e.request, e.choices, reader, t);
      }
    }
  }

  // ---------------------------------------------------------------- the removal cascade

  /** Removing an attribute leaves no enum value and no product attribute of it
      alive; removing a variant attribute leaves no variant attribute row
      either and no variant that used it, and spares all other variants. */
  lemma RemovalLeavesNothing(db: Db, attr: Id)
    requires LiveAttribute(db.attributes, attr)
    ensures var d := Cascade(db, attr);
            && !LiveAttribute(d.attributes, attr)
            && (forall v :: v in d.values && d.values[v].attr == attr ==> !d.values[v].live)
            && (forall p :: p in d.productAttributes && d.productAttributes[p].attr == attr ==> !d.productAttributes[p].live)
    ensures var d := Cascade(db, attr);
            db.attributes[attr].isVariant ==>
              && (forall p :: p in d.variantAttributes && d.variantAttributes[p].attr == attr ==> !d.variantAttributes[p].live)
              && (forall p :: p in db.variantAttributes && LiveRowOf(db, attr, p) && db.variantAttributes[p].variant in db.variants ==>
                    !d.variants[db.variantAttributes[p].variant].live)
              && (forall v :: v in db.variants && (forall p :: LiveRowOf(db, attr, p) ==> db.variantAttributes[p].variant != v) ==>
                    v in d.variants && d.variants[v] == db.variants[v])
  {
    var d := Cascade(db, attr);
    assert d.values == KillValues(db.values, attr);
    assert d.productAttributes == KillProductAttributes(db.productAttributes, attr);
  }

  ghost predicate LiveRowOf(db: Db, attr: Id, p: Id)
  {
    p in db.variantAttributes && db.variantAttributes[p].live && db.variantAttributes[p].attr == attr
  }

  /** Rows that die lose nothing else. */
  lemma RemovalOnlyMarks(db: Db, attr: Id)
    requires LiveAttribute(db.attributes, attr)
    ensures var d := Cascade(db, attr);
            && d.attributes.Keys == db.attributes.Keys && d.values.Keys == db.values.Keys
            && d.attributes[attr] == db.attributes[attr].(live := false)
            && (forall v :: v in db.values ==> d.values[v] == db.values[v].(live := d.values[v].live))
    ensures var d := Cascade(db, attr);
            && d.productAttributes.Keys == db.productAttributes.Keys && d.variantAttributes.Keys == db.variantAttributes.Keys
            && d.variants.Keys == db.variants.Keys
            && (forall p :: p in db.productAttributes ==>
                  d.productAttributes[p] == db.productAttributes[p].(live := d.productAttributes[p].live))
            && (forall p :: p in db.variantAttributes ==>
                  d.variantAttributes[p] == db.variantAttributes[p].(live := d.variantAttributes[p].live))
            && (forall v :: v in db.variants ==> d.variants[v] == db.variants[v].(live := d.variants[v].live))
  {
    var d := Cascade(db, attr);
    assert d.values == KillValues(db.values, attr);
    assert d.productAttributes == KillProductAttributes(db.productAttributes, attr);
  }

  /** The order matters: were the attribute rows marked first, the filter on
      live rows would spare every variant. */
  lemma RowsFirstSparesVariants(db: Db, attr: Id)
    ensures KillVariants(db.variants, KillVariantAttributes(db.variantAttributes, attr), attr) == db.variants
  {
  }

  // ---------------------------------------------------------------- generated names

  /** A generated name never runs into the unique index: the generator also
      avoids the names of deleted values, which an explicit name may hit. */
  lemma GeneratedNameFitsIndex(db: Db, s: Scope, r: Request, newId: Id)
    requires r.CreateValue? && r.name == ""
    ensures ExecCreateValue(db, s, r, newId) != Refused(UniqueIndexViolation)
  {
  }
}
