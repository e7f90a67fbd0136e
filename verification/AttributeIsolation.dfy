/** What a request never touches: other catalogs, imported values, and on
    removal everything of other attributes. */
module AttributeIsolation {
  import opened Basics
  import opened AttributeDb
  import opened EnumMerge
  import opened AttributeRequests

  // ---------------------------------------------------------------- other catalogs

  ghost predicate OtherValuesKept(vs: Values, vs': Values, c: Id)
  {
    forall v :: v in vs && vs[v].catalog != Some(c) ==> v in vs' && vs'[v] == vs[v]
  }

  ghost predicate OtherAliasesKept(als: Aliases, als': Aliases, c: Id)
  {
    forall a :: a in als && als[a].catalog != Some(c) ==> a in als' && als'[a] == als[a]
  }

  /** Product and variant rows outside catalog c. */
  ghost predicate OtherReferencesKept(db: Db, d: Db, c: Id)
  {
    && d.products == db.products && d.variants == db.variants
    && (forall p :: p in db.productAttributes && !OfCatalog(db, db.productAttributes[p].product, c) ==>
          p in d.productAttributes && d.productAttributes[p] == db.productAttributes[p])
    && (forall p :: p in db.variantAttributes && !VariantOfCatalog(db, db.variantAttributes[p].variant, c) ==>
          p in d.variantAttributes && d.variantAttributes[p] == db.variantAttributes[p])
  }

  predicate OfCatalog(db: Db, product: Id, c: Id)
  {
    product in db.products && db.products[product] == c
  }

  predicate VariantOfCatalog(db: Db, variant: Id, c: Id)
  {
    variant in db.variants && OfCatalog(db, db.variants[variant].product, c)
  }

  ghost predicate OtherCatalogsKept(db: Db, d: Db, c: Id)
  {
    OtherValuesKept(db.values, d.values, c) && OtherAliasesKept(db.aliases, d.aliases, c) && OtherReferencesKept(db, d, c)
  }

  lemma MergeAliasesStayInCatalog(db: Db, c: Id, attr: Id, src: Id, tgt: Id, o: Choices)
    requires ValidChoices(db, Some(c), attr, src, tgt, o) && MergeTx(db, Some(c), attr, src, tgt, o).Committed?
    ensures OtherAliasesKept(db.aliases, MergeTx(db, Some(c), attr, src, tgt, o).db.aliases, c)
  {
    var als := db.aliases;
    var moved := MoveAliases(als, Some(c), attr, tgt, o.order);
    MoveAliasesFrame(als, Some(c), attr, tgt, o.order);
    assert OtherAliasesKept(als, moved, c);
  }

  lemma MergeStaysInCatalog(db: Db, c: Id, attr: Id, src: Id, tgt: Id, o: Choices)
    requires ValidChoices(db, Some(c), attr, src, tgt, o) && MergeTx(db, Some(c), attr, src, tgt, o).Committed?
    ensures OtherCatalogsKept(db, MergeTx(db, Some(c), attr, src, tgt, o).db, c)
  {
    MergeAliasesStayInCatalog(db, c, attr, src, tgt, o);
  }

  /** A request made in catalog c changes no value, alias or reference of
      another catalog; only attributes themselves are shared between catalogs. */
  lemma RequestsStayInCatalog(db: Db, c: Id, r: Request, o: Choices)
    requires Allowed(db, Some(c), r, o) && !r.RemoveAttribute?
    ensures OtherCatalogsKept(db, After(db, Exec(db, Some(c), r, o)), c)
  {
    if r.Merge? && Exec(db, Some(c), r, o).Done? {
      MergeStaysInCatalog(db, c, r.attr, r.id, r.target, o);
    }
  }

  /** Every request comes from another catalog and none removes an attribute. */
  ghost predicate AllElsewhere(events: seq<Event>, c: Id)
  {
    forall i :: 0 <= i < |events| ==>
      events[i].scope.Some? && events[i].scope.value != c && !events[i].request.RemoveAttribute?
  }

  ghost predicate CatalogKept(db: Db, d: Db, c: Id)
  {
    && (forall v :: v in db.values && db.values[v].catalog == Some(c) ==> v in d.values && d.values[v] == db.values[v])
    && (forall a :: a in db.aliases && db.aliases[a].catalog == Some(c) ==> a in d.aliases && d.aliases[a] == db.aliases[a])
  }

  /** However long other catalogs keep working, the dictionary of catalog c stays as it is. */
  lemma {:induction false} OthersCannotReach(db: Db, events: seq<Event>, c: Id)
    requires ValidRun(db, events) && AllElsewhere(events, c)
    ensures CatalogKept(db, Run(db, events), c)
    decreases |events|
  {
    if events != [] {
      var e := events[0];
      var next := After(db, Exec(db, e.scope, e.request, e.choices));
      RequestsStayInCatalog(db, e.scope.value, e.request, e.choices);
      assert CatalogKept(db, next, c);
      OthersCannotReach(next, events[1..], c);
    }
  }

  // ---------------------------------------------------------------- imported values

  ghost predicate Imported(vs: Values, v: Id)
  {
    v in vs && vs[v].live && vs[v].source == IMPORTED
  }

  /** The row is the same but for its display name. */
  ghost predicate OnlyRetitled(vs: Values, vs': Values, v: Id)
    requires v in vs
  {
    v in vs' && vs'[v] == vs[v].(title := vs'[v].title)
  }

  /** No request but the removal of its attribute changes more of an imported
      value than its display name. */
  lemma ImportedValuesAreProtected(db: Db, s: Scope, r: Request, o: Choices, v: Id)
    requires Allowed(db, s, r, o) && !r.RemoveAttribute? && Imported(db.values, v)
    ensures OnlyRetitled(db.values, After(db, Exec(db, s, r, o)).values, v)
  {
  }

  lemma {:induction false} ImportedValuesStay(db: Db, events: seq<Event>, v: Id)
    requires ValidRun(db, events) && Imported(db.values, v)
    requires forall i :: 0 <= i < |events| ==> !events[i].request.RemoveAttribute?
    ensures OnlyRetitled(db.values, Run(db, events).values, v)
    decreases |events|
  {
    if events != [] {
      var e := events[0];
      var next := After(db, Exec(db, e.scope, e.request, e.choices));
      ImportedValuesAreProtected(db, e.scope, e.request, e.choices, v);
      ImportedValuesStay(next, events[1..], v);
    }
  }

  // ---------------------------------------------------------------- removal

  ghost predicate OtherRowsKept(db: Db, d: Db, attr: Id)
  {
    && (forall a :: a in db.attributes && a != attr ==> a in d.attributes && d.attributes[a] == db.attributes[a])
    && (forall v :: v in db.values && db.values[v].attr != attr ==> v in d.values && d.values[v] == db.values[v])
    && (forall p :: p in db.productAttributes && db.productAttributes[p].attr != attr ==>
          p in d.productAttributes && d.productAttributes[p] == db.productAttributes[p])
    && (forall p :: p in db.variantAttributes && db.variantAttributes[p].attr != attr ==>
          p in d.variantAttributes && d.variantAttributes[p] == db.variantAttributes[p])
  }

  /** A removal leaves every row of another attribute as it was, and an
      attribute that is no variant attribute takes no variant with it. */
  lemma RemovalSparesOthers(db: Db, attr: Id)
    requires attr in db.attributes
    ensures var d := Cascade(db, attr);
            && OtherRowsKept(db, d, attr)
            && d.types == db.types && d.aliases == db.aliases && d.products == db.products
            && (!db.attributes[attr].isVariant ==> d.variants == db.variants && d.variantAttributes == db.variantAttributes)
  {
    var d := Cascade(db, attr);
    assert d.values == KillValues(db.values, attr);
    assert d.productAttributes == KillProductAttributes(db.productAttributes, attr);
    assert d.variantAttributes == KillVariantAttributes(db.variantAttributes, attr) || d.variantAttributes == db.variantAttributes;
  }
}
