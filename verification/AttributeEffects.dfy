/** Which requests are served, which refusals mean what, and what a served
    request writes, field by field. */
module AttributeEffects {
  import opened Basics
  import opened UniqueKey
  import opened AttributeDb
  import opened EnumMerge
  import opened EnumMergeLaws
  import opened AttributeRequests

  // ---------------------------------------------------------------- who is in the way

  ghost predicate SomeoneOwns(db: Db, s: Scope, attr: Id, name: string, but: Option<Id>)
  {
    exists v :: Owns(db.values, db.aliases, s, attr, name, v) && but != Some(v)
  }

  /** A value row of the catalog, deleted or not, that holds the name. */
  ghost predicate ValueRowHolds(db: Db, catalog: Option<Id>, attr: Id, name: string, but: Option<Id>)
  {
    catalog.Some? &&
    exists v :: v in db.values && but != Some(v) && db.values[v].attr == attr && db.values[v].catalog == catalog && db.values[v].name == name
  }

  ghost predicate AliasRowHolds(db: Db, catalog: Option<Id>, attr: Id, name: string)
  {
    catalog.Some? &&
    exists a :: a in db.aliases && db.aliases[a].attr == attr && db.aliases[a].catalog == catalog && db.aliases[a].name == name
  }

  /** A live attribute with the key shares a type. */
  ghost predicate KeyInUse(db: Db, types: set<Id>, key: string, but: Option<Id>)
  {
    exists a :: a in db.attributes && db.attributes[a].live && db.attributes[a].key == key && but != Some(a)
                && db.attributes[a].types * types != {}
  }

  ghost predicate EnumLive(db: Db, attr: Id)
  {
    attr in db.attributes && db.attributes[attr].live && db.attributes[attr].dataType == ENUM
  }

  ghost predicate ValueLive(db: Db, s: Scope, attr: Id, v: Id)
  {
    && v in db.values && db.values[v].live && db.values[v].attr == attr
    && (s.Some? ==> db.values[v].catalog == s)
  }

  // ---------------------------------------------------------------- who is served

  ghost predicate CreateAttributeServed(db: Db, r: Request)
    requires r.CreateAttribute?
  {
    && (r.isVariant ==> r.dataType == ENUM) && r.types != {} && r.types <= db.types
    && (r.key != "" ==> !KeyInUse(db, r.types, r.key, None))
  }

  lemma CreateAttributeServedIff(db: Db, s: Scope, r: Request, o: Choices)
    requires r.CreateAttribute? && Allowed(db, s, r, o)
    ensures Exec(db, s, r, o).Done? <==> CreateAttributeServed(db, r)
  {
  }

  /** The final key, data type and variant flag decide, each only if touched. */
  ghost predicate UpdateAttributeServed(db: Db, r: Request)
    requires r.UpdateAttribute?
  {
    && (r.newKey.Some? || r.newTypes.Some? || r.newDataType.Some? || r.newVariant.Some? || r.newTitle.Some?)
    && r.newTypes != Some({}) && r.id in db.attributes && db.attributes[r.id].live
    && var row := db.attributes[r.id];
       var key := if r.newKey.Some? then r.newKey.value else row.key;
       var types := if r.newTypes.Some? then r.newTypes.value else row.types;
       var dataType := if r.newDataType.Some? then r.newDataType.value else row.dataType;
       var isVariant := if r.newVariant.Some? then r.newVariant.value else row.isVariant;
       && (r.newKey.Some? || r.newTypes.Some? ==> !KeyInUse(db, types, key, Some(r.id)))
       && (r.newDataType.Some? || r.newVariant.Some? ==> (isVariant ==> dataType == ENUM))
       && types <= (if r.newTypes.Some? then db.types else types)
  }

  lemma UpdateAttributeServedIff(db: Db, s: Scope, r: Request, o: Choices)
    requires r.UpdateAttribute?
    ensures Exec(db, s, r, o).Done? <==> UpdateAttributeServed(db, r)
  {
    if r.id in db.attributes {
      var row := db.attributes[r.id];
      var key := if r.newKey.Some? then r.newKey.value else row.key;
      var types := if r.newTypes.Some? then r.newTypes.value else row.types;
      KeyTakenIff(db, types, key, Some(r.id));
    }
  }

  lemma KeyTakenIff(db: Db, types: set<Id>, key: string, but: Option<Id>)
    ensures KeyTaken(db.attributes, types, key, but) <==> KeyInUse(db, types, key, but)
  {
  }

  ghost predicate CreateValueServed(db: Db, s: Scope, r: Request)
    requires r.CreateValue?
  {
    && EnumLive(db, r.attr)
    && (r.name == "" ==> r.base.Some? && !SomeoneOwns(db, s, r.attr, r.base.value, None))
    && !SomeoneOwns(db, s, r.attr, NewValueName(db, s, r), None)
    && !ValueRowHolds(db, s, r.attr, NewValueName(db, s, r), None)
  }

  lemma CreateValueServedIff(db: Db, s: Scope, r: Request, o: Choices)
    requires r.CreateValue? && Allowed(db, s, r, o) && AliasesAttached(db.values, db.aliases)
    ensures Exec(db, s, r, o).Done? <==> CreateValueServed(db, s, r)
  {
    if r.base.Some? {
      TakenIffOwned(db.values, db.aliases, s, r.attr, r.base.value, None);
    }
    if r.name != "" || r.base.Some? {
      TakenIffOwned(db.values, db.aliases, s, r.attr, NewValueName(db, s, r), None);
    }
  }

  ghost predicate UpdateValueServed(db: Db, s: Scope, r: Request)
    requires r.UpdateValue?
  {
    && EnumLive(db, r.attr) && ValueLive(db, s, r.attr, r.id)
    && (r.newName.Some? || r.newTitle.Some? || r.newBusiness.Some? || r.newSource.Some?)
    && (db.values[r.id].source == IMPORTED ==> r.newName.None? && r.newBusiness.None? && r.newSource.None?)
    && (r.newName.Some? ==>
          && !SomeoneOwns(db, s, r.attr, r.newName.value, Some(r.id))
          && !ValueRowHolds(db, db.values[r.id].catalog, r.attr, r.newName.value, Some(r.id)))
  }

  lemma UpdateValueServedIff(db: Db, s: Scope, r: Request, o: Choices)
    requires r.UpdateValue? && AliasesAttached(db.values, db.aliases)
    ensures Exec(db, s, r, o).Done? <==> UpdateValueServed(db, s, r)
  {
    if r.newName.Some? {
      TakenIffOwned(db.values, db.aliases, s, r.attr, r.newName.value, Some(r.id));
    }
  }

  /** The value may be edited by hand. */
  ghost predicate Editable(db: Db, s: Scope, attr: Id, v: Id)
  {
    EnumLive(db, attr) && ValueLive(db, s, attr, v) && db.values[v].source != IMPORTED
  }

  ghost predicate OwnAlias(db: Db, s: Scope, attr: Id, v: Id, a: Id)
  {
    && a in db.aliases && db.aliases[a].live && db.aliases[a].attr == attr && db.aliases[a].owner == v
    && (s.Some? ==> db.aliases[a].catalog == s)
  }

  lemma EditsServedIff(db: Db, s: Scope, r: Request, o: Choices)
    requires Allowed(db, s, r, o) && AliasesAttached(db.values, db.aliases)
    ensures r.RemoveValue? ==> (Exec(db, s, r, o).Done? <==> Editable(db, s, r.attr, r.id))
    ensures r.RemoveAlias? ==>
              (Exec(db, s, r, o).Done? <==> Editable(db, s, r.attr, r.id) && OwnAlias(db, s, r.attr, r.id, r.alias))
    ensures r.CreateAlias? ==>
              (Exec(db, s, r, o).Done? <==>
               && Editable(db, s, r.attr, r.id) && !SomeoneOwns(db, s, r.attr, r.name, None)
               && !AliasRowHolds(db, s, r.attr, r.name))
    ensures r.RemoveAttribute? ==> (Exec(db, s, r, o).Done? <==> r.id in db.attributes && db.attributes[r.id].live)
  {
    if r.CreateAlias? {
      TakenIffOwned(db.values, db.aliases, s, r.attr, r.name, None);
    }
  }

  lemma MergeServedIff(db: Db, s: Scope, r: Request, o: Choices)
    requires r.Merge? && Inv(db, s.Some?) && Allowed(db, s, r, o)
    ensures Exec(db, s, r, o).Done? <==>
            Editable(db, s, r.attr, r.id) && Editable(db, s, r.attr, r.target) && r.id != r.target && NameSlotOpen(db, s, r.attr, r.id)
  {
    OwnedInScope(db.values, db.aliases, s);
    if Editable(db, s, r.attr, r.id) && Editable(db, s, r.attr, r.target) && r.id != r.target {
      MergeCommitsIff(db, s, r.attr, r.id, r.target, o);
    }
  }

  // ---------------------------------------------------------------- what refusals mean

  ghost predicate ValueRequest(r: Request)
  {
    !r.CreateAttribute? && !r.UpdateAttribute? && !r.RemoveAttribute?
  }

  /** A request on a missing attribute is told so; on one that is no ENUM, or with
      nothing to do, it is a bad request; a conflict with a row that only the
      index sees is a violation. */
  lemma RefusalsMean(db: Db, s: Scope, r: Request, o: Choices)
    requires Allowed(db, s, r, o) && Exec(db, s, r, o).Refused?
    ensures ValueRequest(r) && !(r.attr in db.attributes && db.attributes[r.attr].live) ==> Exec(db, s, r, o) == Refused(NotFound)
    ensures ValueRequest(r) && r.attr in db.attributes && db.attributes[r.attr].live && db.attributes[r.attr].dataType != ENUM ==>
              Exec(db, s, r, o) == Refused(BadRequest)
    ensures r.RemoveAttribute? ==> Exec(db, s, r, o) == Refused(NotFound)
    ensures r.CreateAttribute? ==> Exec(db, s, r, o) == Refused(BadRequest)
    ensures Exec(db, s, r, o).error == ForeignKeyViolation ==> r.UpdateAttribute? && r.newTypes.Some? && !(r.newTypes.value <= db.types)
  {
  }

  /** An update with something to do is not found if the attribute is gone, and a
      violation if only the types it names do not exist. */
  lemma UpdateRefusalsMean(db: Db, s: Scope, r: Request, o: Choices)
    requires r.UpdateAttribute? && Exec(db, s, r, o).Refused? && r.newTypes != Some({})
    requires r.newKey.Some? || r.newTypes.Some? || r.newDataType.Some? || r.newVariant.Some? || r.newTitle.Some?
    ensures Exec(db, s, r, o).error == NotFound <==> !(r.id in db.attributes && db.attributes[r.id].live)
    ensures r.newTypes.Some? && UpdateAttributeServed(db.(types := db.types + r.newTypes.value), r) ==>
              Exec(db, s, r, o).error == ForeignKeyViolation
    ensures Exec(db, s, r, o).error == ForeignKeyViolation ==>
              r.newTypes.Some? && UpdateAttributeServed(db.(types := db.types + r.newTypes.value), r)
  {
    if r.id in db.attributes {
      var row := db.attributes[r.id];
      var key := if r.newKey.Some? then r.newKey.value else row.key;
      var types := if r.newTypes.Some? then r.newTypes.value else row.types;
      KeyTakenIff(db, types, key, Some(r.id));
    }
  }

  /** On a live ENUM attribute, a value that is missing, deleted or of another
      catalog is not found; an imported one is a bad request. */
  lemma ValueRefusalsMean(db: Db, s: Scope, r: Request, o: Choices)
    requires Allowed(db, s, r, o) && (r.RemoveValue? || r.CreateAlias? || r.RemoveAlias?) && EnumLive(db, r.attr)
    ensures !ValueLive(db, s, r.attr, r.id) ==> Exec(db, s, r, o) == Refused(NotFound)
    ensures ValueLive(db, s, r.attr, r.id) && db.values[r.id].source == IMPORTED ==> Exec(db, s, r, o) == Refused(BadRequest)
    ensures r.RemoveAlias? && Editable(db, s, r.attr, r.id) && !OwnAlias(db, s, r.attr, r.id, r.alias) ==>
              Exec(db, s, r, o) == Refused(NotFound)
  {
  }

  /** A name that another live value answers to is a bad request; one that only a
      deleted row holds is a violation of the index. */
  lemma NameRefusalsMean(db: Db, s: Scope, r: Request, o: Choices)
    requires Allowed(db, s, r, o) && AliasesAttached(db.values, db.aliases)
    ensures r.CreateAlias? && Editable(db, s, r.attr, r.id) && Exec(db, s, r, o).Refused? ==>
              Exec(db, s, r, o).error == if SomeoneOwns(db, s, r.attr, r.name, None) then BadRequest else UniqueIndexViolation
    ensures r.CreateValue? && EnumLive(db, r.attr) && r.name != "" && Exec(db, s, r, o).Refused? ==>
              Exec(db, s, r, o).error == if SomeoneOwns(db, s, r.attr, r.name, None) then BadRequest else UniqueIndexViolation
  {
    if r.CreateAlias? || r.CreateValue? {
      TakenIffOwned(db.values, db.aliases, s, r.attr, r.name, None);
    }
  }

  // ---------------------------------------------------------------- what is written

  ghost predicate OnlyAttribute(db: Db, d: Db, id: Id)
  {
    && d == db.(attributes := d.attributes) && d.attributes.Keys == db.attributes.Keys + {id}
    && forall a :: a in db.attributes && a != id ==> d.attributes[a] == db.attributes[a]
  }

  /** A created attribute has what was asked for. An absent key is generated: it
      clashes with no live attribute of the types, fits 100 characters, and is
      the slug itself if that is free and fits. */
  lemma CreatedAttribute(db: Db, s: Scope, r: Request, o: Choices)
    requires r.CreateAttribute? && Allowed(db, s, r, o) && Exec(db, s, r, o).Done?
    ensures var d := Exec(db, s, r, o).db;
            && OnlyAttribute(db, d, o.newId)
            && d.attributes[o.newId] == Attribute(d.attributes[o.newId].key, r.dataType, r.isVariant, r.types, r.title, true)
            && (r.key != "" ==> d.attributes[o.newId].key == r.key)
    ensures var key := Exec(db, s, r, o).db.attributes[o.newId].key;
            r.key == "" ==>
              && !KeyInUse(db, r.types, key, None)
              && (|r.slug| <= 100 && (r.slug == "" || r.slug[|r.slug| - 1] != '-') && !KeyInUse(db, r.types, r.slug, None) ==> key == r.slug)
    ensures Exec(db, s, r, o).invalidated == r.types
  {
    if r.key == "" {
      GeneratedNameIsBase(r.slug, 100, KeysInTypes(db.attributes, r.types, None));
    }
  }

  lemma GeneratedNameIsBase(base: string, maxLength: nat, taken: set<string>)
    ensures Fits(base, maxLength) && base !in taken ==> UniqueName(base, maxLength, taken) == base
  {
    FittingBaseComesFirst(base, maxLength);
  }

  /** A generated name fits as long as the number of taken names does. */
  lemma GeneratedNameFits(base: string, maxLength: nat, taken: set<string>)
    requires |SuffixPart(|taken| + 1)| <= maxLength
    ensures |UniqueName(base, maxLength, taken)| <= maxLength
  {
    var k := FirstFreeFrom(base, 0, maxLength, taken);
    if k > 0 {
      DecimalLengthMonotone(k, |taken| + 1);
    }
  }

  /** Generated keys fit 100 characters and generated values 255. */
  lemma GeneratedNamesFitColumns(db: Db, s: Scope, r: Request, o: Choices)
    requires Allowed(db, s, r, o) && Exec(db, s, r, o).Done?
    ensures r.CreateAttribute? && r.key == "" && |SuffixPart(|KeysInTypes(db.attributes, r.types, None)| + 1)| <= 100 ==>
              |Exec(db, s, r, o).db.attributes[o.newId].key| <= 100
    ensures r.CreateValue? && r.name == "" && |SuffixPart(|NamesInAttribute(db.values, s, r.attr)| + 1)| <= 255 ==>
              |Exec(db, s, r, o).db.values[o.newId].name| <= 255
  {
    if r.CreateAttribute? && r.key == "" && |SuffixPart(|KeysInTypes(db.attributes, r.types, None)| + 1)| <= 100 {
      GeneratedNameFits(r.slug, 100, KeysInTypes(db.attributes, r.types, None));
    }
    if r.CreateValue? && r.name == "" && |SuffixPart(|NamesInAttribute(db.values, s, r.attr)| + 1)| <= 255 {
      GeneratedNameFits(r.base.value, 255, NamesInAttribute(db.values, s, r.attr));
    }
  }

  /** An updated attribute has the new fields and keeps the others. */
  lemma UpdatedAttributeRow(db: Db, s: Scope, r: Request, o: Choices)
    requires r.UpdateAttribute? && Exec(db, s, r, o).Done?
    ensures var d := Exec(db, s, r, o).db;
            && OnlyAttribute(db, d, r.id) && r.id in db.attributes
            && var was, row := db.attributes[r.id], d.attributes[r.id];
               && row.live
               && row.key == (if r.newKey.Some? then r.newKey.value else was.key)
               && row.dataType == (if r.newDataType.Some? then r.newDataType.value else was.dataType)
               && row.isVariant == (if r.newVariant.Some? then r.newVariant.value else was.isVariant)
               && row.types == (if r.newTypes.Some? then r.newTypes.value else was.types)
               && row.title == (if r.newTitle.Some? then r.newTitle.value else was.title)
  {
  }

  ghost predicate OnlyValue(db: Db, d: Db, id: Id)
  {
    && d == db.(values := d.values) && d.values.Keys == db.values.Keys + {id}
    && forall v :: v in db.values && v != id ==> d.values[v] == db.values[v]
  }

  ghost predicate OnlyAlias(db: Db, d: Db, id: Id)
  {
    && d == db.(aliases := d.aliases) && d.aliases.Keys == db.aliases.Keys + {id}
    && forall a :: a in db.aliases && a != id ==> d.aliases[a] == db.aliases[a]
  }

  /** No value of the attribute in scope, deleted or not, has the name. */
  ghost predicate NoValueEver(db: Db, s: Scope, attr: Id, name: string)
  {
    forall v :: v in db.values && db.values[v].attr == attr && (s.Some? ==> db.values[v].catalog == s) ==> db.values[v].name != name
  }

  /** A created value belongs to the request's catalog and has what was asked
      for; an absent name is the slug itself if nobody ever had it and it fits
      255 characters. */
  lemma CreatedValue(db: Db, s: Scope, r: Request, o: Choices)
    requires r.CreateValue? && Allowed(db, s, r, o) && Exec(db, s, r, o).Done?
    ensures var d := Exec(db, s, r, o).db;
            && OnlyValue(db, d, o.newId)
            && var row := d.values[o.newId];
               && row.attr == r.attr && row.catalog == s && row.live && row.mergedInto == None
               && row.title == r.title && row.business == r.business && row.source == r.source
               && (r.name != "" ==> row.name == r.name)
               && (r.name == "" && Fits(r.base.value, 255) && NoValueEver(db, s, r.attr, r.base.value) ==> row.name == r.base.value)
  {
    if r.name == "" {
      GeneratedNameIsBase(r.base.value, 255, NamesInAttribute(db.values, s, r.attr));
    }
  }

  lemma UpdatedValueRow(db: Db, s: Scope, r: Request, o: Choices)
    requires r.UpdateValue? && Exec(db, s, r, o).Done?
    ensures var d := Exec(db, s, r, o).db;
            && OnlyValue(db, d, r.id) && r.id in db.values
            && var was, row := db.values[r.id], d.values[r.id];
               && row.attr == was.attr && row.catalog == was.catalog && row.live && row.mergedInto == was.mergedInto
               && row.name == (if r.newName.Some? then r.newName.value else was.name)
               && row.title == (if r.newTitle.Some? then r.newTitle.value else was.title)
               && row.business == (if r.newBusiness.Some? then r.newBusiness.value else was.business)
               && row.source == (if r.newSource.Some? then r.newSource.value else was.source)
  {
  }

  /** Removals mark one row; a created alias belongs to its value and catalog. */
  lemma EditedRows(db: Db, s: Scope, r: Request, o: Choices)
    requires Allowed(db, s, r, o) && Exec(db, s, r, o).Done?
    ensures var d := Exec(db, s, r, o).db;
            r.RemoveValue? ==> OnlyValue(db, d, r.id) && r.id in db.values && d.values[r.id] == db.values[r.id].(live := false)
    ensures var d := Exec(db, s, r, o).db;
            r.RemoveAlias? ==> OnlyAlias(db, d, r.alias) && r.alias in db.aliases && d.aliases[r.alias] == db.aliases[r.alias].(live := false)
    ensures var d := Exec(db, s, r, o).db;
            r.CreateAlias? ==> OnlyAlias(db, d, o.newId) && d.aliases[o.newId] == Alias(r.attr, s, r.id, r.name, r.title, true)
  {
  }

  /** A served request invalidates exactly the types of the attribute it is about,
      those before and those after. */
  lemma InvalidatesItsTypes(db: Db, s: Scope, r: Request, o: Choices)
    requires Allowed(db, s, r, o) && Exec(db, s, r, o).Done?
    ensures var d := Exec(db, s, r, o).db;
            var a := if r.CreateAttribute? then o.newId else if r.UpdateAttribute? || r.RemoveAttribute? then r.id else r.attr;
            && a in d.attributes
            && Exec(db, s, r, o).invalidated == d.attributes[a].types + (if a in db.attributes then db.attributes[a].types else {})
  {
  }
}
