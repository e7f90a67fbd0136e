/** The attribute service over its database: each request checks, mutates row
    by row and bumps the cache versions of the types it touched. */
module AttributeServices {
  import opened Basics
  import opened Counting
  import opened UniqueKey
  import opened AttributeDb
  import opened EnumMerge
  import opened EnumMergeLaws
  import opened AttributeRequests
  import opened AttributeLaws
  import opened AttributeResolution
  import opened AttributeViews

  /** For requests that leave the database nothing to choose. */
  const UNCHOSEN := Choices([], None, None, 0)

  /** The reply is what the request specification allows for some choice of
      rows and ids by the database. */
  ghost predicate Served(db: Db, s: Scope, r: Request, reply: Reply)
  {
    exists o: Choices :: Allowed(db, s, r, o) && reply == Exec(db, s, r, o)
  }

  /** After a served request every name answers as the specification says. */
  ghost predicate AnswersMoved(db: Db, s: Scope, r: Request, reply: Reply)
  {
    reply.Done? && exists o :: Allowed(db, s, r, o) && reply == Exec(db, s, r, o) && AnswersMove(db, s, r, o, reply.db)
  }

  lemma ServedKeepsLaws(db: Db, s: Scope, r: Request, reply: Reply)
    requires Inv(db, s.Some?) && Served(db, s, r, reply)
    ensures Inv(After(db, reply), s.Some?) && (reply.Done? ==> AnswersMoved(db, s, r, reply))
  {
    var o :| Allowed(db, s, r, o) && reply == Exec(db, s, r, o);
    StepKeepsInv(db, s, r, o);
    if reply.Done? {
      RequestMovesAnswers(db, s, r, o);
    }
  }

  lemma PlainMovesAnswers(db: Db, s: Scope, r: Request, reply: Reply)
    requires Inv(db, s.Some?)
    requires || (r.UpdateValue? && reply == ExecUpdateValue(db, s, r)) || (r.RemoveValue? && reply == ExecRemoveValue(db, s, r))
             || (r.RemoveAlias? && reply == ExecRemoveAlias(db, s, r))
    ensures reply.Done? ==> AnswersMoved(db, s, r, reply)
  {
    assert Allowed(db, s, r, UNCHOSEN) && reply == Exec(db, s, r, UNCHOSEN);
    ServedKeepsLaws(db, s, r, reply);
  }

  lemma AliasMovesAnswers(db: Db, s: Scope, r: Request, newId: Id, reply: Reply)
    requires Inv(db, s.Some?) && r.CreateAlias? && newId !in db.aliases && reply == ExecCreateAlias(db, s, r, newId)
    ensures reply.Done? ==> AnswersMoved(db, s, r, reply)
  {
    var o := Choices([], None, None, newId);
    assert Allowed(db, s, r, o) && reply == Exec(db, s, r, o);
    ServedKeepsLaws(db, s, r, reply);
  }

  /** `findFirst` without an order returns any matching row. */
  method FindFirst(rows: set<Id>) returns (pick: Option<Id>)
    ensures FirstOf(pick, rows)
  {
    if rows == {} {
      pick := None;
    } else {
      var id := AnyOf(rows);
      pick := Some(id);
    }
  }

  /** `findMany` without an order lists the rows in any order. */
  method FindMany(rows: set<Id>) returns (order: seq<Id>)
    ensures Lists(order, rows)
  {
    order := [];
    var rest := rows;
    while rest != {}
      invariant rest <= rows
      invariant Lists(order, rows - rest)
      decreases |rest|
    {
      var id := AnyOf(rest);
      order := order + [id];
      rest := rest - {id};
    }
  }

  lemma {:induction false} SomeOrder(rows: set<Id>) returns (order: seq<Id>)
    ensures Lists(order, rows)
    decreases |rows|
  {
    if rows == {} {
      order := [];
    } else {
      var id := SomeOf(rows);
      var rest := SomeOrder(rows - {id});
      order := [id] + rest;
    }
  }

  lemma SomeFirst(rows: set<Id>) returns (pick: Option<Id>)
    ensures FirstOf(pick, rows)
  {
    if rows == {} {
      pick := None;
    } else {
      var id := SomeOf(rows);
      pick := Some(id);
    }
  }

  lemma SomeFresh(rows: set<Id>) returns (id: Id)
    ensures id !in rows
  {
    var naturals := set x | x in rows && x >= 0 :: x as nat;
    id := Above(naturals);
    assert id in rows ==> id in naturals;
  }

  /** The database can always serve a merge request. */
  lemma SomeChoices(db: Db, s: Scope, attr: Id, src: Id, tgt: Id) returns (o: Choices)
    ensures ValidChoices(db, s, attr, src, tgt, o)
  {
    if LiveValue(db.values, s, attr, src) && LiveValue(db.values, s, attr, tgt) {
      var order := SomeOrder(SourceAliases(db.aliases, s, attr, src));
      var v := SomeFirst(NamedValues(Tombstone(db.values, src, tgt), s, attr, db.values[src].name));
      var a := SomeFirst(NamedAliases(MoveAliases(db.aliases, s, attr, tgt, order), s, attr, db.values[src].name));
      var newId := SomeFresh(db.aliases.Keys);
      o := Choices(order, v, a, newId);
    } else {
      o := Choices([], None, None, 0);
    }
  }

  lemma RepointsAreIndependent(db: Db, rows: map<Id, ProductAttribute>, s: Scope, attr: Id, src: Id, tgt: Id)
    ensures RepointVariants(db.(productAttributes := rows), s, attr, src, tgt) == RepointVariants(db, s, attr, src, tgt)
  {
  }

  class AttributeService {
    var db: Db
    var versions: map<Id, nat>

    constructor (types: set<Id>)
      ensures db == Db(types, map[], map[], map[], map[], map[], map[], map[]) && versions == map[]
      ensures Inv(db, true) && Inv(db, false)
    {
      db := Db(types, map[], map[], map[], map[], map[], map[], map[]);
      versions := map[];
      EmptyDictionary(types, true);
      EmptyDictionary(types, false);
    }

    method InvalidateTypeCache(types: set<Id>)
      modifies this`versions
      ensures versions == Bumped(old(versions), types)
    {
      var rest := types;
      while rest != {}
        invariant rest <= types
        invariant versions == Bumped(old(versions), types - rest)
        decreases |rest|
      {
        var t := AnyOf(rest);
        versions := versions[t := (if t in versions then versions[t] else 0) + 1];
        rest := rest - {t};
      }
      assert types - rest == types;
    }

    method MoveEnumValueAliases(s: Scope, attr: Id, src: Id, tgt: Id) returns (ghost order: seq<Id>)
      modifies this`db
      ensures Lists(order, SourceAliases(old(db.aliases), s, attr, src))
      ensures db == old(db).(aliases := MoveAliases(old(db.aliases), s, attr, tgt, order))
    {
      var listed := FindMany(SourceAliases(db.aliases, s, attr, src));
      order := listed;
      var i := 0;
      while i < |listed|
        invariant 0 <= i <= |listed|
        invariant db.aliases.Keys == old(db.aliases).Keys
        invariant db == old(db).(aliases := db.aliases)
        invariant MoveAliases(old(db.aliases), s, attr, tgt, listed) == MoveAliases(db.aliases, s, attr, tgt, listed[i..])
      {
        var a := listed[i];
        var row := db.aliases[a];
        if HasAlias(db.aliases, s, attr, row.name, tgt) {
          db := db.(aliases := db.aliases[a := row.(live := false)]);
        } else {
          db := db.(aliases := db.aliases[a := row.(owner := tgt)]);
        }
        i := i + 1;
      }
    }

    /** False when the insert hits the unique index; the caller rolls back. */
    method EnsureMergedValueAlias(s: Scope, attr: Id, tgt: Id, name: string, title: string, ghost order: seq<Id>)
      returns (ok: bool, ghost o: Choices)
      modifies this`db
      ensures o.order == order && o.newId !in old(db.aliases)
      ensures FirstOf(o.valuePick, NamedValues(old(db.values), s, attr, name))
      ensures FirstOf(o.aliasPick, NamedAliases(old(db.aliases), s, attr, name))
      ensures ok == EnsureMergedAlias(old(db.aliases), s, attr, tgt, name, title, o).Some?
      ensures ok ==> db == old(db).(aliases := EnsureMergedAlias(old(db.aliases), s, attr, tgt, name, title, o).value)
    {
      var newId := FreshId(db.aliases.Keys);
      var valueConflict := FindFirst(NamedValues(db.values, s, attr, name));
      var aliasConflict := FindFirst(NamedAliases(db.aliases, s, attr, name));
      o := Choices(order, valueConflict, aliasConflict, newId);
      if valueConflict.Some? && valueConflict.value != tgt {
        return true, o;
      }
      if aliasConflict.Some? {
        var row := db.aliases[aliasConflict.value];
        if row.owner == tgt {
          return true, o;
        }
        db := db.(aliases := db.aliases[aliasConflict.value := row.(live := false)]);
      }
      ok := AliasIndexFree(db.aliases, attr, s, name);
      if ok {
        db := db.(aliases := db.aliases[newId := Alias(attr, s, tgt, name, title, true)]);
      }
    }

    /** The repository's transaction: an aborted one leaves the tables as they were. */
    method MergeTransaction(s: Scope, attr: Id, src: Id, tgt: Id) returns (committed: bool, ghost o: Choices)
      requires LiveValue(db.values, s, attr, src) && LiveValue(db.values, s, attr, tgt)
      modifies this`db
      ensures ValidChoices(old(db), s, attr, src, tgt, o)
      ensures committed <==> MergeTx(old(db), s, attr, src, tgt, o).Committed?
      ensures db == if committed then MergeTx(old(db), s, attr, src, tgt, o).db else old(db)
      ensures src != tgt && NamesOwned(old(db.values), old(db.aliases), s) && AliasesIndexed(old(db.aliases)) ==>
                (committed <==> NameSlotOpen(old(db), s, attr, src))
      ensures committed ==> MergedAway(old(db.values), db.values, src, tgt)
      ensures committed ==> ReferencesRewritten(old(db), db, s, attr, src, tgt)
    {
      var before := db;
      var source := db.values[src];
      db := db.(productAttributes := RepointProducts(db, s, attr, src, tgt));
      db := db.(variantAttributes := RepointVariants(db, s, attr, src, tgt));
      ghost var order := MoveEnumValueAliases(s, attr, src, tgt);
      db := db.(values := db.values[src := db.values[src].(live := false, mergedInto := Some(tgt))]);
      MoveAliasesFrame(before.aliases, s, attr, tgt, order);
      committed, o := EnsureMergedValueAlias(s, attr, tgt, source.name, source.title, order);
      RepointsAreIndependent(before, RepointProducts(before, s, attr, src, tgt), s, attr, src, tgt);
      if committed {
        MergePointsAtTarget(before, s, attr, src, tgt, o);
        MergeRewritesReferences(before, s, attr, src, tgt, o);
      } else {
        db := before;
      }
      if src != tgt && NamesOwned(before.values, before.aliases, s) && AliasesIndexed(before.aliases) {
        MergeCommitsIff(before, s, attr, src, tgt, o);
      }
    }

    /** The removal cascade, statement by statement. */
    method SoftDelete(id: Id)
      requires LiveAttribute(db.attributes, id)
      modifies this`db
      ensures db == Cascade(old(db), id)
    {
      var attribute := db.attributes[id];
      db := db.(attributes := db.attributes[id := attribute.(live := false)]);
      db := db.(values := KillValues(db.values, id));
      db := db.(productAttributes := KillProductAttributes(db.productAttributes, id));
      if attribute.isVariant {
        db := db.(variants := KillVariants(db.variants, db.variantAttributes, id));
        db := db.(variantAttributes := KillVariantAttributes(db.variantAttributes, id));
      }
    }

    method CreateAttributeRow(s: Scope, r: Request) returns (reply: Reply)
      requires r.CreateAttribute?
      modifies this`db
      ensures Served(old(db), s, r, reply) && db == After(old(db), reply)
    {
      var newId := FreshId(db.attributes.Keys);
      ghost var o := Choices([], None, None, newId);
      if !VariantRules(r.dataType, r.isVariant) || r.types == {} || !(r.types <= db.types) {
        reply := Refused(BadRequest);
      } else if r.key != "" && KeyTaken(db.attributes, r.types, r.key, None) {
        reply := Refused(BadRequest);
      } else {
        var key := r.key;
        if key == "" {
          var probes;
          key, probes := EnsureUniqueKey(r.slug, ATTRIBUTE_KEY_MAX_LENGTH, KeysInTypes(db.attributes, r.types, None));
        }
        db := db.(attributes := db.attributes[newId := Attribute(key, r.dataType, r.isVariant, r.types, r.title, true)]);
        reply := Done(db, r.types);
      }
      assert Allowed(old(db), s, r, o) && reply == Exec(old(db), s, r, o);
    }

    method GenerateEnumValue(s: Scope, r: Request) returns (name: string)
      requires r.CreateValue? && (r.name == "" ==> r.base.Some?)
      ensures name == NewValueName(db, s, r)
    {
      name := r.name;
      if name == "" {
        var probes;
        name, probes := EnsureUniqueKey(r.base.value, ENUM_VALUE_MAX_LENGTH, NamesInAttribute(db.values, s, r.attr));
      }
    }

    method InsertEnumValue(s: Scope, r: Request, newId: Id) returns (reply: Reply)
      requires r.CreateValue?
      modifies this`db
      ensures reply == ExecCreateValue(old(db), s, r, newId) && db == After(old(db), reply)
    {
      if !LiveEnum(db.attributes, r.attr) {
        return Refused(EnumAttributeError(db.attributes, r.attr));
      }
      if r.name == "" && (r.base.None? || Taken(db.values, db.aliases, s, r.attr, r.base.value, None)) {
        return Refused(BadRequest);
      }
      var name := GenerateEnumValue(s, r);
      if Taken(db.values, db.aliases, s, r.attr, name, None) {
        return Refused(BadRequest);
      }
      if !ValueIndexFree(db.values, r.attr, s, name, None) {
        return Refused(UniqueIndexViolation);
      }
      db := db.(values := db.values[newId := EnumValue(r.attr, s, name, r.title, r.business, r.source, None, true)]);
      reply := Done(db, db.attributes[r.attr].types);
    }

    method CreateEnumValue(s: Scope, r: Request) returns (reply: Reply)
      requires r.CreateValue?
      modifies this`db
      ensures Served(old(db), s, r, reply) && db == After(old(db), reply)
    {
      var newId := FreshId(db.values.Keys);
      reply := InsertEnumValue(s, r, newId);
      ghost var o := Choices([], None, None, newId);
      assert Allowed(old(db), s, r, o) && reply == Exec(old(db), s, r, o);
    }

    method MergeEnumValues(s: Scope, r: Request) returns (reply: Reply)
      requires r.Merge?
      modifies this`db
      ensures Served(old(db), s, r, reply) && db == After(old(db), reply)
    {
      ghost var o := SomeChoices(db, s, r.attr, r.id, r.target);
      if !LiveEnum(db.attributes, r.attr) {
        reply := Refused(EnumAttributeError(db.attributes, r.attr));
      } else if r.id == r.target {
        reply := Refused(BadRequest);
      } else if !LiveValue(db.values, s, r.attr, r.id) || !LiveValue(db.values, s, r.attr, r.target) {
        reply := Refused(NotFound);
      } else if db.values[r.id].source == IMPORTED || db.values[r.target].source == IMPORTED {
        reply := Refused(BadRequest);
      } else {
        var committed: bool;
        committed, o := MergeTransaction(s, r.attr, r.id, r.target);
        reply := if committed then Done(db, db.attributes[r.attr].types) else Refused(UniqueIndexViolation);
      }
      assert Allowed(old(db), s, r, o) && reply == Exec(old(db), s, r, o);
    }

    /** The fields are written first, then the types; a type that does not exist
        rolls both back. */
    method UpdateAttributeRow(r: Request) returns (reply: Reply)
      requires r.UpdateAttribute?
      modifies this`db
      ensures reply == ExecUpdateAttribute(old(db), r) && db == After(old(db), reply)
    {
      if (r.newTypes.None? && !HasAttributeFields(r)) || r.newTypes == Some({}) {
        return Refused(BadRequest);
      }
      if !LiveAttribute(db.attributes, r.id) {
        return Refused(NotFound);
      }
      var current := db.attributes[r.id];
      var types := GetOr(r.newTypes, current.types);
      if r.newKey.Some? || r.newTypes.Some? {
        if KeyTaken(db.attributes, types, GetOr(r.newKey, current.key), Some(r.id)) {
          return Refused(BadRequest);
        }
      }
      if r.newDataType.Some? || r.newVariant.Some? {
        if !VariantRules(GetOr(r.newDataType, current.dataType), GetOr(r.newVariant, current.isVariant)) {
          return Refused(BadRequest);
        }
      }
      var before := db;
      var row := current.(key := GetOr(r.newKey, current.key), dataType := GetOr(r.newDataType, current.dataType),
                          isVariant := GetOr(r.newVariant, current.isVariant), title := GetOr(r.newTitle, current.title));
      db := db.(attributes := db.attributes[r.id := row]);
      if r.newTypes.Some? {
        if !(types <= db.types) {
          db := before;
          return Refused(ForeignKeyViolation);
        }
        row := row.(types := types);
        db := db.(attributes := db.attributes[r.id := row]);
      }
      reply := Done(db, current.types + (if row.types != {} then row.types else types));
    }

    /** `requireEnumAttribute`, `requireEnumValue` and, for requests that imported
        values refuse, `assertEnumValueIsNotImported`. */
    method CheckEditable(s: Scope, attr: Id, id: Id) returns (error: Option<Error>)
      ensures error == if EditableValue(db, s, attr, id) then None else Some(EditError(db, s, attr, id))
    {
      if !LiveEnum(db.attributes, attr) {
        return Some(EnumAttributeError(db.attributes, attr));
      }
      if !LiveValue(db.values, s, attr, id) {
        return Some(NotFound);
      }
      error := if db.values[id].source == IMPORTED then Some(BadRequest) else None;
    }

    method WriteEnumValue(s: Scope, r: Request) returns (reply: Reply)
      requires r.UpdateValue?
      modifies this`db
      ensures reply == ExecUpdateValue(old(db), s, r) && db == After(old(db), reply)
    {
      if !LiveEnum(db.attributes, r.attr) {
        return Refused(EnumAttributeError(db.attributes, r.attr));
      }
      if r.newName.None? && r.newTitle.None? && r.newBusiness.None? && r.newSource.None? {
        return Refused(BadRequest);
      }
      if !LiveValue(db.values, s, r.attr, r.id) {
        return Refused(NotFound);
      }
      var row := db.values[r.id];
      if row.source == IMPORTED && (r.newName.Some? || r.newBusiness.Some? || r.newSource.Some?) {
        return Refused(BadRequest);
      }
      if r.newName.Some? {
        if Taken(db.values, db.aliases, s, r.attr, r.newName.value, Some(r.id)) {
          return Refused(BadRequest);
        }
        if !ValueIndexFree(db.values, r.attr, row.catalog, r.newName.value, Some(r.id)) {
          return Refused(UniqueIndexViolation);
        }
        row := row.(name := r.newName.value);
      }
      row := row.(title := GetOr(r.newTitle, row.title), business := GetOr(r.newBusiness, row.business),
                  source := GetOr(r.newSource, row.source));
      db := db.(values := db.values[r.id := row]);
      reply := Done(db, db.attributes[r.attr].types);
    }

    method UpdateEnumValue(s: Scope, r: Request) returns (reply: Reply)
      requires r.UpdateValue?
      modifies this`db
      ensures reply == ExecUpdateValue(old(db), s, r) && db == After(old(db), reply)
      ensures reply.Done? && old(Inv(db, s.Some?)) ==> AnswersMoved(old(db), s, r, reply)
    {
      reply := WriteEnumValue(s, r);
      if old(Inv(db, s.Some?)) {
        PlainMovesAnswers(old(db), s, r, reply);
      }
    }

    method RemoveEnumValue(s: Scope, r: Request) returns (reply: Reply)
      requires r.RemoveValue?
      modifies this`db
      ensures reply == ExecRemoveValue(old(db), s, r) && db == After(old(db), reply)
      ensures reply.Done? && old(Inv(db, s.Some?)) ==> AnswersMoved(old(db), s, r, reply)
    {
      var error := CheckEditable(s, r.attr, r.id);
      if error.Some? {
        return Refused(error.value);
      }
      db := db.(values := db.values[r.id := db.values[r.id].(live := false)]);
      reply := Done(db, db.attributes[r.attr].types);
      if old(Inv(db, s.Some?)) {
        PlainMovesAnswers(old(db), s, r, reply);
      }
    }

    method RemoveEnumValueAlias(s: Scope, r: Request) returns (reply: Reply)
      requires r.RemoveAlias?
      modifies this`db
      ensures reply == ExecRemoveAlias(old(db), s, r) && db == After(old(db), reply)
      ensures reply.Done? && old(Inv(db, s.Some?)) ==> AnswersMoved(old(db), s, r, reply)
    {
      var error := CheckEditable(s, r.attr, r.id);
      if error.Some? {
        return Refused(error.value);
      }
      if !MovableAlias(db.aliases, s, r.attr, r.id, r.alias) {
        return Refused(NotFound);
      }
      db := db.(aliases := db.aliases[r.alias := db.aliases[r.alias].(live := false)]);
      reply := Done(db, db.attributes[r.attr].types);
      if old(Inv(db, s.Some?)) {
        PlainMovesAnswers(old(db), s, r, reply);
      }
    }

    method InsertEnumValueAlias(s: Scope, r: Request, newId: Id) returns (reply: Reply)
      requires r.CreateAlias? && newId !in db.aliases
      modifies this`db
      ensures reply == ExecCreateAlias(old(db), s, r, newId) && db == After(old(db), reply)
      ensures reply.Done? && old(Inv(db, s.Some?)) ==> AnswersMoved(old(db), s, r, reply)
    {
      var error := CheckEditable(s, r.attr, r.id);
      if error.Some? {
        return Refused(error.value);
      }
      if Taken(db.values, db.aliases, s, r.attr, r.name, None) {
        return Refused(BadRequest);
      }
      if !AliasIndexFree(db.aliases, r.attr, s, r.name) {
        return Refused(UniqueIndexViolation);
      }
      db := db.(aliases := db.aliases[newId := Alias(r.attr, s, r.id, r.name, r.title, true)]);
      reply := Done(db, db.attributes[r.attr].types);
      if old(Inv(db, s.Some?)) {
        AliasMovesAnswers(old(db), s, r, newId, reply);
      }
    }

    /** Requests that leave the database nothing to choose. */
    method ServePlain(s: Scope, r: Request) returns (reply: Reply)
      requires r.UpdateAttribute? || r.UpdateValue? || r.RemoveValue? || r.RemoveAlias?
      modifies this`db
      ensures Served(old(db), s, r, reply) && db == After(old(db), reply)
    {
      match r {
        case UpdateAttribute(_, _, _, _, _, _) => reply := UpdateAttributeRow(r);
        case UpdateValue(_, _, _, _, _, _) => reply := UpdateEnumValue(s, r);
        case RemoveValue(_, _) => reply := RemoveEnumValue(s, r);
        case RemoveAlias(_, _, _) => reply := RemoveEnumValueAlias(s, r);
      }
      ghost var o := UNCHOSEN;
      assert Allowed(old(db), s, r, o) && reply == Exec(old(db), s, r, o);
    }

    method RemoveAttributeRow(s: Scope, r: Request) returns (reply: Reply)
      requires r.RemoveAttribute?
      modifies this`db
      ensures Served(old(db), s, r, reply) && db == After(old(db), reply)
    {
      ghost var o := UNCHOSEN;
      if !LiveAttribute(db.attributes, r.id) {
        reply := Refused(NotFound);
      } else {
        var types := db.attributes[r.id].types;
        SoftDelete(r.id);
        reply := Done(db, types);
      }
      assert Allowed(old(db), s, r, o) && reply == Exec(old(db), s, r, o);
    }

    method CreateEnumValueAlias(s: Scope, r: Request) returns (reply: Reply)
      requires r.CreateAlias?
      modifies this`db
      ensures Served(old(db), s, r, reply) && db == After(old(db), reply)
    {
      var newId := FreshId(db.aliases.Keys);
      reply := InsertEnumValueAlias(s, r, newId);
      ghost var o := Choices([], None, None, newId);
      assert Allowed(old(db), s, r, o) && reply == Exec(old(db), s, r, o);
    }

    /** Any request: served per specification, the caches of the touched types
        bumped once, and every invariant of the dictionary kept. */
    method Handle(s: Scope, r: Request) returns (reply: Reply)
      modifies this
      ensures Served(old(db), s, r, reply) && db == After(old(db), reply)
      ensures versions == VersionsAfter(old(versions), reply)
      ensures old(Inv(db, s.Some?)) ==> Inv(db, s.Some?)
      ensures reply.Done? && old(Inv(db, s.Some?)) ==> AnswersMoved(old(db), s, r, reply)
    {
      match r {
        case CreateAttribute(_, _, _, _, _, _) => reply := CreateAttributeRow(s, r);
        case RemoveAttribute(_) => reply := RemoveAttributeRow(s, r);
        case CreateValue(_, _, _, _, _, _) => reply := CreateEnumValue(s, r);
        case CreateAlias(_, _, _, _) => reply := CreateEnumValueAlias(s, r);
        case Merge(_, _, _) => reply := MergeEnumValues(s, r);
        case _ => reply := ServePlain(s, r);
      }
      if reply.Done? {
        InvalidateTypeCache(reply.invalidated);
      }
      if old(Inv(db, s.Some?)) {
        ServedKeepsLaws(old(db), s, r, reply);
      }
    }
  }
}
