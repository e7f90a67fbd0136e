/** The mutating requests of the attribute service. A refused request leaves the
    database as it was; a served one reports the catalog types whose cache it
    invalidates. */
module AttributeRequests {
  import opened Basics
  import opened UniqueKey
  import opened AttributeDb
  import opened EnumMerge

  /** Names and keys are already normalised. An empty `key` or `name` stands for
      an absent one: it is generated from `base`, the slug of the label (None
      when there is no label). */
  datatype Request =
    | CreateAttribute(types: set<Id>, key: string, slug: string, dataType: DataType, isVariant: bool, title: string)
    | UpdateAttribute(id: Id, newKey: Option<string>, newTypes: Option<set<Id>>, newDataType: Option<DataType>,
                      newVariant: Option<bool>, newTitle: Option<string>)
    | RemoveAttribute(id: Id)
    | CreateValue(attr: Id, name: string, base: Option<string>, title: string, business: string, source: Source)
    | UpdateValue(attr: Id, id: Id, newName: Option<string>, newTitle: Option<string>, newBusiness: Option<string>,
                  newSource: Option<Source>)
    | RemoveValue(attr: Id, id: Id)
    | CreateAlias(attr: Id, id: Id, name: string, title: string)
    | RemoveAlias(attr: Id, id: Id, alias: Id)
    | Merge(attr: Id, id: Id, target: Id)

  datatype Error = NotFound | BadRequest | UniqueIndexViolation | ForeignKeyViolation

  datatype Reply = Done(db: Db, invalidated: set<Id>) | Refused(error: Error)

  function After(db: Db, reply: Reply): Db
  {
    if reply.Done? then reply.db else db
  }

  predicate LiveAttribute(ats: Attributes, attr: Id)
  {
    attr in ats && ats[attr].live
  }

  predicate LiveEnum(ats: Attributes, attr: Id)
  {
    LiveAttribute(ats, attr) && ats[attr].dataType == ENUM
  }

  /** `requireEnumAttribute` when it throws. */
  function EnumAttributeError(ats: Attributes, attr: Id): Error
  {
    if LiveAttribute(ats, attr) then BadRequest else NotFound
  }

  predicate VariantRules(dataType: DataType, isVariant: bool)
  {
    isVariant ==> dataType == ENUM
  }

  predicate KeyTaken(ats: Attributes, types: set<Id>, key: string, exclude: Option<Id>)
  {
    key in KeysInTypes(ats, types, exclude)
  }

  // ---------------------------------------------------------------- attributes

  ghost function ExecCreateAttribute(db: Db, r: Request, newId: Id): Reply
    requires r.CreateAttribute?
  {
    if !VariantRules(r.dataType, r.isVariant) || r.types == {} || !(r.types <= db.types) then Refused(BadRequest)
    else if r.key != "" && KeyTaken(db.attributes, r.types, r.key, None) then Refused(BadRequest)
    else
      var key := if r.key != "" then r.key
                 else UniqueName(r.slug, ATTRIBUTE_KEY_MAX_LENGTH, KeysInTypes(db.attributes, r.types, None));
      Done(db.(attributes := db.attributes[newId := Attribute(key, r.dataType, r.isVariant, r.types, r.title, true)]),
           r.types)
  }

  function GetOr<T>(o: Option<T>, otherwise: T): T
  {
    if o.Some? then o.value else otherwise
  }

  predicate HasAttributeFields(r: Request)
    requires r.UpdateAttribute?
  {
    r.newKey.Some? || r.newDataType.Some? || r.newVariant.Some? || r.newTitle.Some?
  }

  function UpdatedAttribute(row: Attribute, r: Request): Attribute
    requires r.UpdateAttribute?
  {
    row.(key := GetOr(r.newKey, row.key), dataType := GetOr(r.newDataType, row.dataType),
         isVariant := GetOr(r.newVariant, row.isVariant), title := GetOr(r.newTitle, row.title),
         types := GetOr(r.newTypes, row.types))
  }

  function ExecUpdateAttribute(db: Db, r: Request): Reply
    requires r.UpdateAttribute?
  {
    if (r.newTypes.None? && !HasAttributeFields(r)) || r.newTypes == Some({}) then Refused(BadRequest)
    else if !LiveAttribute(db.attributes, r.id) then Refused(NotFound)
    else
      var row := db.attributes[r.id];
      var types := GetOr(r.newTypes, row.types);
      if (r.newKey.Some? || r.newTypes.Some?) && KeyTaken(db.attributes, types, GetOr(r.newKey, row.key), Some(r.id))
      then Refused(BadRequest)
      else if (r.newDataType.Some? || r.newVariant.Some?)
              && !VariantRules(GetOr(r.newDataType, row.dataType), GetOr(r.newVariant, row.isVariant))
      then Refused(BadRequest)
      else if r.newTypes.Some? && !(types <= db.types) then Refused(ForeignKeyViolation)
      else
        var updated := UpdatedAttribute(row, r);
        Done(db.(attributes := db.attributes[r.id := updated]),
             row.types + (if updated.types != {} then updated.types else types))
  }

  function KillValues(vs: Values, attr: Id): Values
  {
    map v | v in vs :: if vs[v].attr == attr then vs[v].(live := false) else vs[v]
  }

  function KillProductAttributes(rows: map<Id, ProductAttribute>, attr: Id): map<Id, ProductAttribute>
  {
    map p | p in rows :: if rows[p].attr == attr then rows[p].(live := false) else rows[p]
  }

  function KillVariantAttributes(rows: map<Id, VariantAttribute>, attr: Id): map<Id, VariantAttribute>
  {
    map p | p in rows :: if rows[p].attr == attr then rows[p].(live := false) else rows[p]
  }

  predicate Uses(rows: map<Id, VariantAttribute>, attr: Id, variant: Id)
  {
    exists p :: p in rows && rows[p].live && rows[p].attr == attr && rows[p].variant == variant
  }

  /** The filter is on live attribute rows, so it must run before they die. */
  function KillVariants(variants: map<Id, Variant>, rows: map<Id, VariantAttribute>, attr: Id): map<Id, Variant>
  {
    map v | v in variants :: if Uses(rows, attr, v) then variants[v].(live := false) else variants[v]
  }

  /** `softDelete`: the cascade of an attribute removal. */
  function Cascade(db: Db, attr: Id): Db
    requires attr in db.attributes
  {
    var d := db.(attributes := db.attributes[attr := db.attributes[attr].(live := false)],
                 values := KillValues(db.values, attr),
                 productAttributes := KillProductAttributes(db.productAttributes, attr));
    if db.attributes[attr].isVariant
    then d.(variants := KillVariants(db.variants, db.variantAttributes, attr),
            variantAttributes := KillVariantAttributes(db.variantAttributes, attr))
    else d
  }

  function ExecRemoveAttribute(db: Db, r: Request): Reply
    requires r.RemoveAttribute?
  {
    if !LiveAttribute(db.attributes, r.id) then Refused(NotFound)
    else Done(Cascade(db, r.id), db.attributes[r.id].types)
  }

  // ---------------------------------------------------------------- enum values

  ghost function NewValueName(db: Db, s: Scope, r: Request): string
    requires r.CreateValue? && (r.name == "" ==> r.base.Some?)
  {
    if r.name != "" then r.name
    else UniqueName(r.base.value, ENUM_VALUE_MAX_LENGTH, NamesInAttribute(db.values, s, r.attr))
  }

  ghost function ExecCreateValue(db: Db, s: Scope, r: Request, newId: Id): Reply
    requires r.CreateValue?
  {
    if !LiveEnum(db.attributes, r.attr) then Refused(EnumAttributeError(db.attributes, r.attr))
    else if r.name == "" && (r.base.None? || Taken(db.values, db.aliases, s, r.attr, r.base.value, None))
    then Refused(BadRequest)
    else
      var name := NewValueName(db, s, r);
      if Taken(db.values, db.aliases, s, r.attr, name, None) then Refused(BadRequest)
      else if !ValueIndexFree(db.values, r.attr, s, name, None) then Refused(UniqueIndexViolation)
      else Done(db.(values := db.values[newId := EnumValue(r.attr, s, name, r.title, r.business, r.source, None, true)]),
                db.attributes[r.attr].types)
  }

  function UpdatedValue(row: EnumValue, r: Request): EnumValue
    requires r.UpdateValue?
  {
    row.(name := GetOr(r.newName, row.name), title := GetOr(r.newTitle, row.title),
         business := GetOr(r.newBusiness, row.business), source := GetOr(r.newSource, row.source))
  }

  function ExecUpdateValue(db: Db, s: Scope, r: Request): Reply
    requires r.UpdateValue?
  {
    if !LiveEnum(db.attributes, r.attr) then Refused(EnumAttributeError(db.attributes, r.attr))
    else if r.newName.None? && r.newTitle.None? && r.newBusiness.None? && r.newSource.None? then Refused(BadRequest)
    else if !LiveValue(db.values, s, r.attr, r.id) then Refused(NotFound)
    else
      var row := db.values[r.id];
      if row.source == IMPORTED && (r.newName.Some? || r.newBusiness.Some? || r.newSource.Some?) then Refused(BadRequest)
      else if r.newName.Some? && Taken(db.values, db.aliases, s, r.attr, r.newName.value, Some(r.id)) then Refused(BadRequest)
      else if r.newName.Some? && !ValueIndexFree(db.values, r.attr, row.catalog, r.newName.value, Some(r.id))
      then Refused(UniqueIndexViolation)
      else Done(db.(values := db.values[r.id := UpdatedValue(row, r)]), db.attributes[r.attr].types)
  }

  /** The checks shared by the requests that imported values refuse. */
  predicate EditableValue(db: Db, s: Scope, attr: Id, id: Id)
  {
    LiveEnum(db.attributes, attr) && LiveValue(db.values, s, attr, id) && db.values[id].source != IMPORTED
  }

  function EditError(db: Db, s: Scope, attr: Id, id: Id): Error
  {
    if !LiveEnum(db.attributes, attr) then EnumAttributeError(db.attributes, attr)
    else if !LiveValue(db.values, s, attr, id) then NotFound
    else BadRequest
  }

  function ExecRemoveValue(db: Db, s: Scope, r: Request): Reply
    requires r.RemoveValue?
  {
    if !EditableValue(db, s, r.attr, r.id) then Refused(EditError(db, s, r.attr, r.id))
    else Done(db.(values := db.values[r.id := db.values[r.id].(live := false)]), db.attributes[r.attr].types)
  }

  // ---------------------------------------------------------------- aliases

  function ExecCreateAlias(db: Db, s: Scope, r: Request, newId: Id): Reply
    requires r.CreateAlias?
  {
    if !EditableValue(db, s, r.attr, r.id) then Refused(EditError(db, s, r.attr, r.id))
    else if Taken(db.values, db.aliases, s, r.attr, r.name, None) then Refused(BadRequest)
    else if !AliasIndexFree(db.aliases, r.attr, s, r.name) then Refused(UniqueIndexViolation)
    else Done(db.(aliases := db.aliases[newId := Alias(r.attr, s, r.id, r.name, r.title, true)]),
              db.attributes[r.attr].types)
  }

  function ExecRemoveAlias(db: Db, s: Scope, r: Request): Reply
    requires r.RemoveAlias?
  {
    if !EditableValue(db, s, r.attr, r.id) then Refused(EditError(db, s, r.attr, r.id))
    else if !MovableAlias(db.aliases, s, r.attr, r.id, r.alias) then Refused(NotFound)
    else Done(db.(aliases := db.aliases[r.alias := db.aliases[r.alias].(live := false)]), db.attributes[r.attr].types)
  }

  // ---------------------------------------------------------------- merge

  ghost function ExecMerge(db: Db, s: Scope, r: Request, o: Choices): Reply
    requires r.Merge? && ValidChoices(db, s, r.attr, r.id, r.target, o)
  {
    if !LiveEnum(db.attributes, r.attr) then Refused(EnumAttributeError(db.attributes, r.attr))
    else if r.id == r.target then Refused(BadRequest)
    else if !LiveValue(db.values, s, r.attr, r.id) || !LiveValue(db.values, s, r.attr, r.target) then Refused(NotFound)
    else if db.values[r.id].source == IMPORTED || db.values[r.target].source == IMPORTED then Refused(BadRequest)
    else
      match MergeTx(db, s, r.attr, r.id, r.target, o)
      case Missing => Refused(NotFound)
      case UniqueViolation => Refused(UniqueIndexViolation)
      case Committed(d) => Done(d, db.attributes[r.attr].types)
  }

  // ---------------------------------------------------------------- any request

  /** What the database may decide while it serves the request. */
  ghost predicate Allowed(db: Db, s: Scope, r: Request, o: Choices)
  {
    match r
    case CreateAttribute(_, _, _, _, _, _) => o.newId !in db.attributes
    case CreateValue(_, _, _, _, _, _) => o.newId !in db.values
    case CreateAlias(_, _, _, _) => o.newId !in db.aliases
    case Merge(_, _, _) => ValidChoices(db, s, r.attr, r.id, r.target, o)
    case _ => true
  }

  ghost function Exec(db: Db, s: Scope, r: Request, o: Choices): Reply
    requires Allowed(db, s, r, o)
  {
    match r
    case CreateAttribute(_, _, _, _, _, _) => ExecCreateAttribute(db, r, o.newId)
    case UpdateAttribute(_, _, _, _, _, _) => ExecUpdateAttribute(db, r)
    case RemoveAttribute(_) => ExecRemoveAttribute(db, r)
    case CreateValue(_, _, _, _, _, _) => ExecCreateValue(db, s, r, o.newId)
    case UpdateValue(_, _, _, _, _, _) => ExecUpdateValue(db, s, r)
    case RemoveValue(_, _) => ExecRemoveValue(db, s, r)
    case CreateAlias(_, _, _, _) => ExecCreateAlias(db, s, r, o.newId)
    case RemoveAlias(_, _, _) => ExecRemoveAlias(db, s, r)
    case Merge(_, _, _) => ExecMerge(db, s, r, o)
  }

  /** One request of a run, with its catalog and the database's choices. */
  datatype Event = Event(scope: Scope, request: Request, choices: Choices)

  ghost predicate ValidRun(db: Db, events: seq<Event>)
    decreases |events|
  {
    events == [] ||
    (&& Allowed(db, events[0].scope, events[0].request, events[0].choices)
     && ValidRun(After(db, Exec(db, events[0].scope, events[0].request, events[0].choices)), events[1..]))
  }

  ghost function Run(db: Db, events: seq<Event>): Db
    requires ValidRun(db, events)
    decreases |events|
  {
    if events == [] then db
    else Run(After(db, Exec(db, events[0].scope, events[0].request, events[0].choices)), events[1..])
  }

  /** Every request carries a catalog, or none does. */
  ghost predicate UniformScope(events: seq<Event>, tenant: bool)
  {
    forall i :: 0 <= i < |events| ==> events[i].scope.Some? == tenant
  }
}
