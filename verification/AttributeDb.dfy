/** Tables of the attribute dictionary and the queries the repository runs on
    them. A row is soft-deleted when `live` is false (`deleteAt` set). */
module AttributeDb {
  import opened Basics

  /** Row identifiers carry no meaning beyond equality. */
  type Id = int

  /** The catalog a request runs in. A request without one drops the filter. */
  type Scope = Option<Id>

  datatype DataType = STRING | INTEGER | DECIMAL | BOOLEAN | DATETIME | ENUM
  datatype Source = MANUAL | AUTO | IMPORTED

  datatype Attribute = Attribute(key: string, dataType: DataType, isVariant: bool,
                                 types: set<Id>, title: string, live: bool)
  datatype EnumValue = EnumValue(attr: Id, catalog: Option<Id>, name: string, title: string, business: string,
                                 source: Source, mergedInto: Option<Id>, live: bool)
  datatype Alias = Alias(attr: Id, catalog: Option<Id>, owner: Id, name: string, title: string, live: bool)
  datatype Variant = Variant(product: Id, live: bool)
  datatype ProductAttribute = ProductAttribute(product: Id, attr: Id, value: Option<Id>, live: bool)
  datatype VariantAttribute = VariantAttribute(variant: Id, attr: Id, value: Id, live: bool)

  /** `types` is the table of catalog types, `products` gives each product's catalog. */
  datatype Db = Db(types: set<Id>,
                   attributes: map<Id, Attribute>,
                   values: map<Id, EnumValue>,
                   aliases: map<Id, Alias>,
                   products: map<Id, Id>,
                   variants: map<Id, Variant>,
                   productAttributes: map<Id, ProductAttribute>,
                   variantAttributes: map<Id, VariantAttribute>)

  type Attributes = map<Id, Attribute>
  type Values = map<Id, EnumValue>
  type Aliases = map<Id, Alias>

  predicate InScope(s: Scope, catalog: Option<Id>)
  {
    s.None? || catalog == s
  }

  // ---------------------------------------------------------------- names

  predicate LiveValue(vs: Values, s: Scope, attr: Id, v: Id)
  {
    v in vs && vs[v].live && vs[v].attr == attr && InScope(s, vs[v].catalog)
  }

  predicate AliasRow(als: Aliases, s: Scope, attr: Id, name: string, a: Id)
  {
    && a in als && als[a].live && als[a].attr == attr
    && als[a].name == name && InScope(s, als[a].catalog)
  }

  predicate HasAlias(als: Aliases, s: Scope, attr: Id, name: string, v: Id)
  {
    exists a :: a in als && AliasRow(als, s, attr, name, a) && als[a].owner == v
  }

  /** v answers to `name`: it is live in scope and carries the name itself or
      through a live alias. */
  predicate Owns(vs: Values, als: Aliases, s: Scope, attr: Id, name: string, v: Id)
  {
    LiveValue(vs, s, attr, v) && (vs[v].name == name || HasAlias(als, s, attr, name, v))
  }

  /** Each name has at most one owner in this scope. */
  ghost predicate NamesOwned(vs: Values, als: Aliases, s: Scope)
  {
    forall attr, name, v, w :: Owns(vs, als, s, attr, name, v) && Owns(vs, als, s, attr, name, w) ==> v == w
  }

  /** Names are owned once: in each catalog when requests carry a catalog,
      across all catalogs when none does. */
  ghost predicate NamesOwnedOnce(vs: Values, als: Aliases, tenant: bool)
  {
    if tenant then forall c: Id :: NamesOwned(vs, als, Some(c)) else NamesOwned(vs, als, None)
  }

  lemma OwnedInScope(vs: Values, als: Aliases, s: Scope)
    requires NamesOwnedOnce(vs, als, s.Some?)
    ensures NamesOwned(vs, als, s)
  {
    if s.Some? {
      var c := s.value;
      assert NamesOwned(vs, als, Some(c));
      assert Some(c) == s;
    }
  }

  /** The first query of `findEnumValueDuplicate`. */
  function DuplicateValues(vs: Values, s: Scope, attr: Id, name: string, exclude: Option<Id>): set<Id>
  {
    set v | v in vs && LiveValue(vs, s, attr, v) && vs[v].name == name && exclude != Some(v)
  }

  /** Its second query: a live alias whose owner is live and in scope. The
      owner's attribute is not compared. */
  function DuplicateAliases(vs: Values, als: Aliases, s: Scope, attr: Id, name: string, exclude: Option<Id>): set<Id>
  {
    set a | && a in als && AliasRow(als, s, attr, name, a)
            && als[a].owner in vs && vs[als[a].owner].live
            && InScope(s, vs[als[a].owner].catalog) && exclude != Some(als[a].owner)
  }

  predicate Taken(vs: Values, als: Aliases, s: Scope, attr: Id, name: string, exclude: Option<Id>)
  {
    DuplicateValues(vs, s, attr, name, exclude) != {} || DuplicateAliases(vs, als, s, attr, name, exclude) != {}
  }

  /** Aliases belong to a value of their own attribute. */
  ghost predicate AliasesAttached(vs: Values, als: Aliases)
  {
    forall a :: a in als ==>
      als[a].owner in vs && vs[als[a].owner].attr == als[a].attr
  }

  /** The duplicate check finds a row exactly when some other value answers to
      the name. */
  lemma TakenIffOwned(vs: Values, als: Aliases, s: Scope, attr: Id, name: string, exclude: Option<Id>)
    requires AliasesAttached(vs, als)
    ensures Taken(vs, als, s, attr, name, exclude) <==> exists v :: Owns(vs, als, s, attr, name, v) && exclude != Some(v)
  {
    if v :| v in DuplicateValues(vs, s, attr, name, exclude) {
      assert Owns(vs, als, s, attr, name, v);
    }
    if a :| a in DuplicateAliases(vs, als, s, attr, name, exclude) {
      assert Owns(vs, als, s, attr, name, als[a].owner);
    }
    if v :| Owns(vs, als, s, attr, name, v) && exclude != Some(v) {
      if vs[v].name == name {
        assert v in DuplicateValues(vs, s, attr, name, exclude);
      } else {
        var a :| a in als && AliasRow(als, s, attr, name, a) && als[a].owner == v;
        assert a in DuplicateAliases(vs, als, s, attr, name, exclude);
      }
    }
  }

  // ---------------------------------------------------------------- unique indexes

  /** The index on (attribute, catalog, value) covers soft-deleted rows too, and
      does not bind rows without a catalog. */
  predicate ValueIndexFree(vs: Values, attr: Id, catalog: Option<Id>, name: string, except: Option<Id>)
  {
    catalog.Some? ==>
      forall v :: v in vs && except != Some(v) ==>
        !(vs[v].attr == attr && vs[v].catalog == catalog && vs[v].name == name)
  }

  predicate AliasIndexFree(als: Aliases, attr: Id, catalog: Option<Id>, name: string)
  {
    catalog.Some? ==>
      forall a :: a in als ==>
        !(als[a].attr == attr && als[a].catalog == catalog && als[a].name == name)
  }

  predicate SameValueKey(r: EnumValue, q: EnumValue)
  {
    r.catalog.Some? && r.attr == q.attr && r.catalog == q.catalog && r.name == q.name
  }

  predicate SameAliasKey(r: Alias, q: Alias)
  {
    r.catalog.Some? && r.attr == q.attr && r.catalog == q.catalog && r.name == q.name
  }

  ghost predicate ValuesIndexed(vs: Values)
  {
    forall v, w :: v in vs && w in vs && SameValueKey(vs[v], vs[w]) ==> v == w
  }

  ghost predicate AliasesIndexed(als: Aliases)
  {
    forall a, b :: a in als && b in als && SameAliasKey(als[a], als[b]) ==> a == b
  }

  // ---------------------------------------------------------------- merge links

  /** Only deleted values point at the value they were merged into, which is a
      row of the same table. */
  ghost predicate LinksPlaced(vs: Values)
  {
    forall v :: v in vs && vs[v].mergedInto.Some? ==>
      !vs[v].live && vs[v].mergedInto.value in vs
  }

  /** A ranking that every merge link climbs. */
  ghost predicate Climbs(vs: Values, rank: map<Id, nat>)
  {
    && rank.Keys == vs.Keys
    && forall v :: v in vs && vs[v].mergedInto.Some? && vs[v].mergedInto.value in rank ==>
         rank[v] < rank[vs[v].mergedInto.value]
  }

  ghost predicate LinksAcyclic(vs: Values)
  {
    exists rank :: Climbs(vs, rank)
  }

  // ---------------------------------------------------------------- attributes

  predicate ShareType(r: Attribute, q: Attribute)
  {
    r.live && q.live && r.types * q.types != {}
  }

  ghost predicate KeysDistinct(ats: Attributes)
  {
    forall a, b ::
      a in ats && b in ats && a != b && ShareType(ats[a], ats[b]) ==>
        ats[a].key != ats[b].key
  }

  ghost predicate VariantsAreEnum(ats: Attributes)
  {
    forall a :: a in ats && ats[a].live && ats[a].isVariant ==>
      ats[a].dataType == ENUM
  }

  /** `existsKeyInTypes` as a set: keys of live attributes that share a type. */
  function KeysInTypes(ats: Attributes, types: set<Id>, exclude: Option<Id>): set<string>
  {
    set a | a in ats && ats[a].live && ats[a].types * types != {} && exclude != Some(a)
      :: ats[a].key
  }

  /** `existsEnumValue` as a set: names of all values of the attribute in scope,
      deleted ones included. */
  function NamesInAttribute(vs: Values, s: Scope, attr: Id): set<string>
  {
    set v | v in vs && vs[v].attr == attr && InScope(s, vs[v].catalog) :: vs[v].name
  }

  /** What every step keeps. */
  ghost predicate Inv(db: Db, tenant: bool)
  {
    && AliasesAttached(db.values, db.aliases)
    && NamesOwnedOnce(db.values, db.aliases, tenant)
    && ValuesIndexed(db.values)
    && AliasesIndexed(db.aliases)
    && LinksPlaced(db.values)
    && LinksAcyclic(db.values)
    && KeysDistinct(db.attributes)
    && VariantsAreEnum(db.attributes)
  }

  // ---------------------------------------------------------------- what readers see

  datatype ValueView = ValueView(row: EnumValue, aliases: map<Id, Alias>)
  datatype AttributeView = AttributeView(row: Attribute, values: map<Id, ValueView>)

  ghost function LiveAliasesOf(als: Aliases, v: Id): map<Id, Alias>
  {
    map a | a in als && als[a].live && als[a].owner == v :: als[a]
  }

  ghost function LiveValuesOf(vs: Values, als: Aliases, s: Scope, attr: Id): map<Id, ValueView>
  {
    map v | v in vs && LiveValue(vs, s, attr, v) :: ValueView(vs[v], LiveAliasesOf(als, v))
  }

  /** `findByType` with enum values, up to the order of its rows. */
  ghost function TypeView(db: Db, s: Scope, t: Id): map<Id, AttributeView>
  {
    map a | a in db.attributes && db.attributes[a].live && t in db.attributes[a].types
      :: AttributeView(db.attributes[a], LiveValuesOf(db.values, db.aliases, s, a))
  }

  // ---------------------------------------------------------------- references

  /** Live in-scope product attribute rows that hold value v. */
  ghost function ProductRefs(db: Db, s: Scope, attr: Id, v: Id): set<Id>
  {
    set p | p in db.productAttributes && ProductRefInScope(db, s, attr, p) && db.productAttributes[p].value == Some(v)
  }

  predicate ProductRefInScope(db: Db, s: Scope, attr: Id, p: Id)
    requires p in db.productAttributes
  {
    var row := db.productAttributes[p];
    row.live && row.attr == attr && (s.Some? ==> row.product in db.products && db.products[row.product] == s.value)
  }

  ghost function VariantRefs(db: Db, s: Scope, attr: Id, v: Id): set<Id>
  {
    set p | p in db.variantAttributes && VariantRefInScope(db, s, attr, p) && db.variantAttributes[p].value == v
  }

  predicate VariantRefInScope(db: Db, s: Scope, attr: Id, p: Id)
    requires p in db.variantAttributes
  {
    var row := db.variantAttributes[p];
    row.live && row.attr == attr
    && (s.Some? ==>
          && row.variant in db.variants && db.variants[row.variant].product in db.products
          && db.products[db.variants[row.variant].product] == s.value)
  }
}
