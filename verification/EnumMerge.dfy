/** The merge transaction: references are repointed, aliases move, the source
    becomes a tombstone and its name comes back as an alias of the target. */
module EnumMerge {
  import opened Basics
  import opened AttributeDb

  /** What the database decides for a merge: the order in which the source's
      aliases are listed, the row each `findFirst` returns and the new row's id. */
  datatype Choices = Choices(order: seq<Id>, valuePick: Option<Id>, aliasPick: Option<Id>, newId: Id)

  datatype TxResult = Missing | UniqueViolation | Committed(db: Db)

  predicate FirstOf(pick: Option<Id>, matches: set<Id>)
  {
    match pick
    case None => matches == {}
    case Some(id) => id in matches
  }

  predicate Lists(order: seq<Id>, rows: set<Id>)
  {
    && (forall i, j :: 0 <= i < j < |order| ==> order[i] != order[j])
    && (forall i :: 0 <= i < |order| ==> order[i] in rows)
    && (forall a :: a in rows ==> a in order)
  }

  function RepointProducts(db: Db, s: Scope, attr: Id, src: Id, tgt: Id): map<Id, ProductAttribute>
  {
    map p | p in db.productAttributes ::
      if ProductRefInScope(db, s, attr, p) && db.productAttributes[p].value == Some(src)
      then db.productAttributes[p].(value := Some(tgt)) else db.productAttributes[p]
  }

  function RepointVariants(db: Db, s: Scope, attr: Id, src: Id, tgt: Id): map<Id, VariantAttribute>
  {
    map p | p in db.variantAttributes ::
      if VariantRefInScope(db, s, attr, p) && db.variantAttributes[p].value == src
      then db.variantAttributes[p].(value := tgt) else db.variantAttributes[p]
  }

  predicate MovableAlias(als: Aliases, s: Scope, attr: Id, src: Id, a: Id)
  {
    && a in als && als[a].live && als[a].attr == attr
    && als[a].owner == src && InScope(s, als[a].catalog)
  }

  function SourceAliases(als: Aliases, s: Scope, attr: Id, src: Id): set<Id>
  {
    set a | a in als && MovableAlias(als, s, attr, src, a)
  }

  function MoveAlias(als: Aliases, s: Scope, attr: Id, tgt: Id, a: Id): Aliases
    requires a in als
  {
    if HasAlias(als, s, attr, als[a].name, tgt) then als[a := als[a].(live := false)]
    else als[a := als[a].(owner := tgt)]
  }

  /** `moveEnumValueAliases` over the listed aliases. */
  function MoveAliases(als: Aliases, s: Scope, attr: Id, tgt: Id, order: seq<Id>): Aliases
    requires forall i :: 0 <= i < |order| ==> order[i] in als
    decreases |order|
  {
    if order == [] then als
    else MoveAliases(MoveAlias(als, s, attr, tgt, order[0]), s, attr, tgt, order[1..])
  }

  function Tombstone(vs: Values, src: Id, tgt: Id): Values
    requires src in vs
  {
    vs[src := vs[src].(live := false, mergedInto := Some(tgt))]
  }

  function NamedValues(vs: Values, s: Scope, attr: Id, name: string): set<Id>
  {
    set v | v in vs && LiveValue(vs, s, attr, v) && vs[v].name == name
  }

  function NamedAliases(als: Aliases, s: Scope, attr: Id, name: string): set<Id>
  {
    set a | a in als && AliasRow(als, s, attr, name, a)
  }

  /** `ensureMergedValueAlias`; None when the insert hits the unique index. */
  function EnsureMergedAlias(als: Aliases, s: Scope, attr: Id, tgt: Id, name: string, title: string, o: Choices)
    : Option<Aliases>
    requires o.aliasPick.Some? ==> o.aliasPick.value in als
  {
    if o.valuePick.Some? && o.valuePick.value != tgt then Some(als)
    else if o.aliasPick.Some? && als[o.aliasPick.value].owner == tgt then Some(als)
    else
      var d := if o.aliasPick.Some? then als[o.aliasPick.value := als[o.aliasPick.value].(live := false)] else als;
      if AliasIndexFree(d, attr, s, name) then Some(d[o.newId := Alias(attr, s, tgt, name, title, true)]) else None
  }

  ghost predicate ValidChoices(db: Db, s: Scope, attr: Id, src: Id, tgt: Id, o: Choices)
  {
    LiveValue(db.values, s, attr, src) && LiveValue(db.values, s, attr, tgt) ==>
      && Lists(o.order, SourceAliases(db.aliases, s, attr, src))
      && FirstOf(o.valuePick, NamedValues(Tombstone(db.values, src, tgt), s, attr, db.values[src].name))
      && FirstOf(o.aliasPick, NamedAliases(MoveAliases(db.aliases, s, attr, tgt, o.order), s, attr, db.values[src].name))
      && o.newId !in db.aliases
  }

  /** `mergeEnumValues` of the repository, as one transaction. */
  ghost function MergeTx(db: Db, s: Scope, attr: Id, src: Id, tgt: Id, o: Choices): TxResult
    requires ValidChoices(db, s, attr, src, tgt, o)
  {
    if !LiveValue(db.values, s, attr, src) || !LiveValue(db.values, s, attr, tgt) then Missing
    else
      var moved := MoveAliases(db.aliases, s, attr, tgt, o.order);
      match EnsureMergedAlias(moved, s, attr, tgt, db.values[src].name, db.values[src].title, o)
      case None => UniqueViolation
      case Some(als) =>
        Committed(db.(productAttributes := RepointProducts(db, s, attr, src, tgt),
                      variantAttributes := RepointVariants(db, s, attr, src, tgt),
                      values := Tombstone(db.values, src, tgt),
                      aliases := als))
  }

  // ---------------------------------------------------------------- moving aliases

  lemma {:induction false} MoveAliasesFrame(als: Aliases, s: Scope, attr: Id, tgt: Id, order: seq<Id>)
    requires forall i :: 0 <= i < |order| ==> order[i] in als
    ensures var d := MoveAliases(als, s, attr, tgt, order);
            && d.Keys == als.Keys
            && forall a :: a in als && a !in order ==> d[a] == als[a]
    decreases |order|
  {
    if order != [] {
      MoveAliasesFrame(MoveAlias(als, s, attr, tgt, order[0]), s, attr, tgt, order[1..]);
    }
  }

  predicate MovedRow(before: Alias, after: Alias, tgt: Id)
  {
    after == before.(live := false) || after == before.(owner := tgt)
  }

  ghost predicate Named(als: Aliases, order: seq<Id>, name: string)
    requires forall i :: 0 <= i < |order| ==> order[i] in als
  {
    exists i :: 0 <= i < |order| && als[order[i]].name == name
  }

  ghost predicate Movable(als: Aliases, s: Scope, attr: Id, src: Id, order: seq<Id>)
  {
    && (forall i, j :: 0 <= i < j < |order| ==> order[i] != order[j])
    && (forall i :: 0 <= i < |order| ==> MovableAlias(als, s, attr, src, order[i]))
  }

  lemma MoveAliasNames(als: Aliases, s: Scope, attr: Id, src: Id, tgt: Id, a: Id, name: string)
    requires src != tgt && MovableAlias(als, s, attr, src, a)
    ensures HasAlias(MoveAlias(als, s, attr, tgt, a), s, attr, name, tgt) <==>
            HasAlias(als, s, attr, name, tgt) || als[a].name == name
  {
    var d := MoveAlias(als, s, attr, tgt, a);
    if b :| b in als && AliasRow(als, s, attr, name, b) && als[b].owner == tgt {
      assert AliasRow(d, s, attr, name, b) && d[b].owner == tgt;
    }
    if als[a].name == name && !HasAlias(als, s, attr, name, tgt) {
      assert AliasRow(d, s, attr, name, a) && d[a].owner == tgt;
    }
    if b :| b in d && AliasRow(d, s, attr, name, b) && d[b].owner == tgt {
      if b != a {
        assert AliasRow(als, s, attr, name, b) && als[b].owner == tgt;
      }
    }
  }

  /** Whatever the order and whatever clashes, the target ends up with exactly
      its own alias names and the moved ones. */
  lemma {:induction false} MoveAliasesNames(als: Aliases, s: Scope, attr: Id, src: Id, tgt: Id, order: seq<Id>, name: string)
    requires src != tgt && Movable(als, s, attr, src, order)
    ensures HasAlias(MoveAliases(als, s, attr, tgt, order), s, attr, name, tgt) <==>
            HasAlias(als, s, attr, name, tgt) || Named(als, order, name)
    decreases |order|
  {
    if order != [] {
      var d := MoveAlias(als, s, attr, tgt, order[0]);
      assert Movable(d, s, attr, src, order[1..]);
      MoveAliasNames(als, s, attr, src, tgt, order[0], name);
      MoveAliasesNames(d, s, attr, src, tgt, order[1..], name);
    }
  }

  lemma {:induction false} MoveAliasesRows(als: Aliases, s: Scope, attr: Id, src: Id, tgt: Id, order: seq<Id>, a: Id)
    requires Movable(als, s, attr, src, order) && a in order
    ensures a in MoveAliases(als, s, attr, tgt, order)
    ensures MovedRow(als[a], MoveAliases(als, s, attr, tgt, order)[a], tgt)
    decreases |order|
  {
    var d := MoveAlias(als, s, attr, tgt, order[0]);
    MoveAliasesFrame(d, s, attr, tgt, order[1..]);
    if a != order[0] {
      assert Movable(d, s, attr, src, order[1..]);
      MoveAliasesRows(d, s, attr, src, tgt, order[1..], a);
    }
  }
}
