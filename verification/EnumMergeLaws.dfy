/** What a merge does to names, references and merge links. */
module EnumMergeLaws {
  import opened Basics
  import opened Counting
  import opened AttributeDb
  import opened EnumMerge

  // ---------------------------------------------------------------- alias names

  lemma ListedNames(als: Aliases, s: Scope, attr: Id, src: Id, order: seq<Id>, name: string)
    requires Lists(order, SourceAliases(als, s, attr, src))
    ensures Movable(als, s, attr, src, order)
    ensures Named(als, order, name) <==> HasAlias(als, s, attr, name, src)
  {
    if a :| a in als && AliasRow(als, s, attr, name, a) && als[a].owner == src {
      assert a in SourceAliases(als, s, attr, src);
      var i :| 0 <= i < |order| && order[i] == a;
    }
    if i :| 0 <= i < |order| && als[order[i]].name == name {
      assert order[i] in SourceAliases(als, s, attr, src);
      assert AliasRow(als, s, attr, name, order[i]);
    }
  }

  /** The moved rows hand the source's alias names to the target. */
  lemma MovedNames(als: Aliases, s: Scope, attr: Id, src: Id, tgt: Id, order: seq<Id>, name: string)
    requires src != tgt && Lists(order, SourceAliases(als, s, attr, src))
    ensures var d := MoveAliases(als, s, attr, tgt, order);
            && (HasAlias(d, s, attr, name, tgt) <==>
                HasAlias(als, s, attr, name, tgt) || HasAlias(als, s, attr, name, src))
            && !HasAlias(d, s, attr, name, src)
  {
    var d := MoveAliases(als, s, attr, tgt, order);
    ListedNames(als, s, attr, src, order, name);
    MoveAliasesNames(als, s, attr, src, tgt, order, name);
    if a :| a in d && AliasRow(d, s, attr, name, a) && d[a].owner == src {
      MoveAliasesFrame(als, s, attr, tgt, order);
      if a in order {
        MoveAliasesRows(als, s, attr, src, tgt, order, a);
      }
      assert false;
    }
  }

  /** Moving leaves the names of every other value alone, in every scope that
      the moved rows do not belong to as well. */
  lemma MovedOthers(als: Aliases, s: Scope, attr: Id, src: Id, tgt: Id, order: seq<Id>,
                    s': Scope, attr': Id, name: string, w: Id)
    requires Lists(order, SourceAliases(als, s, attr, src))
    requires attr' != attr || (w != src && w != tgt) || (s.Some? && s'.Some? && s != s')
    ensures HasAlias(MoveAliases(als, s, attr, tgt, order), s', attr', name, w) <==> HasAlias(als, s', attr', name, w)
  {
    var d := MoveAliases(als, s, attr, tgt, order);
    ListedNames(als, s, attr, src, order, name);
    MoveAliasesFrame(als, s, attr, tgt, order);
    if a :| a in d && AliasRow(d, s', attr', name, a) && d[a].owner == w {
      if a in order {
        MoveAliasesRows(als, s, attr, src, tgt, order, a);
        assert false;
      }
      assert AliasRow(als, s', attr', name, a);
    }
    if a :| a in als && AliasRow(als, s', attr', name, a) && als[a].owner == w {
      assert a !in order;
      assert AliasRow(d, s', attr', name, a);
    }
  }

  /** Re-creating the merged name adds it to the target and takes it from
      nobody but the owner of the alias that `findFirst` returned. */
  lemma EnsuredNames(als: Aliases, s: Scope, attr: Id, tgt: Id, name: string, title: string, o: Choices,
                     attr': Id, n: string, w: Id)
    requires o.valuePick == None || o.valuePick == Some(tgt)
    requires o.aliasPick.Some? ==> AliasRow(als, s, attr, name, o.aliasPick.value)
    requires o.newId !in als
    requires EnsureMergedAlias(als, s, attr, tgt, name, title, o).Some?
    requires o.aliasPick.Some? ==> als[o.aliasPick.value].owner == tgt || als[o.aliasPick.value].owner != w
    ensures HasAlias(EnsureMergedAlias(als, s, attr, tgt, name, title, o).value, s, attr', n, w) <==>
            HasAlias(als, s, attr', n, w) || (attr' == attr && n == name && w == tgt)
  {
    var e := EnsureMergedAlias(als, s, attr, tgt, name, title, o).value;
    if a :| a in e && AliasRow(e, s, attr', n, a) && e[a].owner == w {
      if a != o.newId {
        assert AliasRow(als, s, attr', n, a) && als[a].owner == w;
      }
    }
    if a :| a in als && AliasRow(als, s, attr', n, a) && als[a].owner == w {
      assert AliasRow(e, s, attr', n, a) && e[a].owner == w;
    }
    if attr' == attr && n == name && w == tgt {
      if o.aliasPick.Some? && als[o.aliasPick.value].owner == tgt {
        assert AliasRow(als, s, attr, name, o.aliasPick.value);
      } else {
        assert AliasRow(e, s, attr, name, o.newId) && e[o.newId].owner == tgt;
      }
    }
  }

  /** In other scopes it changes nothing at all. */
  lemma EnsuredElsewhere(als: Aliases, s: Scope, attr: Id, tgt: Id, name: string, title: string, o: Choices,
                         s': Scope, attr': Id, n: string, w: Id)
    requires s.Some? && s'.Some? && s != s'
    requires o.aliasPick.Some? ==> AliasRow(als, s, attr, name, o.aliasPick.value)
    requires o.newId !in als
    requires EnsureMergedAlias(als, s, attr, tgt, name, title, o).Some?
    ensures HasAlias(EnsureMergedAlias(als, s, attr, tgt, name, title, o).value, s', attr', n, w) <==>
            HasAlias(als, s', attr', n, w)
  {
    var e := EnsureMergedAlias(als, s, attr, tgt, name, title, o).value;
    if a :| a in e && AliasRow(e, s', attr', n, a) && e[a].owner == w {
      assert AliasRow(als, s', attr', n, a) && als[a].owner == w;
    }
    if a :| a in als && AliasRow(als, s', attr', n, a) && als[a].owner == w {
      assert AliasRow(e, s', attr', n, a) && e[a].owner == w;
    }
  }

  // ---------------------------------------------------------------- the merged name

  /** Under single ownership the name of the source belongs to nobody else, so
      the value query finds nothing and the alias query finds only rows that
      came from the source or whose owner is not a live value in scope. */
  lemma SourceNameIsItsOwn(db: Db, s: Scope, attr: Id, src: Id, tgt: Id, o: Choices)
    requires src != tgt && LiveValue(db.values, s, attr, src) && LiveValue(db.values, s, attr, tgt)
    requires NamesOwned(db.values, db.aliases, s)
    requires ValidChoices(db, s, attr, src, tgt, o)
    ensures o.valuePick == None
    ensures o.aliasPick.Some? ==>
      var moved := MoveAliases(db.aliases, s, attr, tgt, o.order);
      && AliasRow(moved, s, attr, db.values[src].name, o.aliasPick.value)
      && (moved[o.aliasPick.value].owner == tgt || !LiveValue(Tombstone(db.values, src, tgt), s, attr, moved[o.aliasPick.value].owner))
  {
    var name := db.values[src].name;
    assert Owns(db.values, db.aliases, s, attr, name, src);
    if o.valuePick.Some? {
      assert Owns(db.values, db.aliases, s, attr, name, o.valuePick.value);
      assert false;
    }
    if o.aliasPick.Some? {
      var a := o.aliasPick.value;
      var moved := MoveAliases(db.aliases, s, attr, tgt, o.order);
      ListedNames(db.aliases, s, attr, src, o.order, name);
      MoveAliasesFrame(db.aliases, s, attr, tgt, o.order);
      if a in o.order {
        MoveAliasesRows(db.aliases, s, attr, src, tgt, o.order, a);
      } else {
        var w := moved[a].owner;
        assert AliasRow(db.aliases, s, attr, name, a);
        if LiveValue(Tombstone(db.values, src, tgt), s, attr, w) {
          assert Owns(db.values, db.aliases, s, attr, name, w);
          assert false;
        }
      }
    }
  }

  /** A merge collapses the source into the target and changes no other name:
      what source or target answered to, target answers to; everything else
      resolves as before. This holds for every row `findFirst` may return and
      with any number of aliases left behind by deleted values. */
  lemma MergeCollapsesNames(db: Db, s: Scope, attr: Id, src: Id, tgt: Id, o: Choices, attr': Id, n: string, v: Id)
    requires src != tgt && NamesOwned(db.values, db.aliases, s)
    requires ValidChoices(db, s, attr, src, tgt, o)
    requires MergeTx(db, s, attr, src, tgt, o).Committed?
    ensures var d := MergeTx(db, s, attr, src, tgt, o).db;
            Owns(d.values, d.aliases, s, attr', n, v) <==>
            if attr' == attr
            then v != src && (Owns(db.values, db.aliases, s, attr, n, v)
                              || (v == tgt && Owns(db.values, db.aliases, s, attr, n, src)))
            else Owns(db.values, db.aliases, s, attr', n, v)
  {
    var d := MergeTx(db, s, attr, src, tgt, o).db;
    var moved := MoveAliases(db.aliases, s, attr, tgt, o.order);
    var name := db.values[src].name;
    SourceNameIsItsOwn(db, s, attr, src, tgt, o);
    MoveAliasesFrame(db.aliases, s, attr, tgt, o.order);
    if LiveValue(d.values, s, attr', v) {
      if attr' != attr {
        if o.aliasPick.Some? && moved[o.aliasPick.value].owner == v && v != tgt {
          OtherAttributeOwner(moved, s, attr, tgt, name, db.values[src].title, o, attr', n, v);
        } else {
          EnsuredNames(moved, s, attr, tgt, name, db.values[src].title, o, attr', n, v);
        }
        MovedOthers(db.aliases, s, attr, src, tgt, o.order, s, attr', n, v);
      } else {
        EnsuredNames(moved, s, attr, tgt, name, db.values[src].title, o, attr, n, v);
        if v == tgt {
          MovedNames(db.aliases, s, attr, src, tgt, o.order, n);
        } else {
          MovedOthers(db.aliases, s, attr, src, tgt, o.order, s, attr, n, v);
        }
      }
    }
  }

  lemma OtherAttributeOwner(als: Aliases, s: Scope, attr: Id, tgt: Id, name: string, title: string, o: Choices,
                            attr': Id, n: string, w: Id)
    requires attr' != attr
    requires o.aliasPick.Some? && AliasRow(als, s, attr, name, o.aliasPick.value)
    requires o.newId !in als
    requires EnsureMergedAlias(als, s, attr, tgt, name, title, o).Some?
    ensures HasAlias(EnsureMergedAlias(als, s, attr, tgt, name, title, o).value, s, attr', n, w) <==>
            HasAlias(als, s, attr', n, w)
  {
    var e := EnsureMergedAlias(als, s, attr, tgt, name, title, o).value;
    if a :| a in e && AliasRow(e, s, attr', n, a) && e[a].owner == w {
      assert AliasRow(als, s, attr', n, a) && als[a].owner == w;
    }
    if a :| a in als && AliasRow(als, s, attr', n, a) && als[a].owner == w {
      assert AliasRow(e, s, attr', n, a) && e[a].owner == w;
    }
  }

  /** Other catalogs do not notice. */
  lemma MergeKeepsOtherCatalogs(db: Db, s: Scope, attr: Id, src: Id, tgt: Id, o: Choices,
                                s': Scope, attr': Id, n: string, v: Id)
    requires s.Some? && s'.Some? && s != s'
    requires ValidChoices(db, s, attr, src, tgt, o)
    requires MergeTx(db, s, attr, src, tgt, o).Committed?
    ensures var d := MergeTx(db, s, attr, src, tgt, o).db;
            Owns(d.values, d.aliases, s', attr', n, v) <==> Owns(db.values, db.aliases, s', attr', n, v)
  {
    var moved := MoveAliases(db.aliases, s, attr, tgt, o.order);
    MoveAliasesFrame(db.aliases, s, attr, tgt, o.order);
    EnsuredElsewhere(moved, s, attr, tgt, db.values[src].name, db.values[src].title, o, s', attr', n, v);
    MovedOthers(db.aliases, s, attr, src, tgt, o.order, s', attr', n, v);
  }

  // ---------------------------------------------------------------- when a merge commits

  predicate HoldsSlot(row: Alias, s: Scope, attr: Id, name: string)
  {
    row.attr == attr && row.catalog == s && row.name == name
  }

  /** No alias row, dead or alive, stands in the way of re-creating the merged
      name: the only row with that name may be a live alias of the source. */
  predicate NameSlotOpen(db: Db, s: Scope, attr: Id, src: Id)
    requires src in db.values
  {
    s.Some? ==>
      forall a :: a in db.aliases && HoldsSlot(db.aliases[a], s, attr, db.values[src].name) ==>
        MovableAlias(db.aliases, s, attr, src, a)
  }

  lemma MovedKeepsKeys(als: Aliases, s: Scope, attr: Id, src: Id, tgt: Id, order: seq<Id>)
    requires Lists(order, SourceAliases(als, s, attr, src))
    ensures var d := MoveAliases(als, s, attr, tgt, order);
            && d.Keys == als.Keys
            && forall a :: a in als ==>
                 d[a].attr == als[a].attr && d[a].catalog == als[a].catalog && d[a].name == als[a].name
                 && (d[a] == als[a] || (MovableAlias(als, s, attr, src, a) && MovedRow(als[a], d[a], tgt)))
  {
    MoveAliasesFrame(als, s, attr, tgt, order);
    forall a | a in als
      ensures var d := MoveAliases(als, s, attr, tgt, order);
              d[a] == als[a] || (MovableAlias(als, s, attr, src, a) && MovedRow(als[a], d[a], tgt))
    {
      if a in order {
        ListedNames(als, s, attr, src, order, als[a].name);
        MoveAliasesRows(als, s, attr, src, tgt, order, a);
      }
    }
  }

  /** A source alias that holds the merged name in a catalog reaches the target alive. */
  lemma MovedNameSurvives(als: Aliases, s: Scope, attr: Id, src: Id, tgt: Id, order: seq<Id>, a: Id)
    requires src != tgt && Lists(order, SourceAliases(als, s, attr, src))
    requires AliasesIndexed(als) && s.Some? && MovableAlias(als, s, attr, src, a)
    ensures var d := MoveAliases(als, s, attr, tgt, order);
            a in d && AliasRow(d, s, attr, als[a].name, a) && d[a].owner == tgt
  {
    var d := MoveAliases(als, s, attr, tgt, order);
    var name := als[a].name;
    assert AliasRow(als, s, attr, name, a);
    MovedNames(als, s, attr, src, tgt, order, name);
    MovedKeepsKeys(als, s, attr, src, tgt, order);
    var b :| b in d && AliasRow(d, s, attr, name, b) && d[b].owner == tgt;
    assert SameAliasKey(als[a], als[b]);
  }

  /** In a catalog a merge commits exactly when the slot of the merged name is
      open; otherwise the insert hits the unique index and the whole
      transaction rolls back. Without a catalog it always commits. */
  lemma MergeCommitsIff(db: Db, s: Scope, attr: Id, src: Id, tgt: Id, o: Choices)
    requires src != tgt && LiveValue(db.values, s, attr, src) && LiveValue(db.values, s, attr, tgt)
    requires NamesOwned(db.values, db.aliases, s) && AliasesIndexed(db.aliases)
    requires ValidChoices(db, s, attr, src, tgt, o)
    ensures MergeTx(db, s, attr, src, tgt, o).Committed? <==> NameSlotOpen(db, s, attr, src)
    ensures !NameSlotOpen(db, s, attr, src) ==> MergeTx(db, s, attr, src, tgt, o).UniqueViolation?
  {
    var als := db.aliases;
    var moved := MoveAliases(als, s, attr, tgt, o.order);
    var name := db.values[src].name;
    SourceNameIsItsOwn(db, s, attr, src, tgt, o);
    MovedKeepsKeys(als, s, attr, src, tgt, o.order);
    if s.Some? {
      if a :| a in als && HoldsSlot(als[a], s, attr, name) {
        if MovableAlias(als, s, attr, src, a) {
          MovedNameSurvives(als, s, attr, src, tgt, o.order, a);
          assert a in NamedAliases(moved, s, attr, name);
        } else {
          SlotBlocked(db, s, attr, src, tgt, o, a);
        }
      }
    }
  }

  lemma SlotBlocked(db: Db, s: Scope, attr: Id, src: Id, tgt: Id, o: Choices, a: Id)
    requires src != tgt && LiveValue(db.values, s, attr, src) && LiveValue(db.values, s, attr, tgt)
    requires NamesOwned(db.values, db.aliases, s) && AliasesIndexed(db.aliases) && s.Some?
    requires ValidChoices(db, s, attr, src, tgt, o)
    requires a in db.aliases && HoldsSlot(db.aliases[a], s, attr, db.values[src].name)
    requires !MovableAlias(db.aliases, s, attr, src, a)
    ensures MergeTx(db, s, attr, src, tgt, o).UniqueViolation?
  {
    var als := db.aliases;
    var moved := MoveAliases(als, s, attr, tgt, o.order);
    var name := db.values[src].name;
    SourceNameIsItsOwn(db, s, attr, src, tgt, o);
    MovedKeepsKeys(als, s, attr, src, tgt, o.order);
    assert moved[a] == als[a];
    if o.aliasPick.Some? {
      assert o.aliasPick.value == a;
      if als[a].owner == tgt {
        assert AliasRow(als, s, attr, name, a);
        assert Owns(db.values, als, s, attr, name, tgt) && Owns(db.values, als, s, attr, name, src);
        assert false;
      }
      var d := moved[a := moved[a].(live := false)];
      assert a in d && HoldsSlot(d[a], s, attr, name);
    }
  }

  // ---------------------------------------------------------------- references

  /** The merge hands every live in-scope reference of the source to the target
      and touches no other: nothing is lost and nothing is duplicated. */
  lemma MergeMovesReferences(db: Db, s: Scope, attr: Id, src: Id, tgt: Id, o: Choices)
    requires src != tgt && ValidChoices(db, s, attr, src, tgt, o)
    requires MergeTx(db, s, attr, src, tgt, o).Committed?
    ensures var d := MergeTx(db, s, attr, src, tgt, o).db;
            && ProductRefs(d, s, attr, src) == {} && VariantRefs(d, s, attr, src) == {}
            && |ProductRefs(d, s, attr, tgt)| == |ProductRefs(db, s, attr, tgt)| + |ProductRefs(db, s, attr, src)|
            && |VariantRefs(d, s, attr, tgt)| == |VariantRefs(db, s, attr, tgt)| + |VariantRefs(db, s, attr, src)|
            && (forall v :: v != src && v != tgt ==>
                  ProductRefs(d, s, attr, v) == ProductRefs(db, s, attr, v)
                  && VariantRefs(d, s, attr, v) == VariantRefs(db, s, attr, v))
  {
    var d := MergeTx(db, s, attr, src, tgt, o).db;
    ProductRefsMove(db, d, s, attr, src, tgt);
    VariantRefsMove(db, d, s, attr, src, tgt);
    assert ProductRefs(db, s, attr, tgt) !! ProductRefs(db, s, attr, src);
    assert VariantRefs(db, s, attr, tgt) !! VariantRefs(db, s, attr, src);
  }

  lemma ProductRefsMove(db: Db, d: Db, s: Scope, attr: Id, src: Id, tgt: Id)
    requires src != tgt && d.products == db.products
    requires d.productAttributes == RepointProducts(db, s, attr, src, tgt)
    ensures ProductRefs(d, s, attr, src) == {}
    ensures ProductRefs(d, s, attr, tgt) == ProductRefs(db, s, attr, tgt) + ProductRefs(db, s, attr, src)
    ensures forall v :: v != src && v != tgt ==> ProductRefs(d, s, attr, v) == ProductRefs(db, s, attr, v)
  {
  }

  lemma VariantRefsMove(db: Db, d: Db, s: Scope, attr: Id, src: Id, tgt: Id)
    requires src != tgt && d.products == db.products && d.variants == db.variants
    requires d.variantAttributes == RepointVariants(db, s, attr, src, tgt)
    ensures VariantRefs(d, s, attr, src) == {}
    ensures VariantRefs(d, s, attr, tgt) == VariantRefs(db, s, attr, tgt) + VariantRefs(db, s, attr, src)
    ensures forall v :: v != src && v != tgt ==> VariantRefs(d, s, attr, v) == VariantRefs(db, s, attr, v)
  {
  }

  // ---------------------------------------------------------------- merge links

  lemma {:induction false} Above(ranks: set<nat>) returns (m: nat)
    ensures forall r :: r in ranks ==> r < m
    decreases |ranks|
  {
    if ranks == {} {
      m := 0;
    } else {
      var r :| r in ranks;
      var m' := Above(ranks - {r});
      m := if r < m' then m' else r + 1;
      forall q | q in ranks
        ensures q < m
      {
        assert q == r || q in ranks - {r};
      }
    }
  }

  // ---------------------------------------------------------------- alias rows

  /** No two live aliases of the value in scope have one name. */
  ghost predicate AliasesDiffer(als: Aliases, s: Scope, attr: Id, v: Id)
  {
    forall a, b :: Names(als, s, attr, v, a) && Names(als, s, attr, v, b) && als[a].name == als[b].name ==> a == b
  }

  /** A live alias of the value in scope. */
  ghost predicate Names(als: Aliases, s: Scope, attr: Id, v: Id, a: Id)
  {
    a in als && als[a].owner == v && AliasRow(als, s, attr, als[a].name, a)
  }

  lemma MoveKeepsAliasesDifferent(als: Aliases, s: Scope, attr: Id, tgt: Id, a: Id)
    requires a in als && AliasesDiffer(als, s, attr, tgt)
    ensures AliasesDiffer(MoveAlias(als, s, attr, tgt, a), s, attr, tgt)
  {
    var d := MoveAlias(als, s, attr, tgt, a);
    forall x, y | Names(d, s, attr, tgt, x) && Names(d, s, attr, tgt, y) && d[x].name == d[y].name
      ensures x == y
    {
      assert x != a ==> als[x] == d[x] && Names(als, s, attr, tgt, x);
      assert y != a ==> als[y] == d[y] && Names(als, s, attr, tgt, y);
    }
  }

  /** An alias whose name the target has already dies instead of moving, so the
      target's aliases keep differing. */
  lemma {:induction false} MovedAliasesDiffer(als: Aliases, s: Scope, attr: Id, tgt: Id, order: seq<Id>)
    requires (forall i :: 0 <= i < |order| ==> order[i] in als) && AliasesDiffer(als, s, attr, tgt)
    ensures AliasesDiffer(MoveAliases(als, s, attr, tgt, order), s, attr, tgt)
    decreases |order|
  {
    if order != [] {
      MoveKeepsAliasesDifferent(als, s, attr, tgt, order[0]);
      MovedAliasesDiffer(MoveAlias(als, s, attr, tgt, order[0]), s, attr, tgt, order[1..]);
    }
  }

  /** Re-creating the name leaves the table alone if another value has the name or
      the conflicting alias is the target's own; else the conflicting alias dies
      and one row is added. */
  lemma EnsuredRows(als: Aliases, s: Scope, attr: Id, tgt: Id, name: string, title: string, o: Choices, a: Id)
    requires (o.aliasPick.Some? ==> o.aliasPick.value in als) && o.newId !in als && a in als
    requires EnsureMergedAlias(als, s, attr, tgt, name, title, o).Some?
    ensures var d := EnsureMergedAlias(als, s, attr, tgt, name, title, o).value;
            var idle := (o.valuePick.Some? && o.valuePick != Some(tgt)) || (o.aliasPick.Some? && als[o.aliasPick.value].owner == tgt);
            && (idle ==> d == als)
            && (!idle ==> d.Keys == als.Keys + {o.newId} && d[o.newId] == Alias(attr, s, tgt, name, title, true))
            && (!idle ==> d[a] == if o.aliasPick == Some(a) then als[a].(live := false) else als[a])
  {
  }

  /** The source's row, and no other, is marked deleted and points at the target. */
  ghost predicate MergedAway(before: Values, after: Values, src: Id, tgt: Id)
  {
    && src in before && after.Keys == before.Keys
    && (forall v :: v in before && v != src ==> after[v] == before[v])
    && !after[src].live && after[src].mergedInto == Some(tgt)
    && after[src] == before[src].(live := after[src].live, mergedInto := after[src].mergedInto)
  }

  lemma MergePointsAtTarget(db: Db, s: Scope, attr: Id, src: Id, tgt: Id, o: Choices)
    requires ValidChoices(db, s, attr, src, tgt, o) && MergeTx(db, s, attr, src, tgt, o).Committed?
    ensures MergedAway(db.values, MergeTx(db, s, attr, src, tgt, o).db.values, src, tgt)
  {
  }

  /** Live in-scope references to the source now name the target, and no other
      reference row changes. */
  ghost predicate ReferencesRewritten(db: Db, d: Db, s: Scope, attr: Id, src: Id, tgt: Id)
  {
    && d.productAttributes.Keys == db.productAttributes.Keys && d.variantAttributes.Keys == db.variantAttributes.Keys
    && (forall p :: p in db.productAttributes ==>
          var row := db.productAttributes[p];
          var ours := s.None? || (row.product in db.products && Some(db.products[row.product]) == s);
          d.productAttributes[p] ==
            if row.live && ours && row.attr == attr && row.value == Some(src) then row.(value := Some(tgt)) else row)
    && (forall p :: p in db.variantAttributes ==>
          var row := db.variantAttributes[p];
          var ours := s.None? || (row.variant in db.variants && db.variants[row.variant].product in db.products
                                  && Some(db.products[db.variants[row.variant].product]) == s);
          d.variantAttributes[p] == if row.live && ours && row.attr == attr && row.value == src then row.(value := tgt) else row)
  }

  lemma MergeRewritesReferences(db: Db, s: Scope, attr: Id, src: Id, tgt: Id, o: Choices)
    requires ValidChoices(db, s, attr, src, tgt, o) && MergeTx(db, s, attr, src, tgt, o).Committed?
    ensures ReferencesRewritten(db, MergeTx(db, s, attr, src, tgt, o).db, s, attr, src, tgt)
  {
  }

  /** An alias row that a merge adds carries the source's name and display name. */
  lemma MergeAddsItsName(db: Db, s: Scope, attr: Id, src: Id, tgt: Id, o: Choices, a: Id)
    requires ValidChoices(db, s, attr, src, tgt, o) && MergeTx(db, s, attr, src, tgt, o).Committed?
    ensures var d := MergeTx(db, s, attr, src, tgt, o).db;
            a in d.aliases && a !in db.aliases ==>
              d.aliases[a] == Alias(attr, s, tgt, db.values[src].name, db.values[src].title, true)
  {
    MoveAliasesFrame(db.aliases, s, attr, tgt, o.order);
  }

  /** Merging a live source into a live target keeps the links acyclic: the
      target has no link of its own yet, so it can be ranked above everything. */
  lemma TombstoneKeepsLinks(vs: Values, src: Id, tgt: Id)
    requires LinksPlaced(vs) && LinksAcyclic(vs) && src != tgt
    requires src in vs && tgt in vs && vs[src].live && vs[tgt].live
    ensures LinksPlaced(Tombstone(vs, src, tgt)) && LinksAcyclic(Tombstone(vs, src, tgt))
  {
    var rank :| Climbs(vs, rank);
    var m := Above(rank.Values);
    var d := Tombstone(vs, src, tgt);
    var rank' := rank[tgt := m];
    forall v | v in d && d[v].mergedInto.Some? && d[v].mergedInto.value in rank'
      ensures rank'[v] < rank'[d[v].mergedInto.value]
    {
      assert rank[v] in rank.Values;
    }
    assert Climbs(d, rank');
  }

  ghost predicate MergePath(vs: Values, p: seq<Id>)
  {
    && (forall i :: 0 <= i < |p| ==> p[i] in vs)
    && (forall i :: 0 <= i < |p| - 1 ==> vs[p[i]].mergedInto == Some(p[i + 1]))
  }

  lemma LinkClimbs(vs: Values, rank: map<Id, nat>, v: Id, w: Id)
    requires Climbs(vs, rank) && v in vs && w in vs && vs[v].mergedInto == Some(w)
    ensures v in rank && w in rank && rank[v] < rank[w]
  {
  }

  lemma {:induction false} PathClimbs(vs: Values, rank: map<Id, nat>, p: seq<Id>, i: nat, j: nat)
    requires Climbs(vs, rank) && MergePath(vs, p) && i < j < |p|
    ensures rank[p[i]] < rank[p[j]]
    decreases j
  {
    assert p[j - 1] in vs && vs[p[j - 1]].mergedInto == Some(p[j]);
    LinkClimbs(vs, rank, p[j - 1], p[j]);
    if i < j - 1 {
      PathClimbs(vs, rank, p, i, j - 1);
    }
  }

  /** Following merge links never comes back to a value and stops after at most
      as many steps as there are values. */
  lemma MergePathsEnd(vs: Values, p: seq<Id>)
    requires LinksAcyclic(vs) && MergePath(vs, p)
    ensures forall i, j :: 0 <= i < j < |p| ==> p[i] != p[j]
    ensures |p| <= |vs|
  {
    var rank :| Climbs(vs, rank);
    forall i, j | 0 <= i < j < |p|
      ensures p[i] != p[j]
    {
      PathClimbs(vs, rank, p, i, j);
    }
    DistinctFits(p, vs.Keys);
  }

  // ---------------------------------------------------------------- the invariant

  lemma MergeKeepsRows(db: Db, s: Scope, attr: Id, src: Id, tgt: Id, o: Choices)
    requires ValidChoices(db, s, attr, src, tgt, o)
    requires MergeTx(db, s, attr, src, tgt, o).Committed?
    requires AliasesAttached(db.values, db.aliases) && ValuesIndexed(db.values) && AliasesIndexed(db.aliases)
    ensures var d := MergeTx(db, s, attr, src, tgt, o).db;
            AliasesAttached(d.values, d.aliases) && ValuesIndexed(d.values) && AliasesIndexed(d.aliases)
  {
    var d := MergeTx(db, s, attr, src, tgt, o).db;
    var moved := MoveAliases(db.aliases, s, attr, tgt, o.order);
    MovedKeepsKeys(db.aliases, s, attr, src, tgt, o.order);
    assert AliasesAttached(d.values, moved);
    forall a, b | a in moved && b in moved && SameAliasKey(moved[a], moved[b])
      ensures a == b
    {
      assert SameAliasKey(db.aliases[a], db.aliases[b]);
    }
    EnsuredKeepsRows(d.values, moved, s, attr, tgt, db.values[src].name, db.values[src].title, o);
    forall v, w | v in d.values && w in d.values && SameValueKey(d.values[v], d.values[w])
      ensures v == w
    {
      assert SameValueKey(db.values[v], db.values[w]);
    }
  }

  lemma EnsuredKeepsRows(vs: Values, als: Aliases, s: Scope, attr: Id, tgt: Id, name: string, title: string, o: Choices)
    requires AliasesAttached(vs, als) && AliasesIndexed(als) && tgt in vs && vs[tgt].attr == attr
    requires o.newId !in als && (o.aliasPick.Some? ==> o.aliasPick.value in als)
    requires EnsureMergedAlias(als, s, attr, tgt, name, title, o).Some?
    ensures var e := EnsureMergedAlias(als, s, attr, tgt, name, title, o).value;
            AliasesAttached(vs, e) && AliasesIndexed(e)
  {
  }

  lemma MergeKeepsNames(db: Db, s: Scope, attr: Id, src: Id, tgt: Id, o: Choices)
    requires src != tgt && NamesOwnedOnce(db.values, db.aliases, s.Some?)
    requires ValidChoices(db, s, attr, src, tgt, o)
    requires MergeTx(db, s, attr, src, tgt, o).Committed?
    ensures var d := MergeTx(db, s, attr, src, tgt, o).db; NamesOwnedOnce(d.values, d.aliases, s.Some?)
  {
    var d := MergeTx(db, s, attr, src, tgt, o).db;
    OwnedInScope(db.values, db.aliases, s);
    forall attr', n, v, w | Owns(d.values, d.aliases, s, attr', n, v) && Owns(d.values, d.aliases, s, attr', n, w)
      ensures v == w
    {
      MergeCollapsesNames(db, s, attr, src, tgt, o, attr', n, v);
      MergeCollapsesNames(db, s, attr, src, tgt, o, attr', n, w);
    }
    if s.Some? {
      forall c: Id
        ensures NamesOwned(d.values, d.aliases, Some(c))
      {
        if Some(c) != s {
          MergeKeepsCatalog(db, s, attr, src, tgt, o, c);
        }
      }
    }
  }

  lemma MergeKeepsCatalog(db: Db, s: Scope, attr: Id, src: Id, tgt: Id, o: Choices, c: Id)
    requires s.Some? && Some(c) != s && NamesOwned(db.values, db.aliases, Some(c))
    requires ValidChoices(db, s, attr, src, tgt, o)
    requires MergeTx(db, s, attr, src, tgt, o).Committed?
    ensures var d := MergeTx(db, s, attr, src, tgt, o).db; NamesOwned(d.values, d.aliases, Some(c))
  {
    var d := MergeTx(db, s, attr, src, tgt, o).db;
    forall attr', n, v, w
      | Owns(d.values, d.aliases, Some(c), attr', n, v) && Owns(d.values, d.aliases, Some(c), attr', n, w)
      ensures v == w
    {
      MergeKeepsOtherCatalogs(db, s, attr, src, tgt, o, Some(c), attr', n, v);
      MergeKeepsOtherCatalogs(db, s, attr, src, tgt, o, Some(c), attr', n, w);
    }
  }

  lemma MergeKeepsInv(db: Db, s: Scope, attr: Id, src: Id, tgt: Id, o: Choices)
    requires src != tgt && Inv(db, s.Some?)
    requires ValidChoices(db, s, attr, src, tgt, o)
    requires MergeTx(db, s, attr, src, tgt, o).Committed?
    ensures Inv(MergeTx(db, s, attr, src, tgt, o).db, s.Some?)
  {
    MergeKeepsRows(db, s, attr, src, tgt, o);
    MergeKeepsNames(db, s, attr, src, tgt, o);
    TombstoneKeepsLinks(db.values, src, tgt);
  }
}
