/** The backfill that attaches open cart items to the sole default variant of
    their product, in batches. */
module CartItemBackfill {
  import opened Basics
  import opened Counting
  import opened BatchQueries
  import opened VariantKinds

  /** `active`: the item is not deleted and its cart is live and still open. */
  datatype CartItem = CartItem(product: Id, variant: Option<Id>, active: bool)
  type Items = map<Id, CartItem>

  /** Active items without a variant. */
  function Open(items: Items): set<Id>
  {
    set i | i in items && items[i].active && items[i].variant.None?
  }

  ghost predicate SoleDefault(vs: Variants, product: Id, v: Id)
  {
    LiveVariants(vs, product) == {v} && IsDefault(vs[v])
  }

  ghost predicate Fixable(items: Items, vs: Variants, i: Id)
  {
    i in items && exists v :: v in vs && SoleDefault(vs, items[i].product, v)
  }

  ghost function VariantFor(items: Items, vs: Variants, i: Id): Id
    requires Fixable(items, vs, i)
  {
    var v :| v in vs && SoleDefault(vs, items[i].product, v);
    v
  }

  /** An item can be fixed if its product has one live variant, and that is of kind
      DEFAULT or has the key `default`. */
  lemma FixableIff(items: Items, vs: Variants, i: Id)
    requires i in items
    ensures Fixable(items, vs, i) <==> exists v :: OnlyLiveDefault(items, vs, i, v)
  {
    if v :| OnlyLiveDefault(items, vs, i, v) {
      forall w
        ensures w in LiveVariants(vs, items[i].product) <==> w == v
      {
      }
      assert LiveVariants(vs, items[i].product) == {v};
      assert SoleDefault(vs, items[i].product, v);
    }
    if v :| v in vs && SoleDefault(vs, items[i].product, v) {
      assert v in LiveVariants(vs, items[i].product);
      assert forall w :: w in vs && vs[w].live && vs[w].product == items[i].product ==> w in LiveVariants(vs, items[i].product);
      assert OnlyLiveDefault(items, vs, i, v);
    }
  }

  ghost predicate OnlyLiveDefault(items: Items, vs: Variants, i: Id, v: Id)
    requires i in items
  {
    && v in vs && vs[v].live && vs[v].product == items[i].product && (vs[v].kind == DEFAULT || vs[v].variantKey == "default")
    && forall w :: w in vs && vs[w].live && vs[w].product == items[i].product ==> w == v
  }

  /** The table after the loop: items in reach hold the only live default variant
      of their product, all other items are as they were. */
  lemma AttachedRows(items: Items, vs: Variants, done: set<Id>, i: Id)
    requires (forall j :: j in done ==> Fixable(items, vs, j)) && i in items
    ensures var d := Attach(items, vs, done);
            && d.Keys == items.Keys && (i !in done ==> d[i] == items[i])
            && (i in done ==> d[i] == items[i].(variant := d[i].variant) && d[i].variant.Some?
                              && OnlyLiveDefault(items, vs, i, d[i].variant.value))
  {
    if i in done {
      var v := VariantFor(items, vs, i);
      assert SoleDefault(vs, items[i].product, v) && v in LiveVariants(vs, items[i].product);
      assert forall w :: w in vs && vs[w].live && vs[w].product == items[i].product ==> w in LiveVariants(vs, items[i].product);
    }
  }

  lemma OpenIff(items: Items, i: Id)
    ensures i in Open(items) <==> i in items && items[i].active && items[i].variant == None
  {
  }

  // ---------------------------------------------------------------- what the loop reaches

  ghost function UnfixableBefore(items: Items, vs: Variants, i: Id): set<Id>
  {
    set u | u in Open(items) && !Fixable(items, vs, u) && u < i
  }

  /** Fixable open items with fewer than a batch of unfixable ones before them. */
  ghost function Reach(items: Items, vs: Variants, batchSize: nat): set<Id>
  {
    set i | i in Open(items) && Fixable(items, vs, i) && |UnfixableBefore(items, vs, i)| < batchSize
  }

  ghost function Attach(items: Items, vs: Variants, done: set<Id>): Items
    requires forall i :: i in done ==> Fixable(items, vs, i)
  {
    map i | i in items :: if i in done then items[i].(variant := Some(VariantFor(items, vs, i))) else items[i]
  }

  /** If fewer than a batch of open items are unfixable, every fixable one is reached. */
  lemma FewUnfixableReachesAll(items: Items, vs: Variants, batchSize: nat)
    requires |set u | u in Open(items) && !Fixable(items, vs, u)| < batchSize
    ensures Reach(items, vs, batchSize) == set i | i in Open(items) && Fixable(items, vs, i)
  {
    var unfixable := set u | u in Open(items) && !Fixable(items, vs, u);
    forall i | i in Open(items) && Fixable(items, vs, i)
      ensures |UnfixableBefore(items, vs, i)| < batchSize
    {
      SubsetSize(UnfixableBefore(items, vs, i), unfixable);
    }
  }

  // ---------------------------------------------------------------- state of the run

  /** Items attached so far are within reach, and nothing else changed. */
  ghost predicate Progress(items: Items, vs: Variants, batchSize: nat, done: set<Id>, now: Items)
  {
    done <= Reach(items, vs, batchSize) && now == Attach(items, vs, done)
  }

  lemma OpenNow(items: Items, vs: Variants, batchSize: nat, done: set<Id>, now: Items)
    requires Progress(items, vs, batchSize, done, now)
    ensures Open(now) == Open(items) - done
    ensures forall i :: i in items ==> (Fixable(now, vs, i) <==> Fixable(items, vs, i))
    ensures forall i :: i in items && Fixable(items, vs, i) ==> VariantFor(now, vs, i) == VariantFor(items, vs, i)
  {
  }

  /** A fixable item of a batch has only batch members before it, so it is within reach. */
  lemma BatchIsWithinReach(items: Items, vs: Variants, batchSize: nat, done: set<Id>, now: Items, batch: seq<Id>, k: nat)
    requires Progress(items, vs, batchSize, done, now) && FirstBatch(batch, Open(now), batchSize)
    requires k < |batch| && Fixable(items, vs, batch[k])
    ensures batch[k] in Reach(items, vs, batchSize)
  {
    OpenNow(items, vs, batchSize, done, now);
    var before := UnfixableBefore(items, vs, batch[k]);
    forall u | u in before
      ensures u in Elements(batch) - {batch[k]}
    {
      assert u in Open(now);
      assert u in batch;
    }
    DistinctCount(batch);
    SubsetSize(before, Elements(batch) - {batch[k]});
  }

  /** Distinct items, not attached yet, each within reach if fixable. */
  ghost predicate Eligible(items: Items, vs: Variants, batchSize: nat, done: set<Id>, batch: seq<Id>)
  {
    && (forall j, k :: 0 <= j < k < |batch| ==> batch[j] != batch[k])
    && (forall k :: 0 <= k < |batch| ==> batch[k] in items && batch[k] !in done)
    && (forall k :: 0 <= k < |batch| && Fixable(items, vs, batch[k]) ==> batch[k] in Reach(items, vs, batchSize))
  }

  lemma BatchIsEligible(items: Items, vs: Variants, batchSize: nat, done: set<Id>, now: Items, batch: seq<Id>)
    requires Progress(items, vs, batchSize, done, now) && FirstBatch(batch, Open(now), batchSize)
    ensures Eligible(items, vs, batchSize, done, batch)
  {
    OpenNow(items, vs, batchSize, done, now);
    forall k | 0 <= k < |batch| && Fixable(items, vs, batch[k])
      ensures batch[k] in Reach(items, vs, batchSize)
    {
      BatchIsWithinReach(items, vs, batchSize, done, now, batch, k);
    }
  }

  ghost predicate NoneFixable(items: Items, vs: Variants, batch: seq<Id>, n: nat)
    requires n <= |batch|
  {
    forall k :: 0 <= k < n ==> !Fixable(items, vs, batch[k])
  }

  /** The fixable ones among the first n of a batch. */
  ghost function FixableIn(items: Items, vs: Variants, batch: seq<Id>, n: nat): set<Id>
    requires n <= |batch|
  {
    set k | 0 <= k < n && Fixable(items, vs, batch[k]) :: batch[k]
  }

  /** The first n items of a batch are through: the fixable ones were attached
      on top of those done before, and counted. */
  ghost predicate Through(items: Items, vs: Variants, batch: seq<Id>, n: nat, done: set<Id>, reached: set<Id>, updated: nat)
  {
    && n <= |batch| && done <= reached && |reached| == |done| + updated
    && (forall x :: x in reached ==> x in done || x in batch)
    && (forall k :: 0 <= k < n ==> (batch[k] in reached <==> Fixable(items, vs, batch[k])))
    && (forall k :: n <= k < |batch| ==> batch[k] !in reached)
  }

  lemma AllThrough(items: Items, vs: Variants, batch: seq<Id>, done: set<Id>, reached: set<Id>, updated: nat)
    requires Through(items, vs, batch, |batch|, done, reached, updated)
    ensures reached == done + FixableIn(items, vs, batch, |batch|)
  {
    forall x | x in reached && x !in done
      ensures x in FixableIn(items, vs, batch, |batch|)
    {
      var k :| 0 <= k < |batch| && batch[k] == x;
    }
  }

  /** A batch without a fixable item means everything within reach is attached. */
  lemma StuckIsDone(items: Items, vs: Variants, batchSize: nat, done: set<Id>, now: Items, batch: seq<Id>)
    requires Progress(items, vs, batchSize, done, now) && FirstBatch(batch, Open(now), batchSize)
    requires NoneFixable(items, vs, batch, |batch|)
    ensures done == Reach(items, vs, batchSize)
  {
    OpenNow(items, vs, batchSize, done, now);
    forall x | x in Reach(items, vs, batchSize)
      ensures x in done
    {
      if x !in done {
        assert x in Open(now) && x !in batch;
        if |batch| == |Open(now)| {
          DistinctFits(batch, Open(now) - {x});
        } else {
          DistinctFits(batch, UnfixableBefore(items, vs, x));
        }
      }
    }
  }

  lemma OpenShrinks(items: Items, vs: Variants, batchSize: nat, done: set<Id>, now: Items, more: set<Id>, next: Items)
    requires Progress(items, vs, batchSize, done, now) && Progress(items, vs, batchSize, more, next)
    requires done <= more && |done| < |more|
    ensures |Open(next)| < |Open(now)|
  {
    OpenNow(items, vs, batchSize, done, now);
    OpenNow(items, vs, batchSize, more, next);
    FewerLeft(Open(items), done, more);
  }

  // ---------------------------------------------------------------- how often items are skipped

  /** The first n open items. */
  ghost function FirstOpen(items: Items, n: nat): set<Id>
  {
    set x | x in Open(items) && |set y | y in Open(items) && y < x| < n
  }

  ghost function FixableAmong(items: Items, vs: Variants, ids: set<Id>): set<Id>
  {
    set i | i in ids && Fixable(items, vs, i)
  }

  /** Skips in all passes: each pass skips the items of its batch that cannot be
      fixed, and a pass that fixes none is the last. */
  ghost function Skips(items: Items, vs: Variants, batchSize: nat): nat
    decreases |Open(items)|
  {
    var batch := FirstOpen(items, batchSize);
    var fixed := FixableAmong(items, vs, batch);
    var skipped := |batch - fixed|;
    if fixed == {} then skipped
    else
      PassShrinks(items, vs, fixed);
      skipped + Skips(Attach(items, vs, fixed), vs, batchSize)
  }

  lemma PassShrinks(items: Items, vs: Variants, fixed: set<Id>)
    requires fixed != {} && forall i :: i in fixed ==> i in Open(items) && Fixable(items, vs, i)
    ensures |Open(Attach(items, vs, fixed))| < |Open(items)|
  {
    forall x
      ensures x in Open(Attach(items, vs, fixed)) <==> x in Open(items) - fixed
    {
    }
    assert Open(Attach(items, vs, fixed)) == Open(items) - fixed;
    var x := SomeOf(fixed);
    SubsetSize(Open(items) - fixed, Open(items) - {x});
  }

  lemma BatchIsFirstOpen(items: Items, batch: seq<Id>, n: nat)
    requires FirstBatch(batch, Open(items), n)
    ensures Elements(batch) == FirstOpen(items, n)
  {
    forall k | 0 <= k < |batch|
      ensures batch[k] in FirstOpen(items, n)
    {
      var below := set y | y in Open(items) && y < batch[k];
      assert below == Elements(batch[..k]) by {
        assert forall j :: 0 <= j < k ==> batch[..k][j] == batch[j];
        forall y | y in below
          ensures y in batch[..k]
        {
          assert y in batch;
          var j :| 0 <= j < |batch| && batch[j] == y;
          assert batch[..k][j] == y;
        }
      }
      DistinctCount(batch[..k]);
    }
    forall x | x in FirstOpen(items, n)
      ensures x in batch
    {
      if x !in batch {
        if |batch| == |Open(items)| {
          DistinctFits(batch, Open(items) - {x});
        } else {
          DistinctFits(batch, set y | y in Open(items) && y < x);
        }
      }
    }
  }

  lemma AttachedInTurn(start: Items, vs: Variants, batchSize: nat, done: set<Id>, now: Items, fixed: set<Id>, next: Items)
    requires Progress(start, vs, batchSize, done, now) && Progress(start, vs, batchSize, done + fixed, next) && done !! fixed
    requires forall i :: i in fixed ==> Fixable(now, vs, i)
    ensures next == Attach(now, vs, fixed)
  {
    OpenNow(start, vs, batchSize, done, now);
  }

  lemma FixedInBatch(start: Items, vs: Variants, batchSize: nat, done: set<Id>, now: Items, batch: seq<Id>)
    requires Progress(start, vs, batchSize, done, now) && FirstBatch(batch, Open(now), batchSize)
    ensures FixableAmong(now, vs, Elements(batch)) == FixableIn(start, vs, batch, |batch|)
    ensures FixableIn(start, vs, batch, |batch|) !! done && FixableIn(start, vs, batch, |batch|) <= Elements(batch)
  {
    OpenNow(start, vs, batchSize, done, now);
  }

  lemma SplitSize(all: set<Id>, part: set<Id>)
    requires part <= all
    ensures |all - part| == |all| - |part|
  {
    assert all == (all - part) + part;
  }

  /** One pass of the loop is one step of the count. */
  lemma SkipsNext(start: Items, vs: Variants, batchSize: nat, done: set<Id>, now: Items, batch: seq<Id>, reached: set<Id>, next: Items)
    requires Progress(start, vs, batchSize, done, now) && Progress(start, vs, batchSize, reached, next)
    requires FirstBatch(batch, Open(now), batchSize) && reached == done + FixableIn(start, vs, batch, |batch|)
    ensures Skips(now, vs, batchSize) ==
            |batch| - (|reached| - |done|) + if |reached| == |done| then 0 else Skips(next, vs, batchSize)
  {
    var fixed := FixableIn(start, vs, batch, |batch|);
    BatchIsFirstOpen(now, batch, batchSize);
    FixedInBatch(start, vs, batchSize, done, now, batch);
    DistinctCount(batch);
    SplitSize(Elements(batch), fixed);
    if fixed != {} {
      AttachedInTurn(start, vs, batchSize, done, now, fixed, next);
    }
  }

  class CartStore {
    var items: Items
    const variants: Variants

    constructor (items: Items, variants: Variants)
      ensures this.items == items && this.variants == variants
    {
      this.items := items;
      this.variants := variants;
    }

    /** The two-row variant query: exactly one live variant, and a default one. */
    method ShouldUpdate(i: Id) returns (ok: bool, variant: Id)
      requires i in items
      ensures ok <==> Fixable(items, variants, i)
      ensures ok ==> variant == VariantFor(items, variants, i)
    {
      var live := LiveVariants(variants, items[i].product);
      ok, variant := false, 0;
      if live != {} {
        variant := AnyOf(live);
        ok := live == {variant} && IsDefault(variants[variant]);
        if ok {
          assert SoleDefault(variants, items[i].product, variant);
        }
      }
    }

    /** Attaches one item if it is fixable. */
    method ProcessItem(i: Id, ghost start: Items, batchSize: nat, ghost done: set<Id>) returns (ok: bool)
      requires Progress(start, variants, batchSize, done, items) && i in start
      requires Fixable(start, variants, i) ==> i in Reach(start, variants, batchSize)
      modifies this`items
      ensures ok <==> Fixable(start, variants, i)
      ensures ok ==> Progress(start, variants, batchSize, done + {i}, items)
      ensures !ok ==> items == old(items)
    {
      var variant;
      ok, variant := ShouldUpdate(i);
      if ok {
        items := items[i := items[i].(variant := Some(variant))];
      }
    }

    /** One pass over a batch attaches exactly its fixable items. */
    method ProcessBatch(batch: seq<Id>, ghost start: Items, batchSize: nat, ghost done: set<Id>)
      returns (updated: nat, skipped: nat, ghost reached: set<Id>)
      requires Progress(start, variants, batchSize, done, items) && Eligible(start, variants, batchSize, done, batch)
      modifies this`items
      ensures updated + skipped == |batch| && |reached| == |done| + updated
      ensures reached == done + FixableIn(start, variants, batch, |batch|)
      ensures Progress(start, variants, batchSize, reached, items)
    {
      updated, skipped, reached := 0, 0, done;
      for k := 0 to |batch|
        invariant updated + skipped == k
        invariant Progress(start, variants, batchSize, reached, items)
        invariant Through(start, variants, batch, k, done, reached, updated)
      {
        var ok := ProcessItem(batch[k], start, batchSize, reached);
        if ok {
          updated := updated + 1;
          reached := reached + {batch[k]};
        } else {
          skipped := skipped + 1;
        }
      }
      AllThrough(start, variants, batch, done, reached, updated);
    }

    /** One turn of the loop; the last one finds nothing to fix. */
    method OnePass(batchSize: nat, ghost start: Items, ghost done: set<Id>)
      returns (updated: nat, skipped: nat, last: bool, ghost reached: set<Id>)
      requires batchSize > 0 && Progress(start, variants, batchSize, done, items)
      modifies this`items
      ensures Progress(start, variants, batchSize, reached, items) && |reached| == |done| + updated
      ensures Skips(old(items), variants, batchSize) == skipped + if last then 0 else Skips(items, variants, batchSize)
      ensures last ==> reached == Reach(start, variants, batchSize)
      ensures !last ==> |Open(items)| < |Open(old(items))|
    {
      var batch := TakeFirst(Open(items), batchSize);
      BatchIsEligible(start, variants, batchSize, done, items, batch);
      updated, skipped, reached := ProcessBatch(batch, start, batchSize, done);
      SkipsNext(start, variants, batchSize, done, old(items), batch, reached, items);
      last := updated == 0;
      if last {
        SameSize(done, reached);
        StuckIsDone(start, variants, batchSize, done, old(items), batch);
      } else {
        OpenShrinks(start, variants, batchSize, done, old(items), reached, items);
      }
    }

    /** `backfillOpenCartItemVariants`: the loop ends, attaches exactly the items
        within reach, each to the sole default variant of its own product, and
        changes nothing else. */
    method Backfill(batchSize: nat) returns (updated: nat, skipped: nat, processed: nat)
      requires batchSize > 0
      modifies this`items
      ensures processed == updated + skipped && updated == |Reach(old(items), variants, batchSize)|
      ensures skipped == Skips(old(items), variants, batchSize)
      ensures items == Attach(old(items), variants, Reach(old(items), variants, batchSize))
    {
      updated, skipped, processed := 0, 0, 0;
      ghost var done: set<Id> := {};
      assert items == Attach(items, variants, {});
      var last := false;
      while !last
        invariant processed == updated + skipped && updated == |done|
        invariant Progress(old(items), variants, batchSize, done, items)
        invariant Skips(old(items), variants, batchSize) == skipped + if last then 0 else Skips(items, variants, batchSize)
        invariant last ==> done == Reach(old(items), variants, batchSize)
        decreases !last, |Open(items)|
      {
        var updatedInBatch, skippedInBatch;
        updatedInBatch, skippedInBatch, last, done := OnePass(batchSize, old(items), done);
        processed := processed + updatedInBatch + skippedInBatch;
        updated, skipped := updated + updatedInBatch, skipped + skippedInBatch;
      }
    }
  }

  // ---------------------------------------------------------------- what it means

  /** Open items whose variant belongs to another product. */
  ghost function Mismatches(items: Items, vs: Variants): set<Id>
  {
    set i | && i in items && items[i].active && items[i].variant.Some? && items[i].variant.value in vs
            && vs[items[i].variant.value].live && vs[items[i].variant.value].product != items[i].product
  }

  lemma MismatchIff(items: Items, vs: Variants, i: Id)
    ensures i in Mismatches(items, vs) <==>
            && i in items && items[i].active && items[i].variant.Some? && items[i].variant.value in vs
            && vs[items[i].variant.value].live && items[i].product != vs[items[i].variant.value].product
  {
  }

  /** The backfill creates no item/variant mismatch. */
  lemma NoNewMismatch(items: Items, vs: Variants, done: set<Id>)
    requires forall i :: i in done ==> Fixable(items, vs, i) && i in Open(items)
    ensures Mismatches(Attach(items, vs, done), vs) == Mismatches(items, vs)
  {
  }

  /** A fixable open item stays unattached exactly when a whole batch of
      unfixable open items has smaller ids. */
  lemma LeftBehindIff(items: Items, vs: Variants, batchSize: nat, i: Id)
    requires i in Open(items) && Fixable(items, vs, i)
    ensures i in Open(Attach(items, vs, Reach(items, vs, batchSize))) <==> |UnfixableBefore(items, vs, i)| >= batchSize
  {
  }

  /** A single unfixable item in front of batches of one. */
  lemma LeftBehind()
    ensures var items: Items := map[1 := CartItem(100, None, true), 2 := CartItem(200, None, true)];
            var vs: Variants := map[9 := Variant(200, "S", DEFAULT_VARIANT_KEY, DEFAULT, None, true)];
            && Fixable(items, vs, 2) && Reach(items, vs, 1) == {} && 2 in Open(Attach(items, vs, Reach(items, vs, 1)))
  {
    var items: Items := map[1 := CartItem(100, None, true), 2 := CartItem(200, None, true)];
    var vs: Variants := map[9 := Variant(200, "S", DEFAULT_VARIANT_KEY, DEFAULT, None, true)];
    assert LiveVariants(vs, 200) == {9} && LiveVariants(vs, 100) == {};
    assert SoleDefault(vs, 200, 9);
    assert UnfixableBefore(items, vs, 2) == {1} && UnfixableBefore(items, vs, 1) == {};
    LeftBehindIff(items, vs, 1, 2);
  }
}
