/** The two backfills in the order in which the script runs them: default
    variants first, then the open cart items. */
module BackfillPair {
  import opened Basics
  import opened VariantKinds
  import Defaults = DefaultVariantBackfill
  import opened CartItemBackfill

  /** The live variants of a product: the new one if it got one, else the old ones. */
  lemma VariantsAfter(ps: Defaults.Products, before: Variants, done: set<Id>, vs: Variants, p: Id)
    requires Defaults.Grown(ps, before, done, vs)
    ensures p !in done ==> LiveVariants(vs, p) == LiveVariants(before, p)
    ensures p in done ==> exists v :: v in vs && SoleDefault(vs, p, v)
  {
    if p in done {
      var v :| v in vs && vs[v].live && vs[v].product == p;
      forall w | w in LiveVariants(vs, p)
        ensures w == v
      {
        assert w in before ==> Defaults.HasVariant(before, p);
        assert v in before ==> Defaults.HasVariant(before, p);
      }
      assert LiveVariants(vs, p) == {v};
      assert SoleDefault(vs, p, v);
    } else {
      forall v
        ensures v in LiveVariants(vs, p) <==> v in LiveVariants(before, p)
      {
        assert v in before ==> v in vs && vs[v] == before[v];
      }
    }
  }

  lemma SoleDefaultStays(before: Variants, vs: Variants, p: Id)
    requires Defaults.Kept(before, vs) && LiveVariants(vs, p) == LiveVariants(before, p)
    ensures (exists v :: v in vs && SoleDefault(vs, p, v)) <==> (exists v :: v in before && SoleDefault(before, p, v))
  {
    if v :| v in vs && SoleDefault(vs, p, v) {
      assert v in LiveVariants(before, p);
      assert SoleDefault(before, p, v);
    }
    if v :| v in before && SoleDefault(before, p, v) {
      assert SoleDefault(vs, p, v);
    }
  }

  /** After the default variants are there, exactly the items that were fixable
      before and the items of the products that got one are fixable. */
  lemma FixableAfter(ps: Defaults.Products, before: Variants, done: set<Id>, vs: Variants, items: Items, i: Id)
    requires Defaults.Grown(ps, before, done, vs) && i in items
    ensures Fixable(items, vs, i) <==> Fixable(items, before, i) || items[i].product in done
  {
    var p := items[i].product;
    VariantsAfter(ps, before, done, vs, p);
    if p !in done {
      SoleDefaultStays(before, vs, p);
    }
  }

  /** Open items that neither had a sole default variant nor get one. */
  ghost function Hopeless(ps: Defaults.Products, vs: Variants, items: Items): set<Id>
  {
    set i | i in Open(items) && !Fixable(items, vs, i) && items[i].product !in Defaults.Missing(ps, vs)
  }

  ghost predicate Attached(before: Items, after: Items, vs: Variants, i: Id)
  {
    && i in before && i in after && after[i].variant.Some? && after[i].variant.value in vs
    && SoleDefault(vs, before[i].product, after[i].variant.value)
  }

  lemma ReachedIsAttached(items: Items, vs: Variants, batchSize: nat, i: Id)
    requires i in Reach(items, vs, batchSize)
    ensures Attached(items, Attach(items, vs, Reach(items, vs, batchSize)), vs, i)
  {
  }

  /** With fewer than a batch of hopeless items, every open item of a product
      that was missing a variant, and every item fixable before, ends attached
      to the sole default variant of its product. */
  lemma MissingProductsEndAttached(ps: Defaults.Products, before: Variants, vs: Variants, items: Items, batchSize: nat, i: Id)
    requires Defaults.Grown(ps, before, Defaults.Missing(ps, before), vs) && |Hopeless(ps, before, items)| < batchSize
    requires i in Open(items) && i !in Hopeless(ps, before, items)
    ensures Attached(items, Attach(items, vs, Reach(items, vs, batchSize)), vs, i)
  {
    forall j | j in Open(items)
      ensures Fixable(items, vs, j) <==> j !in Hopeless(ps, before, items)
    {
      FixableAfter(ps, before, Defaults.Missing(ps, before), vs, items, j);
    }
    assert (set u | u in Open(items) && !Fixable(items, vs, u)) == Hopeless(ps, before, items);
    FewUnfixableReachesAll(items, vs, batchSize);
    ReachedIsAttached(items, vs, batchSize, i);
  }

  /** The apply mode of the script. An aborted first backfill ends it; otherwise
      the second runs on what the first left. */
  method ApplyBackfills(ps: Defaults.Products, before: Variants, items: Items, batchSize: nat)
    returns (outcome: Defaults.Outcome, vs: Variants, after: Items)
    requires batchSize > 0 && Defaults.Derived(ps)
    ensures outcome.Finished? <==> Defaults.AllocatesAll(ps, before)
    ensures outcome.Aborted? ==> after == items
    ensures outcome.Finished? ==>
      && Defaults.Grown(ps, before, Defaults.Missing(ps, before), vs)
      && after == Attach(items, vs, Reach(items, vs, batchSize))
    ensures outcome.Finished? && |Hopeless(ps, before, items)| < batchSize ==>
      forall i :: i in Open(items) && i !in Hopeless(ps, before, items) ==> Attached(items, after, vs, i)
  {
    var defaults := new Defaults.Backfill(ps, before);
    var created, skipped;
    ghost var done;
    created, skipped, outcome, done := defaults.Run(batchSize);
    vs, after := defaults.variants, items;
    if outcome.Aborted? {
      return;
    }
    var carts := new CartStore(items, vs);
    var updated, left, processed := carts.Backfill(batchSize);
    after := carts.items;
    if |Hopeless(ps, before, items)| < batchSize {
      forall i | i in Open(items) && i !in Hopeless(ps, before, items)
        ensures Attached(items, after, vs, i)
      {
        MissingProductsEndAttached(ps, before, vs, items, batchSize, i);
      }
    }
  }
}
