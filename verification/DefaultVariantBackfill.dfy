/** The backfill that gives every live product without a live variant a default
    one, with a SKU that no other variant has. */
module DefaultVariantBackfill {
  import opened Basics
  import opened Counting
  import opened BatchQueries
  import opened VariantKinds

  const SKU_MAX_LENGTH := 100

  /** `digest` is the digest of the product id in upper-case hex; `candidates`
      are the SKUs its default variant may get, in the order they are tried. */
  datatype Product = Product(catalog: Id, sku: string, price: Option<int>, digest: string, candidates: seq<string>, live: bool)
  type Products = map<Id, Product>

  predicate HasVariant(vs: Variants, p: Id)
  {
    exists v :: v in vs && vs[v].live && vs[v].product == p
  }

  function Missing(ps: Products, vs: Variants): set<Id>
  {
    set p | p in ps && ps[p].live && !HasVariant(vs, p)
  }

  ghost predicate SkusUnique(vs: Variants)
  {
    forall v, w :: v in vs && w in vs && vs[v].sku == vs[w].sku ==> v == w
  }

  /** Deleted variants keep their SKUs taken. */
  function TakenSkus(vs: Variants): set<string>
  {
    set v | v in vs :: vs[v].sku
  }

  // ---------------------------------------------------------------- SKU allocation

  function HashedSku(sku: string, digest: string, length: nat): (s: string)
    requires length <= |digest| && length <= 40
    ensures |s| <= SKU_MAX_LENGTH
  {
    var suffix := "-D-" + digest[..length];
    var room := SKU_MAX_LENGTH - |suffix|;
    (if |sku| <= room then sku else sku[..room]) + suffix
  }

  const HASH_LENGTHS: seq<nat> := [8, 12, 16, 20, 32, 40]

  function HashedSkus(sku: string, digest: string, n: nat): (cs: seq<string>)
    requires |digest| == 40 && n <= 6
    ensures |cs| == n && forall i :: 0 <= i < n ==> cs[i] == HashedSku(sku, digest, HASH_LENGTHS[i])
  {
    if n == 0 then [] else HashedSkus(sku, digest, n - 1) + [HashedSku(sku, digest, HASH_LENGTHS[n - 1])]
  }

  /** The product's own SKU, if it has one, then ever longer digests of its id. */
  function Candidates(sku: string, digest: string): (cs: seq<string>)
    requires |digest| == 40
    ensures |sku| <= SKU_MAX_LENGTH ==> forall i :: 0 <= i < |cs| ==> |cs[i]| <= SKU_MAX_LENGTH
  {
    (if sku != "" then [sku] else []) + HashedSkus(sku, digest, 6)
  }

  /** The head that is left of a SKU before a suffix of n characters. */
  function Cut(sku: string, n: nat): string
    requires n <= 100
  {
    if |sku| <= 100 - n then sku else sku[..100 - n]
  }

  lemma HashedSpelledOut(sku: string, digest: string, length: nat)
    requires |digest| == 40 && length <= 40
    ensures HashedSku(sku, digest, length) == Cut(sku, length + 3) + ("-D-" + digest[..length])
  {
  }

  /** The candidates one by one, in the order in which they are tried. */
  lemma CandidatesSpelledOut(sku: string, digest: string)
    requires |digest| == 40
    ensures var cs, own, lengths := Candidates(sku, digest), if sku != "" then 1 else 0, [8, 12, 16, 20, 32, 40];
            && |cs| == own + 6 && (sku != "" ==> cs[0] == sku)
            && forall i :: 0 <= i < 6 ==> cs[own + i] == Cut(sku, lengths[i] + 3) + ("-D-" + digest[..lengths[i]])
  {
    var cs, own, hashed := Candidates(sku, digest), if sku != "" then 1 else 0, HashedSkus(sku, digest, 6);
    forall i | 0 <= i < 6
      ensures cs[own + i] == hashed[i]
      ensures hashed[i] == Cut(sku, HASH_LENGTHS[i] + 3) + ("-D-" + digest[..HASH_LENGTHS[i]])
    {
      HashedSpelledOut(sku, digest, HASH_LENGTHS[i]);
    }
  }

  /** The candidate that is taken is the first one free. */
  lemma {:induction false} FirstFreeIsFirst(candidates: seq<string>, taken: set<string>)
    ensures FirstFree(candidates, taken).Some? ==>
      exists i :: 0 <= i < |candidates| && FirstFree(candidates, taken) == Some(candidates[i])
                  && forall j :: 0 <= j < i ==> candidates[j] in taken
    decreases |candidates|
  {
    if candidates != [] && candidates[0] in taken {
      FirstFreeIsFirst(candidates[1..], taken);
      if i :| 0 <= i < |candidates[1..]| && FirstFree(candidates[1..], taken) == Some(candidates[1..][i])
              && forall j :: 0 <= j < i ==> candidates[1..][j] in taken {
        assert candidates[i + 1] == candidates[1..][i];
        assert forall j :: 0 < j < i + 1 ==> candidates[j] == candidates[1..][j - 1];
      }
    } else if candidates != [] {
      assert FirstFree(candidates, taken) == Some(candidates[0]);
    }
  }

  function FirstFree(candidates: seq<string>, taken: set<string>): (r: Option<string>)
    ensures r.Some? ==> r.value in candidates && r.value !in taken
    ensures r.None? ==> forall c :: c in candidates ==> c in taken
  {
    if candidates == [] then None
    else if candidates[0] !in taken then Some(candidates[0])
    else FirstFree(candidates[1..], taken)
  }

  /** `resolveDefaultVariantSku`: the first free candidate, or none. */
  method ResolveDefaultVariantSku(sku: string, digest: string, taken: set<string>) returns (r: Option<string>)
    requires |digest| == 40
    ensures r == FirstFree(Candidates(sku, digest), taken)
  {
    var hashed := HashedSkus(sku, digest, 6);
    assert sku != "" ==> ([sku] + hashed)[1..] == hashed;
    assert sku == "" ==> [] + hashed == hashed;
    if sku != "" && sku !in taken {
      return Some(sku);
    }
    for i := 0 to 6
      invariant FirstFree(hashed, taken) == FirstFree(hashed[i..], taken)
    {
      var candidate := HashedSku(sku, digest, HASH_LENGTHS[i]);
      assert hashed[i..][0] == candidate && hashed[i..][1..] == hashed[i + 1..];
      if candidate !in taken {
        return Some(candidate);
      }
    }
    r := None;
  }

  /** Candidates are derived from the SKU and the digest. */
  ghost predicate Derived(ps: Products)
  {
    forall p :: p in ps ==> |ps[p].digest| == 40 && ps[p].candidates == Candidates(ps[p].sku, ps[p].digest)
  }

  function ResolveSku(ps: Products, vs: Variants, p: Id): Option<string>
    requires p in ps
  {
    FirstFree(ps[p].candidates, TakenSkus(vs))
  }

  // ---------------------------------------------------------------- growth

  predicate IsDefaultOf(ps: Products, v: Variant)
  {
    && v.product in ps && v.live && v.kind == DEFAULT && v.variantKey == DEFAULT_VARIANT_KEY
    && v.price == ps[v.product].price && v.sku in ps[v.product].candidates
  }

  ghost predicate Kept(before: Variants, vs: Variants)
  {
    forall v :: v in before ==> v in vs && vs[v] == before[v]
  }

  ghost predicate NewRows(ps: Products, before: Variants, done: set<Id>, vs: Variants)
  {
    && (forall v :: v in vs && v !in before ==> vs[v].product in done && IsDefaultOf(ps, vs[v]))
    && (forall v, w :: v in vs && w in vs && v !in before && w !in before && vs[v].product == vs[w].product ==> v == w)
  }

  /** The variants after the products in `done` got theirs: old rows unchanged,
      one new default row for each of them and no other. */
  ghost predicate Grown(ps: Products, before: Variants, done: set<Id>, vs: Variants)
  {
    && done <= Missing(ps, before)
    && Kept(before, vs)
    && NewRows(ps, before, done, vs)
    && (forall p :: p in done ==> HasVariant(vs, p))
    && (SkusUnique(before) ==> SkusUnique(vs))
  }

  lemma MissingNow(ps: Products, before: Variants, done: set<Id>, vs: Variants)
    requires Grown(ps, before, done, vs)
    ensures Missing(ps, vs) == Missing(ps, before) - done
  {
  }

  lemma FreshSkuKeepsUnique(vs: Variants, id: Id, row: Variant)
    requires SkusUnique(vs) && id !in vs && row.sku !in TakenSkus(vs)
    ensures SkusUnique(vs[id := row])
  {
  }

  /** One new row: the default variant of p with the first free SKU and the
      product's price. */
  ghost predicate DefaultAdded(ps: Products, before: Variants, p: Id, vs: Variants)
    requires p in ps
  {
    && ResolveSku(ps, before, p).Some?
    && exists id :: id !in before
                    && vs == before[id := Variant(p, ResolveSku(ps, before, p).value, "default", DEFAULT, ps[p].price, true)]
  }

  lemma GrowOne(ps: Products, before: Variants, done: set<Id>, vs: Variants, id: Id, row: Variant)
    requires Grown(ps, before, done, vs)
    requires row.product in Missing(ps, vs) && id !in vs && IsDefaultOf(ps, row) && row.sku !in TakenSkus(vs)
    ensures row.product !in done && Grown(ps, before, done + {row.product}, vs[id := row])
  {
    MissingNow(ps, before, done, vs);
    var d := vs[id := row];
    assert d[id].live && d[id].product == row.product;
    forall q | q in done
      ensures HasVariant(d, q)
    {
      var v :| v in vs && vs[v].live && vs[v].product == q;
      assert d[v] == vs[v];
    }
    if SkusUnique(before) {
      FreshSkuKeepsUnique(vs, id, row);
    }
  }

  // ---------------------------------------------------------------- when allocation cannot fail

  ghost predicate OwnSku(ps: Products, vs: Variants, p: Id, c: string)
  {
    c !in TakenSkus(vs) && forall q :: q in Missing(ps, vs) && q != p ==> c !in ps[q].candidates
  }

  /** Each missing product has a candidate of its own: taken by no variant and
      a candidate of no other missing product. */
  ghost predicate NoClash(ps: Products, vs: Variants)
  {
    forall p :: p in Missing(ps, vs) ==> exists c :: c in ps[p].candidates && OwnSku(ps, vs, p, c)
  }

  lemma NoClashNeverFails(ps: Products, before: Variants, done: set<Id>, vs: Variants, p: Id)
    requires Grown(ps, before, done, vs) && NoClash(ps, before) && p in Missing(ps, vs)
    ensures ResolveSku(ps, vs, p).Some?
  {
  }

  // ---------------------------------------------------------------- exactly when it finishes

  /** Allocation in order, each SKU taken by the products before. */
  predicate Allocates(ps: Products, taken: set<string>, order: seq<Id>)
    requires forall i :: 0 <= i < |order| ==> order[i] in ps
    decreases |order|
  {
    order == [] ||
    var sku := FirstFree(ps[order[0]].candidates, taken);
    sku.Some? && Allocates(ps, taken + {sku.value}, order[1..])
  }

  /** Every missing product finds a SKU when they are served by ascending id. */
  ghost predicate AllocatesAll(ps: Products, vs: Variants)
  {
    var order := Ascending(Missing(ps, vs));
    (forall i :: 0 <= i < |order| ==> order[i] in ps) && Allocates(ps, TakenSkus(vs), order)
  }

  lemma AscendingMissing(ps: Products, vs: Variants)
    ensures forall i :: 0 <= i < |Ascending(Missing(ps, vs))| ==> Ascending(Missing(ps, vs))[i] in ps
  {
    AscendingMembers(Missing(ps, vs));
  }

  lemma NothingLeftAllocates(ps: Products, vs: Variants)
    requires Missing(ps, vs) == {}
    ensures AllocatesAll(ps, vs)
  {
  }

  /** The first missing product decides, or passes the question on. */
  lemma FirstDecides(ps: Products, vs: Variants, p: Id)
    requires IsSmallest(Missing(ps, vs), p)
    ensures ResolveSku(ps, vs, p).None? ==> !AllocatesAll(ps, vs)
  {
    AscendingFirst(Missing(ps, vs), p);
  }

  lemma FirstPassesOn(ps: Products, vs: Variants, id: Id, row: Variant)
    requires IsSmallest(Missing(ps, vs), row.product) && id !in vs && row.live && ResolveSku(ps, vs, row.product) == Some(row.sku)
    ensures AllocatesAll(ps, vs) <==> AllocatesAll(ps, vs[id := row])
  {
    var d := vs[id := row];
    AscendingFirst(Missing(ps, vs), row.product);
    MissingLess(ps, vs, id, row);
    AscendingMissing(ps, vs);
    AscendingMissing(ps, d);
    TakenMore(vs, id, row);
    var rest := Ascending(Missing(ps, d));
    assert ([row.product] + rest)[1..] == rest;
  }

  lemma TakenMore(vs: Variants, id: Id, row: Variant)
    requires id !in vs
    ensures TakenSkus(vs[id := row]) == TakenSkus(vs) + {row.sku}
  {
    var d := vs[id := row];
    forall v | v in vs
      ensures vs[v].sku in TakenSkus(d)
    {
      assert d[v] == vs[v];
    }
    assert d[id].sku in TakenSkus(d);
  }

  /** A product all of whose candidates are SKUs of its own deleted variants. */
  lemma TakenCandidatesAbort(digest: string)
    requires |digest| == 40
    ensures var cs := Candidates("S", digest);
            var ps: Products := map[1 := Product(7, "S", None, digest, cs, true)];
            var vs: Variants := map v | 0 <= v < |cs| :: Variant(1, cs[v], DEFAULT_VARIANT_KEY, DEFAULT, None, false);
            Derived(ps) && Missing(ps, vs) == {1} && !AllocatesAll(ps, vs)
  {
    var cs := Candidates("S", digest);
    var ps: Products := map[1 := Product(7, "S", None, digest, cs, true)];
    var vs: Variants := map v | 0 <= v < |cs| :: Variant(1, cs[v], DEFAULT_VARIANT_KEY, DEFAULT, None, false);
    assert Missing(ps, vs) == {1};
    forall c | c in cs
      ensures c in TakenSkus(vs)
    {
      var v :| 0 <= v < |cs| && cs[v] == c;
      assert vs[v].sku == c;
    }
    FirstDecides(ps, vs, 1);
  }

  lemma MissingLess(ps: Products, vs: Variants, id: Id, row: Variant)
    requires id !in vs && row.live
    ensures Missing(ps, vs[id := row]) == Missing(ps, vs) - {row.product}
  {
    var d := vs[id := row];
    forall p
      ensures HasVariant(d, p) <==> HasVariant(vs, p) || p == row.product
    {
      if v :| v in vs && vs[v].live && vs[v].product == p {
        assert d[v].live && d[v].product == p;
      }
      if p == row.product {
        assert d[id].live && d[id].product == p;
      }
    }
  }

  // ---------------------------------------------------------------- the script

  datatype Outcome = Finished | Aborted(product: Id)

  class Backfill {
    const products: Products
    var variants: Variants

    constructor (products: Products, variants: Variants)
      ensures this.products == products && this.variants == variants
    {
      this.products := products;
      this.variants := variants;
    }

    /** One transaction: re-check, allocate a SKU, insert. */
    method CreateDefaultVariantIfMissing(p: Id, ghost before: Variants, ghost done: set<Id>)
      returns (created: bool, failed: bool)
      requires Derived(products) && p in products && products[p].live
      requires Grown(products, before, done, variants)
      modifies this`variants
      ensures created <==> !failed && p in Missing(products, old(variants))
      ensures failed <==> p in Missing(products, old(variants)) && ResolveSku(products, old(variants), p).None?
      ensures created ==> p !in done && Grown(products, before, done + {p}, variants)
      ensures created ==> DefaultAdded(products, old(variants), p, variants)
      ensures created ==> Missing(products, variants) == Missing(products, old(variants)) - {p}
      ensures failed && IsSmallest(Missing(products, old(variants)), p) ==> !AllocatesAll(products, old(variants))
      ensures created && IsSmallest(Missing(products, old(variants)), p) ==>
        (AllocatesAll(products, old(variants)) <==> AllocatesAll(products, variants))
      ensures !created ==> variants == old(variants)
    {
      if HasVariant(variants, p) {
        return false, false;
      }
      var sku := ResolveDefaultVariantSku(products[p].sku, products[p].digest, TakenSkus(variants));
      if sku.None? {
        if IsSmallest(Missing(products, variants), p) {
          FirstDecides(products, variants, p);
        }
        return false, true;
      }
      var id := FreshId(variants.Keys);
      var row := Variant(p, sku.value, DEFAULT_VARIANT_KEY, DEFAULT, products[p].price, true);
      GrowOne(products, before, done, variants, id, row);
      MissingLess(products, variants, id, row);
      if IsSmallest(Missing(products, variants), p) {
        FirstPassesOn(products, variants, id, row);
      }
      variants := variants[id := row];
      return true, false;
    }

    /** The next product of a batch. */
    method CreateNext(batch: seq<Id>, k: nat, ghost all: set<Id>, ghost before: Variants, ghost now: set<Id>) returns (failed: bool)
      requires Derived(products) && Grown(products, before, now, variants) && FirstBatch(batch, all, |batch|) && k < |batch|
      requires Missing(products, variants) == LeftOf(all, batch, k) && batch[k] in Missing(products, before) && batch[k] !in now
      modifies this`variants
      ensures failed ==>
        variants == old(variants) && !AllocatesAll(products, variants)
        && batch[k] in Missing(products, variants) && ResolveSku(products, variants, batch[k]).None?
      ensures !failed ==>
        Grown(products, before, now + {batch[k]}, variants) && Missing(products, variants) == LeftOf(all, batch, k + 1)
      ensures !failed ==> (AllocatesAll(products, old(variants)) <==> AllocatesAll(products, variants))
    {
      BatchIsAscending(all, batch, |batch|, k);
      var created;
      created, failed := CreateDefaultVariantIfMissing(batch[k], before, now);
    }

    /** One batch; stops at the first product whose SKU cannot be allocated. */
    method ProcessBatch(batch: seq<Id>, ghost before: Variants, ghost done: set<Id>)
      returns (created: nat, skipped: nat, outcome: Outcome, ghost now: set<Id>)
      requires Derived(products) && Grown(products, before, done, variants)
      requires forall k :: 0 <= k < |batch| ==> batch[k] in Missing(products, before) && batch[k] !in done
      requires FirstBatch(batch, Missing(products, variants), |batch|)
      modifies this`variants
      ensures Grown(products, before, now, variants)
      ensures done <= now && |now| == |done| + created && skipped == 0
      ensures outcome.Finished? ==> created == |batch|
      ensures if outcome.Finished? then AllocatesAll(products, old(variants)) <==> AllocatesAll(products, variants)
              else !AllocatesAll(products, old(variants))
      ensures outcome.Aborted? ==>
        outcome.product in Missing(products, variants) && ResolveSku(products, variants, outcome.product).None?
    {
      created, skipped, outcome, now := 0, 0, Finished, done;
      for k := 0 to |batch|
        invariant Grown(products, before, now, variants)
        invariant done <= now && |now| == |done| + created && created == k && skipped == 0
        invariant forall j :: k <= j < |batch| ==> batch[j] in Missing(products, before) && batch[j] !in now
        invariant Missing(products, variants) == LeftOf(Missing(products, old(variants)), batch, k)
        invariant AllocatesAll(products, old(variants)) <==> AllocatesAll(products, variants)
      {
        var failed := CreateNext(batch, k, Missing(products, old(variants)), before, now);
        if failed {
          outcome := Aborted(batch[k]);
          return;
        }
        created := created + 1;
        now := now + {batch[k]};
      }
    }

    /** `backfillDefaultVariants`: the loop ends. Exactly if the missing products,
        served by ascending id, all find a SKU, every live product has a live
        variant and as many were created as were missing; otherwise it stops at
        a product whose candidates are all taken, keeping what it created. */
    method Run(batchSize: nat) returns (created: nat, skipped: nat, outcome: Outcome, ghost done: set<Id>)
      requires batchSize > 0 && Derived(products)
      modifies this`variants
      ensures Grown(products, old(variants), done, variants) && created == |done| && skipped == 0
      ensures outcome.Finished? ==> done == Missing(products, old(variants)) && Missing(products, variants) == {}
      ensures outcome.Aborted? ==>
        outcome.product in Missing(products, variants) && ResolveSku(products, variants, outcome.product).None?
      ensures outcome.Finished? <==> AllocatesAll(products, old(variants))
      ensures NoClash(products, old(variants)) ==> outcome.Finished?
    {
      created, skipped, outcome, done := 0, 0, Finished, {};
      while true
        invariant Grown(products, old(variants), done, variants)
        invariant created == |done| && skipped == 0 && outcome.Finished?
        invariant AllocatesAll(products, old(variants)) <==> AllocatesAll(products, variants)
        decreases |Missing(products, variants)|
      {
        MissingNow(products, old(variants), done, variants);
        var batch := TakeFirst(Missing(products, variants), batchSize);
        if batch == [] {
          NothingLeftAllocates(products, variants);
          break;
        }
        ghost var before, beforeRows := done, variants;
        var createdNow, skippedNow;
        createdNow, skippedNow, outcome, done := ProcessBatch(batch, old(variants), done);
        created, skipped := created + createdNow, skipped + skippedNow;
        if outcome.Aborted? {
          AbortMeansClash(products, old(variants), done, variants, outcome.product);
          return;
        }
        MissingShrinks(products, old(variants), before, beforeRows, done, variants);
      }
    }
  }

  lemma AbortMeansClash(ps: Products, before: Variants, done: set<Id>, vs: Variants, p: Id)
    requires Grown(ps, before, done, vs) && p in Missing(ps, vs) && ResolveSku(ps, vs, p).None?
    ensures !NoClash(ps, before)
  {
    if NoClash(ps, before) {
      NoClashNeverFails(ps, before, done, vs, p);
    }
  }

  lemma MissingShrinks(ps: Products, before: Variants, done: set<Id>, vs: Variants, more: set<Id>, next: Variants)
    requires Grown(ps, before, done, vs) && Grown(ps, before, more, next) && done <= more && |done| < |more|
    ensures |Missing(ps, next)| < |Missing(ps, vs)|
  {
    MissingNow(ps, before, done, vs);
    MissingNow(ps, before, more, next);
    FewerLeft(Missing(ps, before), done, more);
  }

  // ---------------------------------------------------------------- the diagnostics afterwards

  /** `countSimpleProductsWithoutDefaultVariant` */
  ghost function SimpleWithoutDefault(ps: Products, vs: Variants, catalog: Id): set<Id>
  {
    set p | && p in ps && ps[p].catalog == catalog && ps[p].live
            && !(exists v :: v in vs && vs[v].product == p && vs[v].live && !IsDefault(vs[v]))
            && !(exists v :: v in vs && vs[v].product == p && vs[v].live && IsDefault(vs[v]))
  }

  ghost predicate TwoDefaults(vs: Variants, p: Id)
  {
    exists v, w :: v in vs && w in vs && v != w && DefaultRow(vs, v, p) && DefaultRow(vs, w, p)
  }

  ghost predicate DefaultRow(vs: Variants, v: Id, p: Id)
  {
    v in vs && vs[v].live && vs[v].product == p && IsDefault(vs[v])
  }

  /** `countProductsWithMultipleDefaultVariants` */
  ghost function MultipleDefaults(ps: Products, vs: Variants, catalog: Id): set<Id>
  {
    set p | p in ps && ps[p].catalog == catalog && ps[p].live && TwoDefaults(vs, p)
  }

  /** `countDefaultVariantPriceMismatches`: one row per default variant. */
  ghost function PriceMismatches(ps: Products, vs: Variants, catalog: Id): set<Id>
  {
    set v | && v in vs && vs[v].live && IsDefault(vs[v]) && vs[v].product in ps
            && ps[vs[v].product].live && ps[vs[v].product].catalog == catalog && ps[vs[v].product].price != vs[v].price
  }

  /** A default variant is one of kind DEFAULT or with the key `default`, so the
      diagnostic of simple products counts exactly the products the backfill is
      after. */
  lemma DiagnosticCountsMissing(ps: Products, vs: Variants, catalog: Id)
    ensures SimpleWithoutDefault(ps, vs, catalog) == set p | p in Missing(ps, vs) && ps[p].catalog == catalog
  {
  }

  lemma MissingMeansNoLiveVariant(ps: Products, vs: Variants, p: Id)
    ensures p in Missing(ps, vs) <==> p in ps && ps[p].live && forall v :: v in vs && vs[v].product == p ==> !vs[v].live
  {
  }

  /** The other two diagnostics see a second default variant, and a default
      variant at another price. */
  lemma DiagnosticsSee(ps: Products, vs: Variants, v: Id, w: Id)
    requires v in vs && w in vs && v != w && vs[v].live && vs[w].live && vs[v].product == vs[w].product
    requires vs[v].product in ps && ps[vs[v].product].live
    requires vs[v].kind == DEFAULT && vs[w].variantKey == "default"
    ensures vs[v].product in MultipleDefaults(ps, vs, ps[vs[v].product].catalog)
    ensures vs[v].price != ps[vs[v].product].price <==> v in PriceMismatches(ps, vs, ps[vs[v].product].catalog)
    ensures vs[w].price != ps[vs[v].product].price <==> w in PriceMismatches(ps, vs, ps[vs[v].product].catalog)
  {
    assert DefaultRow(vs, v, vs[v].product) && DefaultRow(vs, w, vs[v].product);
  }

  /** They see nothing else. */
  lemma DiagnosticsSeeOnly(ps: Products, vs: Variants, catalog: Id, p: Id, v: Id)
    ensures p in MultipleDefaults(ps, vs, catalog) ==>
              && p in ps && ps[p].live && ps[p].catalog == catalog
              && exists a, b :: a in vs && b in vs && a != b && vs[a].product == p && vs[b].product == p && vs[a].live && vs[b].live
    ensures v in PriceMismatches(ps, vs, catalog) ==>
              && v in vs && vs[v].live && (vs[v].kind == DEFAULT || vs[v].variantKey == "default")
              && vs[v].product in ps && ps[vs[v].product].live && ps[vs[v].product].catalog == catalog && vs[v].price != ps[vs[v].product].price
  {
  }

  /** Once nothing is missing, the diagnostic of simple products without a
      default variant is empty in every catalog. */
  lemma NothingMissingNothingReported(ps: Products, vs: Variants, catalog: Id)
    requires Missing(ps, vs) == {}
    ensures SimpleWithoutDefault(ps, vs, catalog) == {}
  {
  }

  /** The backfill adds no second default variant and no price mismatch. */
  lemma OtherDiagnosticsUnchanged(ps: Products, before: Variants, done: set<Id>, vs: Variants, catalog: Id)
    requires Grown(ps, before, done, vs)
    ensures MultipleDefaults(ps, vs, catalog) == MultipleDefaults(ps, before, catalog)
    ensures PriceMismatches(ps, vs, catalog) == PriceMismatches(ps, before, catalog)
  {
    forall p | p in ps
      ensures TwoDefaults(vs, p) <==> TwoDefaults(before, p)
    {
      if v, w :| v in before && w in before && v != w && DefaultRow(before, v, p) && DefaultRow(before, w, p) {
        assert DefaultRow(vs, v, p) && DefaultRow(vs, w, p);
      }
      if v, w :| v in vs && w in vs && v != w && DefaultRow(vs, v, p) && DefaultRow(vs, w, p) {
        assert v in before ==> HasVariant(before, p);
        assert w in before ==> HasVariant(before, p);
        assert v in before && w in before;
        assert DefaultRow(before, v, p) && DefaultRow(before, w, p);
      }
    }
    PricesUnchanged(ps, before, done, vs, catalog);
  }

  lemma PricesUnchanged(ps: Products, before: Variants, done: set<Id>, vs: Variants, catalog: Id)
    requires Kept(before, vs) && NewRows(ps, before, done, vs)
    ensures PriceMismatches(ps, vs, catalog) == PriceMismatches(ps, before, catalog)
  {
    forall v | v in vs && v !in before
      ensures v !in PriceMismatches(ps, vs, catalog)
    {
      assert IsDefaultOf(ps, vs[v]);
    }
    forall v | v in before
      ensures v in PriceMismatches(ps, vs, catalog) <==> v in PriceMismatches(ps, before, catalog)
    {
      assert v in vs && vs[v] == before[v];
    }
    assert forall v :: v in PriceMismatches(ps, before, catalog) ==> v in before;
    assert forall v :: v in PriceMismatches(ps, vs, catalog) ==> v in before;
  }
}
