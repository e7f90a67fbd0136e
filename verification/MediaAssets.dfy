/** The assets of a media import, built from the legacy rows. */
module MediaAssets {
  import opened MediaStore
  import opened MediaImport

  datatype Business = Business(id: string, hasLogo: bool, hasBackground: bool)
  datatype LegacyCategory = LegacyCategory(id: string, business: string, hasImage: bool)
  datatype LegacyProduct = LegacyProduct(id: string, business: string, images: nat)

  function LogoAsset(b: Business): Asset { Asset(LogoId(b.id), CatalogLogo, b.id, b.id, 0) }
  function BackgroundAsset(b: Business): Asset { Asset(BackgroundId(b.id), CatalogBackground, b.id, b.id, 0) }
  function CategoryAsset(c: LegacyCategory): Asset { Asset(CategoryImageId(c.id), CategoryImage, c.business, c.id, 0) }

  /** Images are numbered from 1 in the legacy id and from 0 in the position. */
  function ImageAsset(p: LegacyProduct, index: nat): Asset
  {
    Asset(ProductImageId(p.id, index + 1), ProductImage, p.business, p.id, index)
  }

  function BusinessAssets(bs: seq<Business>, n: nat): seq<Asset>
    requires n <= |bs|
  {
    if n == 0 then []
    else BusinessAssets(bs, n - 1)
         + (if bs[n - 1].hasLogo then [LogoAsset(bs[n - 1])] else [])
         + (if bs[n - 1].hasBackground then [BackgroundAsset(bs[n - 1])] else [])
  }

  function CategoryAssets(cs: seq<LegacyCategory>, n: nat): seq<Asset>
    requires n <= |cs|
  {
    if n == 0 then [] else CategoryAssets(cs, n - 1) + (if cs[n - 1].hasImage then [CategoryAsset(cs[n - 1])] else [])
  }

  function ImageAssets(p: LegacyProduct, n: nat): seq<Asset>
  {
    if n == 0 then [] else ImageAssets(p, n - 1) + [ImageAsset(p, n - 1)]
  }

  function ProductAssets(ps: seq<LegacyProduct>, n: nat): seq<Asset>
    requires n <= |ps|
  {
    if n == 0 then [] else ProductAssets(ps, n - 1) + ImageAssets(ps[n - 1], ps[n - 1].images)
  }

  function AllAssets(bs: seq<Business>, cs: seq<LegacyCategory>, ps: seq<LegacyProduct>): seq<Asset>
  {
    BusinessAssets(bs, |bs|) + CategoryAssets(cs, |cs|) + ProductAssets(ps, |ps|)
  }

  /** `buildLegacyMediaAssets` */
  method BuildLegacyMediaAssets(bs: seq<Business>, cs: seq<LegacyCategory>, ps: seq<LegacyProduct>)
    returns (assets: seq<Asset>)
    ensures assets == AllAssets(bs, cs, ps)
    ensures DistinctBusinesses(bs) && DistinctCategories(cs) && DistinctProducts(ps) ==> Distinct(assets)
  {
    assets := [];
    for i := 0 to |bs|
      invariant assets == BusinessAssets(bs, i)
    {
      if bs[i].hasLogo {
        assets := assets + [LogoAsset(bs[i])];
      }
      if bs[i].hasBackground {
        assets := assets + [BackgroundAsset(bs[i])];
      }
    }
    for i := 0 to |cs|
      invariant assets == BusinessAssets(bs, |bs|) + CategoryAssets(cs, i)
    {
      if cs[i].hasImage {
        assets := assets + [CategoryAsset(cs[i])];
      }
    }
    for i := 0 to |ps|
      invariant assets == BusinessAssets(bs, |bs|) + CategoryAssets(cs, |cs|) + ProductAssets(ps, i)
    {
      var before := assets;
      for k := 0 to ps[i].images
        invariant assets == before + ImageAssets(ps[i], k)
      {
        assets := assets + [ImageAsset(ps[i], k)];
      }
    }
    if DistinctBusinesses(bs) && DistinctCategories(cs) && DistinctProducts(ps) {
      AssetsAreDistinct(bs, cs, ps);
    }
  }

  // ---------------------------------------------------------------- legacy ids do not repeat

  ghost predicate DistinctBusinesses(bs: seq<Business>)
  {
    forall i, j :: 0 <= i < j < |bs| ==> bs[i].id != bs[j].id
  }

  ghost predicate DistinctCategories(cs: seq<LegacyCategory>)
  {
    forall i, j :: 0 <= i < j < |cs| ==> cs[i].id != cs[j].id
  }

  ghost predicate DistinctProducts(ps: seq<LegacyProduct>)
  {
    forall i, j :: 0 <= i < j < |ps| ==> ps[i].id != ps[j].id
  }

  ghost predicate Distinct(assets: seq<Asset>)
  {
    forall i, j :: 0 <= i < j < |assets| ==> assets[i].legacyId != assets[j].legacyId
  }

  ghost predicate Apart(xs: seq<Asset>, ys: seq<Asset>)
  {
    forall i, j :: 0 <= i < |xs| && 0 <= j < |ys| ==> xs[i].legacyId != ys[j].legacyId
  }

  /** Every asset is what some legacy row contributes. */
  ghost predicate OfBusiness(a: Asset, bs: seq<Business>, n: nat)
    requires n <= |bs|
  {
    exists k :: 0 <= k < n && (a == LogoAsset(bs[k]) || a == BackgroundAsset(bs[k]))
  }

  ghost predicate OfCategory(a: Asset, cs: seq<LegacyCategory>, n: nat)
    requires n <= |cs|
  {
    exists k :: 0 <= k < n && a == CategoryAsset(cs[k])
  }

  ghost predicate OfProduct(a: Asset, ps: seq<LegacyProduct>, n: nat)
    requires n <= |ps|
  {
    exists k :: 0 <= k < n && a == ImageAsset(ps[k], a.position)
  }

  lemma {:induction false} BusinessOrigin(bs: seq<Business>, n: nat)
    requires n <= |bs|
    ensures forall i :: 0 <= i < |BusinessAssets(bs, n)| ==> OfBusiness(BusinessAssets(bs, n)[i], bs, n)
    decreases n
  {
    if n > 0 {
      BusinessOrigin(bs, n - 1);
      var before, all := BusinessAssets(bs, n - 1), BusinessAssets(bs, n);
      forall i | 0 <= i < |all|
        ensures OfBusiness(all[i], bs, n)
      {
        if i < |before| {
          assert all[i] == before[i];
          assert OfBusiness(before[i], bs, n - 1);
        } else {
          assert all[i] == LogoAsset(bs[n - 1]) || all[i] == BackgroundAsset(bs[n - 1]);
        }
      }
    }
  }

  lemma {:induction false} CategoryOrigin(cs: seq<LegacyCategory>, n: nat)
    requires n <= |cs|
    ensures forall i :: 0 <= i < |CategoryAssets(cs, n)| ==> OfCategory(CategoryAssets(cs, n)[i], cs, n)
    decreases n
  {
    if n > 0 {
      CategoryOrigin(cs, n - 1);
      var before, all := CategoryAssets(cs, n - 1), CategoryAssets(cs, n);
      forall i | 0 <= i < |all|
        ensures OfCategory(all[i], cs, n)
      {
        if i < |before| {
          assert OfCategory(before[i], cs, n - 1);
        } else {
          assert all[i] == CategoryAsset(cs[n - 1]);
        }
      }
    }
  }

  lemma {:induction false} ImageAt(p: LegacyProduct, n: nat)
    ensures |ImageAssets(p, n)| == n && forall i :: 0 <= i < n ==> ImageAssets(p, n)[i] == ImageAsset(p, i)
    decreases n
  {
    if n > 0 {
      ImageAt(p, n - 1);
    }
  }

  lemma {:induction false} ProductOrigin(ps: seq<LegacyProduct>, n: nat)
    requires n <= |ps|
    ensures forall i :: 0 <= i < |ProductAssets(ps, n)| ==> OfProduct(ProductAssets(ps, n)[i], ps, n)
    decreases n
  {
    if n > 0 {
      ProductOrigin(ps, n - 1);
      var before, all := ProductAssets(ps, n - 1), ProductAssets(ps, n);
      ImageAt(ps[n - 1], ps[n - 1].images);
      forall i | 0 <= i < |all|
        ensures OfProduct(all[i], ps, n)
      {
        if i < |before| {
          assert OfProduct(before[i], ps, n - 1);
        } else {
          assert all[i] == ImageAsset(ps[n - 1], i - |before|);
        }
      }
    }
  }

  lemma {:induction false} BusinessDistinct(bs: seq<Business>, n: nat)
    requires n <= |bs| && DistinctBusinesses(bs)
    ensures Distinct(BusinessAssets(bs, n))
    decreases n
  {
    if n > 0 {
      BusinessDistinct(bs, n - 1);
      var before := BusinessAssets(bs, n - 1);
      var b := bs[n - 1];
      forall i | 0 <= i < |before|
        ensures before[i].legacyId != LogoId(b.id) && before[i].legacyId != BackgroundId(b.id)
      {
        BusinessOrigin(bs, n - 1);
        assert OfBusiness(before[i], bs, n - 1);
        var k :| 0 <= k < n - 1 && (before[i] == LogoAsset(bs[k]) || before[i] == BackgroundAsset(bs[k]));
        OtherBusiness(bs[k].id, b.id);
      }
      KindsApart(b.id, b.id, 0);
    }
  }

  lemma OtherBusiness(a: string, b: string)
    requires a != b
    ensures LogoId(a) != LogoId(b) && BackgroundId(a) != BackgroundId(b)
    ensures LogoId(a) != BackgroundId(b) && BackgroundId(a) != LogoId(b)
  {
    KindsApart(a, b, 0);
    KindsApart(b, a, 0);
    if LogoId(a) == LogoId(b) {
      LogoIdInjective(a, b);
    }
    if BackgroundId(a) == BackgroundId(b) {
      BackgroundIdInjective(a, b);
    }
  }

  lemma {:induction false} CategoryDistinct(cs: seq<LegacyCategory>, n: nat)
    requires n <= |cs| && DistinctCategories(cs)
    ensures Distinct(CategoryAssets(cs, n))
    decreases n
  {
    if n > 0 {
      CategoryDistinct(cs, n - 1);
      var before := CategoryAssets(cs, n - 1);
      forall i | 0 <= i < |before|
        ensures before[i].legacyId != CategoryImageId(cs[n - 1].id)
      {
        CategoryOrigin(cs, n - 1);
        assert OfCategory(before[i], cs, n - 1);
        var k :| 0 <= k < n - 1 && before[i] == CategoryAsset(cs[k]);
        if CategoryImageId(cs[k].id) == CategoryImageId(cs[n - 1].id) {
          CategoryImageIdInjective(cs[k].id, cs[n - 1].id);
        }
      }
    }
  }

  lemma ImagesDistinct(p: LegacyProduct, n: nat)
    ensures Distinct(ImageAssets(p, n))
  {
    ImageAt(p, n);
    forall i, j | 0 <= i < j < n
      ensures ImageAsset(p, i).legacyId != ImageAsset(p, j).legacyId
    {
      if ProductImageId(p.id, i + 1) == ProductImageId(p.id, j + 1) {
        ProductImageIdInjective(p.id, i + 1, p.id, j + 1);
      }
    }
  }

  lemma {:induction false} ProductDistinct(ps: seq<LegacyProduct>, n: nat)
    requires n <= |ps| && DistinctProducts(ps)
    ensures Distinct(ProductAssets(ps, n))
    decreases n
  {
    if n > 0 {
      ProductDistinct(ps, n - 1);
      var before, more := ProductAssets(ps, n - 1), ImageAssets(ps[n - 1], ps[n - 1].images);
      ImagesDistinct(ps[n - 1], ps[n - 1].images);
      ImageAt(ps[n - 1], ps[n - 1].images);
      ProductOrigin(ps, n - 1);
      forall i, j | 0 <= i < |before| && 0 <= j < |more|
        ensures before[i].legacyId != more[j].legacyId
      {
        assert OfProduct(before[i], ps, n - 1);
        var k :| 0 <= k < n - 1 && before[i] == ImageAsset(ps[k], before[i].position);
        if before[i].legacyId == more[j].legacyId {
          ProductImageIdInjective(ps[k].id, before[i].position + 1, ps[n - 1].id, j + 1);
        }
      }
    }
  }

  /** The kind of a legacy id shows in its first letter. */
  ghost predicate Initial(a: Asset, c: char)
  {
    a.legacyId != [] && a.legacyId[0] == c
  }

  lemma BusinessInitial(a: Asset, bs: seq<Business>, n: nat)
    requires n <= |bs| && OfBusiness(a, bs, n)
    ensures Initial(a, 'b')
  {
  }

  lemma CategoryInitial(a: Asset, cs: seq<LegacyCategory>, n: nat)
    requires n <= |cs| && OfCategory(a, cs, n)
    ensures Initial(a, 'c')
  {
  }

  lemma ProductInitial(a: Asset, ps: seq<LegacyProduct>, n: nat)
    requires n <= |ps| && OfProduct(a, ps, n)
    ensures Initial(a, 'p')
  {
  }

  lemma InitialsApart(xs: seq<Asset>, c: char, ys: seq<Asset>, d: char)
    requires c != d
    requires forall i :: 0 <= i < |xs| ==> Initial(xs[i], c)
    requires forall i :: 0 <= i < |ys| ==> Initial(ys[i], d)
    ensures Apart(xs, ys)
  {
  }

  lemma KindsAreApart(bs: seq<Business>, cs: seq<LegacyCategory>, ps: seq<LegacyProduct>)
    ensures Apart(BusinessAssets(bs, |bs|), CategoryAssets(cs, |cs|))
    ensures Apart(BusinessAssets(bs, |bs|), ProductAssets(ps, |ps|))
    ensures Apart(CategoryAssets(cs, |cs|), ProductAssets(ps, |ps|))
  {
    var xs, ys, zs := BusinessAssets(bs, |bs|), CategoryAssets(cs, |cs|), ProductAssets(ps, |ps|);
    BusinessOrigin(bs, |bs|);
    CategoryOrigin(cs, |cs|);
    ProductOrigin(ps, |ps|);
    forall i | 0 <= i < |xs| ensures Initial(xs[i], 'b') { BusinessInitial(xs[i], bs, |bs|); }
    forall i | 0 <= i < |ys| ensures Initial(ys[i], 'c') { CategoryInitial(ys[i], cs, |cs|); }
    forall i | 0 <= i < |zs| ensures Initial(zs[i], 'p') { ProductInitial(zs[i], ps, |ps|); }
    InitialsApart(xs, 'b', ys, 'c');
    InitialsApart(xs, 'b', zs, 'p');
    InitialsApart(ys, 'c', zs, 'p');
  }

  /** Distinct legacy rows give assets with distinct legacy ids. */
  lemma AssetsAreDistinct(bs: seq<Business>, cs: seq<LegacyCategory>, ps: seq<LegacyProduct>)
    requires DistinctBusinesses(bs) && DistinctCategories(cs) && DistinctProducts(ps)
    ensures Distinct(AllAssets(bs, cs, ps))
  {
    var xs, ys, zs := BusinessAssets(bs, |bs|), CategoryAssets(cs, |cs|), ProductAssets(ps, |ps|);
    BusinessDistinct(bs, |bs|);
    CategoryDistinct(cs, |cs|);
    ProductDistinct(ps, |ps|);
    KindsAreApart(bs, cs, ps);
  }

  /** The legacy id of an asset spells out its kind, entity and number. */
  ghost predicate WellNamed(a: Asset)
  {
    match a.kind
    case CatalogLogo => a.legacyId == LogoId(a.entity) && a.business == a.entity
    case CatalogBackground => a.legacyId == BackgroundId(a.entity) && a.business == a.entity
    case CategoryImage => a.legacyId == CategoryImageId(a.entity)
    case ProductImage => a.legacyId == ProductImageId(a.entity, a.position + 1)
  }

  lemma AssetsAreWellNamed(bs: seq<Business>, cs: seq<LegacyCategory>, ps: seq<LegacyProduct>, i: nat)
    requires i < |AllAssets(bs, cs, ps)|
    ensures WellNamed(AllAssets(bs, cs, ps)[i])
  {
    var xs, ys, zs := BusinessAssets(bs, |bs|), CategoryAssets(cs, |cs|), ProductAssets(ps, |ps|);
    BusinessOrigin(bs, |bs|);
    CategoryOrigin(cs, |cs|);
    ProductOrigin(ps, |ps|);
    if i < |xs| {
      assert OfBusiness(xs[i], bs, |bs|);
    } else if i < |xs| + |ys| {
      assert OfCategory(ys[i - |xs|], cs, |cs|);
    } else {
      assert OfProduct(zs[i - |xs| - |ys|], ps, |ps|);
    }
  }

  // ---------------------------------------------------------------- nothing is left out

  lemma {:induction false} BusinessAssetsAre(bs: seq<Business>, n: nat, a: Asset)
    requires n <= |bs|
    ensures a in BusinessAssets(bs, n) <==>
            exists i :: 0 <= i < n && ((bs[i].hasLogo && a == LogoAsset(bs[i])) || (bs[i].hasBackground && a == BackgroundAsset(bs[i])))
    decreases n
  {
    if n > 0 {
      BusinessAssetsAre(bs, n - 1, a);
    }
  }

  lemma {:induction false} CategoryAssetsAre(cs: seq<LegacyCategory>, n: nat, a: Asset)
    requires n <= |cs|
    ensures a in CategoryAssets(cs, n) <==> exists i :: 0 <= i < n && cs[i].hasImage && a == CategoryAsset(cs[i])
    decreases n
  {
    if n > 0 {
      CategoryAssetsAre(cs, n - 1, a);
    }
  }

  lemma {:induction false} ProductAssetsAre(ps: seq<LegacyProduct>, n: nat, a: Asset)
    requires n <= |ps|
    ensures a in ProductAssets(ps, n) <==> exists i :: 0 <= i < n && a.position < ps[i].images && a == ImageAsset(ps[i], a.position)
    decreases n
  {
    if n > 0 {
      ProductAssetsAre(ps, n - 1, a);
      ImageAt(ps[n - 1], ps[n - 1].images);
      assert a in ImageAssets(ps[n - 1], ps[n - 1].images) <==> a.position < ps[n - 1].images && a == ImageAsset(ps[n - 1], a.position);
    }
  }

  /** The assets are exactly the logos, backgrounds and category images that
      exist and every image of every product. */
  lemma AllAssetsAre(bs: seq<Business>, cs: seq<LegacyCategory>, ps: seq<LegacyProduct>, a: Asset)
    ensures a in AllAssets(bs, cs, ps) <==>
            || (exists i :: 0 <= i < |bs| && bs[i].hasLogo && a == Asset("business:" + bs[i].id + ":logo", CatalogLogo, bs[i].id, bs[i].id, 0))
            || (exists i :: 0 <= i < |bs| && bs[i].hasBackground
                            && a == Asset("business:" + bs[i].id + ":bg", CatalogBackground, bs[i].id, bs[i].id, 0))
            || (exists i :: 0 <= i < |cs| && cs[i].hasImage
                            && a == Asset("category:" + cs[i].id + ":image", CategoryImage, cs[i].business, cs[i].id, 0))
            || (exists i :: 0 <= i < |ps| && a.position < ps[i].images
                            && a == Asset(ProductImageId(ps[i].id, a.position + 1), ProductImage, ps[i].business, ps[i].id, a.position))
  {
    BusinessAssetsAre(bs, |bs|, a);
    CategoryAssetsAre(cs, |cs|, a);
    ProductAssetsAre(ps, |ps|, a);
  }
}
