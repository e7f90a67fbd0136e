/** Media rows, media maps and the legacy ids that both migration tools use. */
module MediaStore {
  import opened Basics

  type Id = int

  /** Object key of a media row: folder, target entity and file name. */
  datatype MediaKey = MediaKey(catalog: Id, path: string, target: Id, file: string)

  /** Identity of a media row: the one an import creates for a key, or any
      other. Created rows get ids nobody has seen. */
  datatype MediaId = Existing(id: int) | Created(key: MediaKey)

  /** The MEDIA entries of the entity map for one source: legacy id to media.
      (source, entity, legacyId) is unique. */
  type MediaMaps = map<string, MediaId>

  /** Rows of an entity map of another kind: legacy id and target id. */
  datatype EntityMap = EntityMap(legacyId: string, target: Id)

  // ---------------------------------------------------------------- legacy ids

  function LogoId(business: string): string { "business:" + business + ":logo" }
  function BackgroundId(business: string): string { "business:" + business + ":bg" }
  function CategoryImageId(category: string): string { "category:" + category + ":image" }

  function ProductImageId(product: string, number: nat): string
  {
    "product:" + product + ":image:" + Decimal(number)
  }

  lemma LogoIdInjective(a: string, b: string)
    requires LogoId(a) == LogoId(b)
    ensures a == b
  {
    assert LogoId(a)[9..|LogoId(a)| - 5] == a && LogoId(b)[9..|LogoId(b)| - 5] == b;
  }

  lemma BackgroundIdInjective(a: string, b: string)
    requires BackgroundId(a) == BackgroundId(b)
    ensures a == b
  {
    assert BackgroundId(a)[9..|BackgroundId(a)| - 3] == a && BackgroundId(b)[9..|BackgroundId(b)| - 3] == b;
  }

  lemma CategoryImageIdInjective(a: string, b: string)
    requires CategoryImageId(a) == CategoryImageId(b)
    ensures a == b
  {
    assert CategoryImageId(a)[9..|CategoryImageId(a)| - 6] == a && CategoryImageId(b)[9..|CategoryImageId(b)| - 6] == b;
  }

  lemma ProductImageIdInjective(a: string, m: nat, b: string, n: nat)
    requires ProductImageId(a, m) == ProductImageId(b, n)
    ensures a == b && m == n
  {
    var ha, hb := "product:" + a + ":image", "product:" + b + ":image";
    assert ProductImageId(a, m) == ha + [':'] + Decimal(m);
    assert ProductImageId(b, n) == hb + [':'] + Decimal(n);
    LastSeparatorSplits(ha, Decimal(m), hb, Decimal(n), ':');
    DecimalInjective(m, n);
    assert ha[8..|ha| - 6] == a && hb[8..|hb| - 6] == b;
  }

  /** Ids of different kinds never coincide. */
  lemma KindsApart(a: string, b: string, n: nat)
    ensures LogoId(a) != BackgroundId(b)
    ensures LogoId(a) != CategoryImageId(b) && LogoId(a) != ProductImageId(b, n)
    ensures BackgroundId(a) != CategoryImageId(b) && BackgroundId(a) != ProductImageId(b, n)
    ensures CategoryImageId(a) != ProductImageId(b, n)
  {
    var l, g, c, p := LogoId(a), BackgroundId(b), CategoryImageId(b), ProductImageId(b, n);
    assert l[|l| - 1] == 'o' && g[|g| - 1] == 'g';
    assert l[0] == 'b' && BackgroundId(a)[0] == 'b' && c[0] == 'c' && CategoryImageId(a)[0] == 'c' && p[0] == 'p';
  }

  // ---------------------------------------------------------------- file names

  function Pad2(s: string): string
  {
    if |s| < 2 then "0" + s else s
  }

  /** Product images carry their 1-based position before the hash. */
  function FileName(position: nat, hash: string, extension: string): string
  {
    Pad2(Decimal(position + 1)) + "-" + hash + "." + extension
  }

  lemma Pad2Injective(m: nat, n: nat)
    requires m > 0 && n > 0 && Pad2(Decimal(m)) == Pad2(Decimal(n))
    ensures m == n
  {
    var a, b := Decimal(m), Decimal(n);
    assert Pad2(a)[0] == (if |a| < 2 then '0' else a[0]);
    assert Pad2(b)[0] == (if |b| < 2 then '0' else b[0]);
    assert |a| < 2 ==> Pad2(a)[1..] == a;
    assert |b| < 2 ==> Pad2(b)[1..] == b;
    DecimalInjective(m, n);
  }

  /** The number ends at the first dash. */
  lemma FileNameSplits(p: nat, h: string, e: string)
    ensures var number := Pad2(Decimal(p + 1));
            '-' !in number && FileName(p, h, e) == number + ['-'] + (h + "." + e)
  {
  }

  /** Images at different positions never share a file name. */
  lemma FileNamesApart(p: nat, h1: string, e1: string, q: nat, h2: string, e2: string)
    requires FileName(p, h1, e1) == FileName(q, h2, e2)
    ensures p == q && h1 + "." + e1 == h2 + "." + e2
  {
    var a, b, x, y := Pad2(Decimal(p + 1)), Pad2(Decimal(q + 1)), h1 + "." + e1, h2 + "." + e2;
    FileNameSplits(p, h1, e1);
    FileNameSplits(q, h2, e2);
    FirstSeparatorSplits(a, x, b, y, '-');
    Pad2Injective(p + 1, q + 1);
  }

  /** Numbers below ten are padded, no others. */
  lemma FileNameSpelling(p: nat, h: string, e: string)
    ensures FileName(p, h, e) == (if p + 1 < 10 then "0" else "") + Decimal(p + 1) + "-" + h + "." + e
  {
  }
}
