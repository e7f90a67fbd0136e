/** Product variants and the default ones among them, as every script and
    diagnostic tells them apart. */
module VariantKinds {
  import opened Basics

  type Id = int

  const DEFAULT_VARIANT_KEY := "default"

  datatype Kind = DEFAULT | MATRIX
  datatype Variant = Variant(product: Id, sku: string, variantKey: string, kind: Kind, price: Option<int>, live: bool)
  type Variants = map<Id, Variant>

  predicate IsDefault(v: Variant)
  {
    v.kind == DEFAULT || v.variantKey == DEFAULT_VARIANT_KEY
  }

  function LiveVariants(vs: Variants, product: Id): set<Id>
  {
    set v | v in vs && vs[v].live && vs[v].product == product
  }
}
