/** The product and variant resolvers: `getProduct`, `createProduct`,
    `updateProduct`, `deleteProduct`, `createVariant`, `updateVariant`,
    `deleteVariant`. */
module Catalog {
  import opened Wrappers
  import opened Ids
  import opened Collections
  import opened Entities

  /** `{ ...product, ...input }`: the id survives, the required input fields
      overwrite, the nullable `description` is overwritten only when given. */
  function MergeProduct(p: Product, input: ProductInput): Product {
    Product(
      p.productId,
      input.name,
      if input.description.Omitted? then p.description else input.description.value,
      input.price)
  }

  /** `{ ...variant, ...input }`: every input field is required, so color,
      size and stock are overwritten; `variantId` and `productId` survive. */
  function MergeVariant(v: Variant, input: VariantInput): Variant {
    v.(color := input.color, size := input.size, inventoryQuantity := input.inventoryQuantity)
  }

  /** `getProduct`: the first product with that id, or null. */
  function GetProduct(s: Store, id: string): (r: Option<Product>)
    ensures r.None? <==> id !in ProductIds(s.products)
    ensures r.Some? ==> exists i: nat :: IsFirst(ProductIds(s.products), id, i) && s.products[i] == r.value
  {
    match IndexOf(ProductIds(s.products), id)
    case None => None
    case Some(i) => Some(s.products[i])
  }

  /** `createProduct`: the new product gets `String(products.length + 1)` and
      the input's fields, and is appended; nothing else changes. */
  function CreateProduct(s: Store, input: ProductInput): (r: Reply<Product>)
    ensures r.value.Some?
    ensures r.value.value.productId == NextId(|s.products|)
    ensures r.value.value.name == input.name && r.value.value.price == input.price
    ensures r.value.value.description == Initial(input.description)
    ensures r.store == s.(products := s.products + [r.value.value])
  {
    var p := Product(NextId(|s.products|), input.name, Initial(input.description), input.price);
    Reply(s.(products := s.products + [p]), Some(p))
  }

  /** `updateProduct`: on an absent id null and no change; otherwise only the
      first product with that id is replaced, by its shallow merge with the
      input, and that merged product is returned. */
  function UpdateProduct(s: Store, id: string, input: ProductInput): (r: Reply<Product>)
    ensures r.value.None? <==> id !in ProductIds(s.products)
    ensures r.value.None? ==> r.store == s
    ensures r.value.Some? ==>
      exists i: nat :: IsFirst(ProductIds(s.products), id, i)
        && r.store == s.(products := s.products[i := r.value.value])
        && r.value.value.productId == s.products[i].productId
        && r.value.value.name == input.name
        && r.value.value.price == input.price
        && (input.description.Omitted? ==> r.value.value.description == s.products[i].description)
        && (input.description.Provided? ==> r.value.value.description == input.description.value)
  {
    match IndexOf(ProductIds(s.products), id)
    case None => Reply(s, None)
    case Some(i) =>
      var p := MergeProduct(s.products[i], input);
      Reply(s.(products := s.products[i := p]), Some(p))
  }

  /** `deleteProduct`: on an absent id null and no change; otherwise the first
      product with that id is spliced out, the rest keep their order, and the
      id is returned. Variants of the product are left in place. */
  function DeleteProduct(s: Store, id: string): (r: Reply<string>)
    ensures r.value.None? <==> id !in ProductIds(s.products)
    ensures r.value.None? ==> r.store == s
    ensures r.value.Some? ==>
      r.value.value == id
        && |r.store.products| == |s.products| - 1
        && (exists i: nat ::
              IsFirst(ProductIds(s.products), id, i)
              && r.store == s.(products := RemoveAt(s.products, i)))
  {
    match IndexOf(ProductIds(s.products), id)
    case None => Reply(s, None)
    case Some(i) => Reply(s.(products := RemoveAt(s.products, i)), Some(id))
  }

  /** `createVariant`: null and no change unless some product has the given
      id; otherwise a variant with id `String(variants.length + 1)` and the
      input's fields is appended. The product id is not recorded. */
  function CreateVariant(s: Store, productId: string, input: VariantInput): (r: Reply<Variant>)
    ensures r.value.None? <==> productId !in ProductIds(s.products)
    ensures r.value.None? ==> r.store == s
    ensures r.value.Some? ==>
      r.value.value.variantId == NextId(|s.variants|)
        && r.value.value.productId == None
        && r.value.value.color == input.color
        && r.value.value.size == input.size
        && r.value.value.inventoryQuantity == input.inventoryQuantity
        && r.store == s.(variants := s.variants + [r.value.value])
  {
    if GetProduct(s, productId).Some? then
      var v := Variant(NextId(|s.variants|), None, input.color, input.size, input.inventoryQuantity);
      Reply(s.(variants := s.variants + [v]), Some(v))
    else
      Reply(s, None)
  }

  /** `updateVariant`: on an absent id null and no change; otherwise only the
      first variant with that id is replaced by its shallow merge with the
      input. The merge keeps the variant's match key, so order lines find the
      same variants afterwards. */
  function UpdateVariant(s: Store, id: string, input: VariantInput): (r: Reply<Variant>)
    ensures r.value.None? <==> id !in VariantIds(s.variants)
    ensures r.value.None? ==> r.store == s
    ensures r.value.Some? ==>
      exists i: nat :: IsFirst(VariantIds(s.variants), id, i)
        && r.store == s.(variants := s.variants[i := r.value.value])
        && VariantKey(r.value.value) == VariantKey(s.variants[i])
        && r.value.value.color == input.color
        && r.value.value.size == input.size
        && r.value.value.inventoryQuantity == input.inventoryQuantity
    ensures VariantKeys(r.store.variants) == VariantKeys(s.variants)
  {
    match IndexOf(VariantIds(s.variants), id)
    case None => Reply(s, None)
    case Some(i) =>
      var v := MergeVariant(s.variants[i], input);
      Reply(s.(variants := s.variants[i := v]), Some(v))
  }

  /** `deleteVariant`: the same splice-out-first-match rule as
      `deleteProduct`, on `variants`. */
  function DeleteVariant(s: Store, id: string): (r: Reply<string>)
    ensures r.value.None? <==> id !in VariantIds(s.variants)
    ensures r.value.None? ==> r.store == s
    ensures r.value.Some? ==>
      r.value.value == id
        && |r.store.variants| == |s.variants| - 1
        && (exists i: nat ::
              IsFirst(VariantIds(s.variants), id, i)
              && r.store == s.(variants := RemoveAt(s.variants, i)))
  {
    match IndexOf(VariantIds(s.variants), id)
    case None => Reply(s, None)
    case Some(i) => Reply(s.(variants := RemoveAt(s.variants, i)), Some(id))
  }

  /** A product just created is found under its id, provided no product
      already holds that id. */
  lemma CreateProductThenGet(s: Store, input: ProductInput)
    requires NextId(|s.products|) !in ProductIds(s.products)
    ensures var r := CreateProduct(s, input);
      GetProduct(r.store, r.value.value.productId) == r.value
  {
    var r := CreateProduct(s, input);
    var ids := ProductIds(r.store.products);
    assert ids == ProductIds(s.products) + [NextId(|s.products|)];
    IndexOfLast(ProductIds(s.products), NextId(|s.products|));
  }

  /** After an update, `getProduct` of that id returns what the update
      returned. */
  lemma UpdateProductThenGet(s: Store, id: string, input: ProductInput)
    ensures GetProduct(UpdateProduct(s, id, input).store, id) == UpdateProduct(s, id, input).value
  {
    var r := UpdateProduct(s, id, input);
    if r.value.Some? {
      assert ProductIds(r.store.products) == ProductIds(s.products);
    }
  }

  /** Updating twice with the same input has the effect of updating once. */
  lemma UpdateProductIdempotent(s: Store, id: string, input: ProductInput)
    ensures var r := UpdateProduct(s, id, input);
      UpdateProduct(r.store, id, input) == r
  {
    var r := UpdateProduct(s, id, input);
    if r.value.Some? {
      assert ProductIds(r.store.products) == ProductIds(s.products);
    }
  }

  /** When product ids are distinct, a deleted product is gone: it is not
      found and deleting it again signals not-found. */
  lemma DeleteProductHides(s: Store, id: string)
    requires Distinct(ProductIds(s.products))
    ensures var r := DeleteProduct(s, id);
      GetProduct(r.store, id) == None && DeleteProduct(r.store, id).value == None
  {
    var r := DeleteProduct(s, id);
    if r.value.Some? {
      var i := IndexOf(ProductIds(s.products), id).value;
      RemoveAtDistinct(ProductIds(s.products), i);
      assert ProductIds(r.store.products) == RemoveAt(ProductIds(s.products), i);
    }
  }

  /** The variant analogue of `DeleteProductHides`. */
  lemma DeleteVariantHides(s: Store, id: string)
    requires Distinct(VariantIds(s.variants))
    ensures DeleteVariant(DeleteVariant(s, id).store, id).value == None
  {
    var r := DeleteVariant(s, id);
    if r.value.Some? {
      var i := IndexOf(VariantIds(s.variants), id).value;
      RemoveAtDistinct(VariantIds(s.variants), i);
      assert VariantIds(r.store.variants) == RemoveAt(VariantIds(s.variants), i);
    }
  }
}
