/** Concrete request sequences that show how the resolvers as written behave
    where that differs from what their callers would expect. */
module Scenarios {
  import opened Wrappers
  import opened Ids
  import opened Entities
  import opened Catalog
  import opened Accounts
  import opened Orders

  /** Variants "1" and "2" exist; deleting "1" shrinks `variants` to one
      record, so the next variant is also given "2" while the old "2" is
      still live. */
  lemma VariantIdReusedAfterDelete()
    ensures
      var s0 := CreateProduct(Empty, ProductInput("Shirt", Omitted, 100)).store;
      var s1 := CreateVariant(s0, "1", VariantInput("red", "M", 5)).store;
      var s2 := CreateVariant(s1, "1", VariantInput("blue", "L", 5)).store;
      var s3 := DeleteVariant(s2, "1").store;
      var r := CreateVariant(s3, "1", VariantInput("green", "S", 5));
      r.value.Some? && r.value.value.variantId == "2" && VariantIds(r.store.variants) == ["2", "2"]
  {
  }

  /** The same reuse for orders: after orders "1" and "2" and the
      cancellation of "1", the next order is given "2" again, and cancelling
      "2" then removes the older order, not the new one. */
  lemma OrderIdReusedAfterCancel()
    ensures
      var s0 := AddCustomer(Empty, CustomerInput("Ann", "ann@example.com", Omitted)).store;
      var s1 := CreateOrder(s0, "1", [], "d1").store;
      var s2 := CreateOrder(s1, "1", [], "d2").store;
      var s3 := CancelOrder(s2, "1").store;
      var r := CreateOrder(s3, "1", [], "d3");
      && r.value.Some? && r.value.value.orderId == "2"
      && OrderIds(r.store.orders) == ["2", "2"]
      && CancelOrder(r.store, "2").store.orders == [r.value.value]
  {
  }

  /** The stock scenario as the resolvers run it: product "1", its variant
      "1" with 10 in stock, customer "1", an order of 3 of that variant.
      Because `createVariant` records no product id, the order line matches
      nothing: stock stays 10 instead of dropping to 7, and cancelling
      leaves it at 10 and the order gone. */
  lemma StockUnchangedAsWritten()
    ensures
      var s0 := CreateProduct(Empty, ProductInput("Shirt", Omitted, 100)).store;
      var s1 := CreateVariant(s0, "1", VariantInput("red", "M", 10)).store;
      var s2 := AddCustomer(s1, CustomerInput("Ann", "ann@example.com", Omitted)).store;
      var c := CreateOrder(s2, "1", [OrderLine("1", "1", 3)], "d1");
      var x := CancelOrder(c.store, "1");
      && c.value.Some?
      && c.store.variants[0].inventoryQuantity == 10
      && x.value == Some("1")
      && x.store.variants[0].inventoryQuantity == 10
      && GetOrder(x.store, "1") == None
  {
  }
}
