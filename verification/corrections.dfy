/** Definitions of three resolvers as their callers evidently expect them to
    behave, each with the property the as-written resolver lacks. The facade
    modules keep the behaviour of the code as written. */
module Corrections {
  import opened Wrappers
  import opened Ids
  import opened Collections
  import opened Entities
  import opened Catalog
  import opened Accounts
  import opened Inventory
  import opened Orders

  /** `addSeller` pushing onto `sellers`, the collection its id is taken
      from and `getSeller` searches. */
  function AddSellerIntended(s: Store, input: SellerInput): (r: Reply<Seller>)
    ensures r.value.Some?
    ensures r.value.value.sellerId == NextId(|s.sellers|)
    ensures r.value.value.name == input.name && r.value.value.email == input.email
    ensures r.store == s.(sellers := s.sellers + [r.value.value])
  {
    var v := Seller(NextId(|s.sellers|), input.name, input.email);
    Reply(s.(sellers := s.sellers + [v]), Some(v))
  }

  /** Sellers added this way are found by `getSeller` under the id they were
      given, and customer lookups are unaffected. */
  lemma AddSellerIntendedThenGet(s: Store, input: SellerInput, id: string)
    requires NextId(|s.sellers|) !in SellerIds(s.sellers)
    ensures var r := AddSellerIntended(s, input);
      && GetSeller(r.store, r.value.value.sellerId) == r.value
      && GetCustomer(r.store, id) == GetCustomer(s, id)
  {
    var r := AddSellerIntended(s, input);
    assert SellerIds(r.store.sellers) == SellerIds(s.sellers) + [NextId(|s.sellers|)];
    IndexOfLast(SellerIds(s.sellers), NextId(|s.sellers|));
  }

  /** `createVariant` recording the product it was created under, so that
      order lines naming that product and variant find it. */
  function CreateVariantLinked(s: Store, productId: string, input: VariantInput): (r: Reply<Variant>)
    ensures r.value.None? <==> productId !in ProductIds(s.products)
    ensures r.value.None? ==> r.store == s
    ensures r.value.Some? ==>
      r.value.value.variantId == NextId(|s.variants|)
        && r.value.value.productId == Some(productId)
        && r.value.value.color == input.color
        && r.value.value.size == input.size
        && r.value.value.inventoryQuantity == input.inventoryQuantity
        && r.store == s.(variants := s.variants + [r.value.value])
  {
    if GetProduct(s, productId).Some? then
      var v := Variant(NextId(|s.variants|), Some(productId), input.color, input.size, input.inventoryQuantity);
      Reply(s.(variants := s.variants + [v]), Some(v))
    else
      Reply(s, None)
  }

  /** A variant created under product `p` loses exactly `q` when an order
      of `q` of it is placed, and gets it back when the order is cancelled,
      provided no older variant has the same product and variant id. */
  lemma LinkedVariantAnswersOrders(
    s: Store, productId: string, input: VariantInput,
    customerId: string, quantity: int, orderDate: string)
    requires productId in ProductIds(s.products)
    requires Some(customerId) in CustomerKeys(s.customers)
    requires (Some(productId), NextId(|s.variants|)) !in VariantKeys(s.variants)
    requires NextId(|s.orders|) !in OrderIds(s.orders)
    ensures
      var t := CreateVariantLinked(s, productId, input).store;
      var c := CreateOrder(t, customerId, [OrderLine(productId, NextId(|s.variants|), quantity)], orderDate);
      var x := CancelOrder(c.store, NextId(|s.orders|));
      && c.store.variants[|s.variants|].inventoryQuantity == input.inventoryQuantity - quantity
      && x.store.variants[|s.variants|].inventoryQuantity == input.inventoryQuantity
  {
    var t := CreateVariantLinked(s, productId, input).store;
    var line := OrderLine(productId, NextId(|s.variants|), quantity);
    var key := LineKey(line);
    assert VariantKeys(t.variants) == VariantKeys(s.variants) + [key];
    IndexOfLast(VariantKeys(s.variants), key);
    assert Demand(VariantKeys(t.variants), [line], |s.variants|) == quantity;
    CreateThenCancelRestores(t, customerId, [line], orderDate);
  }

  /** A variant collection with an id counter that only grows: `issued` is
      how many ids have been handed out. */
  datatype VariantTable = VariantTable(rows: seq<Variant>, issued: nat)

  /** Ids are distinct, and none of them is one the counter will issue. */
  ghost predicate CounterSound(t: VariantTable) {
    && Distinct(VariantIds(t.rows))
    && forall i, m :: 0 <= i < |t.rows| && t.issued <= m ==> t.rows[i].variantId != NextId(m)
  }

  /** Creation taking its id from the counter instead of the length. */
  function CreateVariantCounted(t: VariantTable, productId: string, input: VariantInput): (r: (VariantTable, Variant))
    ensures r.1.variantId == NextId(t.issued)
    ensures r.1.productId == Some(productId)
    ensures r.0 == VariantTable(t.rows + [r.1], t.issued + 1)
    ensures CounterSound(t) ==> CounterSound(r.0)
  {
    var v := Variant(NextId(t.issued), Some(productId), input.color, input.size, input.inventoryQuantity);
    var u := VariantTable(t.rows + [v], t.issued + 1);
    assert CounterSound(t) ==> CounterSound(u) by {
      if CounterSound(t) {
        forall i, m | 0 <= i < |u.rows| && u.issued <= m
          ensures u.rows[i].variantId != NextId(m)
        {
          if i == |t.rows| {
            NextIdInjective(t.issued, m);
          }
        }
        assert VariantIds(u.rows) == VariantIds(t.rows) + [NextId(t.issued)];
      }
    }
    (u, v)
  }

  /** Deletion as before; the counter is not touched. */
  function DeleteVariantCounted(t: VariantTable, id: string): (r: (VariantTable, Option<string>))
    ensures r.1.None? <==> id !in VariantIds(t.rows)
    ensures r.1.None? ==> r.0 == t
    ensures r.1.Some? ==>
      r.1.value == id
        && r.0.issued == t.issued
        && |r.0.rows| == |t.rows| - 1
        && (exists i: nat ::
              IsFirst(VariantIds(t.rows), id, i)
              && r.0.rows == RemoveAt(t.rows, i))
    ensures CounterSound(t) ==> CounterSound(r.0)
  {
    match IndexOf(VariantIds(t.rows), id)
    case None => (t, None)
    case Some(i) =>
      var u := VariantTable(RemoveAt(t.rows, i), t.issued);
      assert CounterSound(t) ==> CounterSound(u) by {
        if CounterSound(t) {
          RemoveAtDistinct(VariantIds(t.rows), i);
          assert VariantIds(u.rows) == RemoveAt(VariantIds(t.rows), i);
        }
      }
      (u, Some(id))
  }

  /** The history that reuses "2" under length-based allocation gives
      "1", "2", then "3" with the counter, and the live ids stay distinct. */
  lemma CountedIdsStayDistinct()
    ensures
      var t0 := VariantTable([], 0);
      var (t1, _) := CreateVariantCounted(t0, "1", VariantInput("red", "M", 5));
      var (t2, _) := CreateVariantCounted(t1, "1", VariantInput("blue", "L", 5));
      var (t3, _) := DeleteVariantCounted(t2, NextId(0));
      var (t4, v) := CreateVariantCounted(t3, "1", VariantInput("green", "S", 5));
      v.variantId == NextId(2) && CounterSound(t4) && |t4.rows| == 2
  {
  }
}
