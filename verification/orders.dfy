/** The order resolvers: `getOrder`, `createOrder`, `cancelOrder`. */
module Orders {
  import opened Wrappers
  import opened Ids
  import opened Collections
  import opened Entities
  import opened Accounts
  import opened Inventory

  /** `getOrder`: the first order with that id, or null. */
  function GetOrder(s: Store, id: string): (r: Option<Order>)
    ensures r.None? <==> id !in OrderIds(s.orders)
    ensures r.Some? ==> exists i: nat :: IsFirst(OrderIds(s.orders), id, i) && s.orders[i] == r.value
  {
    match IndexOf(OrderIds(s.orders), id)
    case None => None
    case Some(i) => Some(s.orders[i])
  }

  /** `createOrder`. With no customer of that id: null, and nothing changes,
      stock included. Otherwise one order is appended, with id
      `String(orders.length + 1)`, the given date, the customer found and the
      lines in their given order; each variant loses the quantity the lines
      route to it; no other field of any record and no other collection
      changes. */
  function CreateOrder(s: Store, customerId: string, lines: seq<OrderLine>, orderDate: string)
    : (r: Reply<Order>)
    ensures r.value.None? <==> Some(customerId) !in CustomerKeys(s.customers)
    ensures r.value.None? ==> r.store == s
    ensures VariantKeys(r.store.variants) == VariantKeys(s.variants)
    ensures r.value.Some? ==>
      var o := r.value.value;
      && o.orderId == NextId(|s.orders|)
      && o.orderDate == orderDate
      && o.lines == lines
      && GetCustomer(s, customerId) == Some(o.customer)
      && r.store.orders == s.orders + [o]
      && r.store.products == s.products
      && r.store.customers == s.customers
      && r.store.sellers == s.sellers
      && AllSameExceptStock(s.variants, r.store.variants)
      && forall i :: 0 <= i < |s.variants| ==>
           r.store.variants[i].inventoryQuantity
             == s.variants[i].inventoryQuantity - Demand(VariantKeys(s.variants), lines, i)
  {
    match GetCustomer(s, customerId)
    case None => Reply(s, None)
    case Some(c) =>
      var o := Order(NextId(|s.orders|), orderDate, c, lines);
      var vs := AdjustLines(s.variants, lines, Withdraw);
      assert forall i :: 0 <= i < |s.variants| ==>
          vs[i].inventoryQuantity == s.variants[i].inventoryQuantity - Demand(VariantKeys(s.variants), lines, i)
      by {
        AdjustLinesNet(s.variants, lines, Withdraw);
      }
      Reply(s.(variants := vs, orders := s.orders + [o]), Some(o))
  }

  /** `cancelOrder`. On an absent id: null, and nothing changes. Otherwise
      the first order with that id is spliced out, each variant gets back the
      quantity that order's lines route to it, and the id is returned. */
  function CancelOrder(s: Store, orderId: string): (r: Reply<string>)
    ensures r.value.None? <==> orderId !in OrderIds(s.orders)
    ensures r.value.None? ==> r.store == s
    ensures VariantKeys(r.store.variants) == VariantKeys(s.variants)
    ensures r.value.Some? ==>
      && r.value.value == orderId
      && r.store.products == s.products
      && r.store.customers == s.customers
      && r.store.sellers == s.sellers
      && AllSameExceptStock(s.variants, r.store.variants)
      && exists i: nat ::
           && IsFirst(OrderIds(s.orders), orderId, i)
           && r.store.orders == RemoveAt(s.orders, i)
           && forall j :: 0 <= j < |s.variants| ==>
                r.store.variants[j].inventoryQuantity
                  == s.variants[j].inventoryQuantity + Demand(VariantKeys(s.variants), s.orders[i].lines, j)
  {
    match IndexOf(OrderIds(s.orders), orderId)
    case None => Reply(s, None)
    case Some(i) =>
      var vs := AdjustLines(s.variants, s.orders[i].lines, Restock);
      assert forall j :: 0 <= j < |s.variants| ==>
          vs[j].inventoryQuantity
            == s.variants[j].inventoryQuantity + Demand(VariantKeys(s.variants), s.orders[i].lines, j)
      by {
        AdjustLinesNet(s.variants, s.orders[i].lines, Restock);
      }
      Reply(s.(variants := vs, orders := RemoveAt(s.orders, i)), Some(orderId))
  }

  /** An order just created is found under its id, provided no live order
      already has that id. */
  lemma CreateOrderThenGet(s: Store, customerId: string, lines: seq<OrderLine>, orderDate: string)
    requires Some(customerId) in CustomerKeys(s.customers)
    requires NextId(|s.orders|) !in OrderIds(s.orders)
    ensures var c := CreateOrder(s, customerId, lines, orderDate);
      c.value.Some? && GetOrder(c.store, c.value.value.orderId) == c.value
  {
    var c := CreateOrder(s, customerId, lines, orderDate);
    assert OrderIds(c.store.orders) == OrderIds(s.orders) + [NextId(|s.orders|)];
    IndexOfLast(OrderIds(s.orders), NextId(|s.orders|));
  }

  /** Creating an order and at once cancelling the id it got gives back the
      store exactly as it was — every stock count included — provided the
      customer exists and no live order already has the new id (otherwise
      the cancellation removes that older order instead). */
  lemma CreateThenCancelRestores(s: Store, customerId: string, lines: seq<OrderLine>, orderDate: string)
    requires Some(customerId) in CustomerKeys(s.customers)
    requires NextId(|s.orders|) !in OrderIds(s.orders)
    ensures var c := CreateOrder(s, customerId, lines, orderDate);
      c.value.Some? && CancelOrder(c.store, c.value.value.orderId) == Reply(s, Some(NextId(|s.orders|)))
  {
    var c := CreateOrder(s, customerId, lines, orderDate);
    var o := c.value.value;
    assert OrderIds(c.store.orders) == OrderIds(s.orders) + [o.orderId];
    IndexOfLast(OrderIds(s.orders), o.orderId);
    assert RemoveAt(c.store.orders, |s.orders|) == s.orders;
    WithdrawThenRestore(s.variants, lines);
  }

  /** A line that matches no variant is kept in the order and moves no
      stock: with only such lines, `createOrder` leaves every variant as it
      was. */
  lemma CreateOrderUnmatchedLines(s: Store, customerId: string, lines: seq<OrderLine>, orderDate: string)
    requires Some(customerId) in CustomerKeys(s.customers)
    requires forall k :: 0 <= k < |lines| ==> FirstMatch(s.variants, lines[k]).None?
    ensures var c := CreateOrder(s, customerId, lines, orderDate);
      c.value.Some? && c.value.value.lines == lines && c.store.variants == s.variants
  {
    UnmatchedLinesLeaveStock(s.variants, lines, Withdraw);
  }

  /** With distinct order ids, a cancelled order is gone: `getOrder` and a
      second `cancelOrder` of its id both signal not-found. */
  lemma CancelOrderHides(s: Store, id: string)
    requires Distinct(OrderIds(s.orders))
    ensures var r := CancelOrder(s, id);
      GetOrder(r.store, id) == None && CancelOrder(r.store, id).value == None
  {
    var r := CancelOrder(s, id);
    if r.value.Some? {
      var i := IndexOf(OrderIds(s.orders), id).value;
      RemoveAtDistinct(OrderIds(s.orders), i);
      assert OrderIds(r.store.orders) == RemoveAt(OrderIds(s.orders), i);
    }
  }
}
