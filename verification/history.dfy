/** Sequences of resolver calls from the empty store, and the facts that hold
    of every store such a sequence can reach. */
module History {
  import opened Wrappers
  import opened Ids
  import opened Collections
  import opened Entities
  import opened Catalog
  import opened Accounts
  import opened Inventory
  import opened Orders

  /** One mutation request; the query resolvers change nothing and are not
      steps. */
  datatype Op =
    | AddCustomerOp(customer: CustomerInput)
    | AddSellerOp(seller: SellerInput)
    | CreateProductOp(product: ProductInput)
    | UpdateProductOp(productId: string, product: ProductInput)
    | DeleteProductOp(productId: string)
    | CreateVariantOp(productId: string, variant: VariantInput)
    | UpdateVariantOp(variantId: string, variant: VariantInput)
    | DeleteVariantOp(variantId: string)
    | CreateOrderOp(customerId: string, lines: seq<OrderLine>, orderDate: string)
    | CancelOrderOp(orderId: string)

  function Apply(s: Store, op: Op): Store {
    match op
    case AddCustomerOp(c) => AddCustomer(s, c).store
    case AddSellerOp(v) => AddSeller(s, v).store
    case CreateProductOp(p) => CreateProduct(s, p).store
    case UpdateProductOp(id, p) => UpdateProduct(s, id, p).store
    case DeleteProductOp(id) => DeleteProduct(s, id).store
    case CreateVariantOp(pid, v) => CreateVariant(s, pid, v).store
    case UpdateVariantOp(id, v) => UpdateVariant(s, id, v).store
    case DeleteVariantOp(id) => DeleteVariant(s, id).store
    case CreateOrderOp(cid, lines, date) => CreateOrder(s, cid, lines, date).store
    case CancelOrderOp(id) => CancelOrder(s, id).store
  }

  function Run(s: Store, ops: seq<Op>): Store
    decreases |ops|
  {
    if |ops| == 0 then s else Run(Apply(s, ops[0]), ops[1..])
  }

  /** No variant carries a product link. */
  ghost predicate NoVariantLinked(vs: seq<Variant>) {
    forall i :: 0 <= i < |vs| ==> vs[i].productId == None
  }

  /** Every customer entry's id is `String(position + 1)`; seller entries
      fill positions too. */
  ghost predicate CustomerIdsArePositions(cs: seq<Account>) {
    forall k :: 0 <= k < |cs| && cs[k].AsCustomer? ==> cs[k].customer.customerId == NextId(k)
  }

  /** Facts every store the resolvers can reach from the empty one satisfies
      (other stores may satisfy them too). */
  ghost predicate StoreInvariant(s: Store) {
    && NoVariantLinked(s.variants)
    && |s.sellers| == 0
    && CustomerIdsArePositions(s.customers)
  }

  lemma SameKeysKeepUnlinked(vs: seq<Variant>, ws: seq<Variant>)
    requires NoVariantLinked(vs) && VariantKeys(ws) == VariantKeys(vs)
    ensures NoVariantLinked(ws)
  {
    forall i | 0 <= i < |ws|
      ensures ws[i].productId == None
    {
      assert VariantKeys(ws)[i] == VariantKeys(vs)[i];
    }
  }

  /** Which resolvers touch which collection. */

  lemma OnlyAccountResolversTouchCustomers(s: Store, op: Op)
    requires !op.AddCustomerOp? && !op.AddSellerOp?
    ensures Apply(s, op).customers == s.customers
  {
  }

  lemma NoResolverTouchesSellers(s: Store, op: Op)
    ensures Apply(s, op).sellers == s.sellers
  {
  }

  lemma OnlyProductResolversTouchProducts(s: Store, op: Op)
    requires !op.CreateProductOp? && !op.UpdateProductOp? && !op.DeleteProductOp?
    ensures Apply(s, op).products == s.products
  {
  }

  lemma OnlyOrderResolversTouchOrders(s: Store, op: Op)
    requires !op.CreateOrderOp? && !op.CancelOrderOp?
    ensures Apply(s, op).orders == s.orders
  {
  }

  /** Apart from `createVariant` and `deleteVariant`, no resolver changes
      which variants exist or what they match on. */
  lemma VariantKeysKept(s: Store, op: Op)
    requires !op.CreateVariantOp? && !op.DeleteVariantOp?
    ensures VariantKeys(Apply(s, op).variants) == VariantKeys(s.variants)
  {
  }

  lemma KeysDetermineIds(vs: seq<Variant>, ws: seq<Variant>)
    requires VariantKeys(vs) == VariantKeys(ws)
    ensures VariantIds(vs) == VariantIds(ws)
  {
    assert forall i :: 0 <= i < |vs| ==> VariantIds(vs)[i] == VariantKeys(vs)[i].1;
    assert forall i :: 0 <= i < |ws| ==> VariantIds(ws)[i] == VariantKeys(ws)[i].1;
  }

  lemma CreateVariantKeepsUnlinked(s: Store, productId: string, input: VariantInput)
    requires NoVariantLinked(s.variants)
    ensures NoVariantLinked(CreateVariant(s, productId, input).store.variants)
  {
    var r := CreateVariant(s, productId, input);
    if r.value.Some? {
      assert r.store.variants == s.variants + [r.value.value];
    }
  }

  lemma DeleteVariantKeepsUnlinked(s: Store, id: string)
    requires NoVariantLinked(s.variants)
    ensures NoVariantLinked(DeleteVariant(s, id).store.variants)
  {
    var r := DeleteVariant(s, id);
    if r.value.Some? {
      var i: nat :| IsFirst(VariantIds(s.variants), id, i) && r.store == s.(variants := RemoveAt(s.variants, i));
      forall k | 0 <= k < |r.store.variants|
        ensures r.store.variants[k].productId == None
      {
        assert r.store.variants[k] == s.variants[if k < i then k else k + 1];
      }
    }
  }

  lemma ApplyKeepsUnlinked(s: Store, op: Op)
    requires NoVariantLinked(s.variants)
    ensures NoVariantLinked(Apply(s, op).variants)
  {
    if op.CreateVariantOp? {
      CreateVariantKeepsUnlinked(s, op.productId, op.variant);
    } else if op.DeleteVariantOp? {
      DeleteVariantKeepsUnlinked(s, op.variantId);
    } else {
      VariantKeysKept(s, op);
      SameKeysKeepUnlinked(s.variants, Apply(s, op).variants);
    }
  }

  lemma ApplyKeepsCustomerIds(s: Store, op: Op)
    requires CustomerIdsArePositions(s.customers)
    ensures CustomerIdsArePositions(Apply(s, op).customers)
  {
    var t := Apply(s, op);
    match op {
      case AddCustomerOp(c) =>
        assert t.customers == s.customers + [AsCustomer(AddCustomer(s, c).value.value)];
      case AddSellerOp(v) =>
        assert t.customers == s.customers + [AsSeller(AddSeller(s, v).value.value)];
      case _ =>
        OnlyAccountResolversTouchCustomers(s, op);
    }
  }

  /** Every resolver keeps `StoreInvariant`. */
  lemma ApplyKeepsInvariant(s: Store, op: Op)
    requires StoreInvariant(s)
    ensures StoreInvariant(Apply(s, op))
  {
    ApplyKeepsUnlinked(s, op);
    NoResolverTouchesSellers(s, op);
    ApplyKeepsCustomerIds(s, op);
  }

  lemma {:induction false} RunKeepsInvariant(s: Store, ops: seq<Op>)
    requires StoreInvariant(s)
    ensures StoreInvariant(Run(s, ops))
    decreases |ops|
  {
    if |ops| > 0 {
      ApplyKeepsInvariant(s, ops[0]);
      RunKeepsInvariant(Apply(s, ops[0]), ops[1..]);
    }
  }

  /** No store the resolvers reach has a variant with a product link, has a
      seller in `sellers`, or has a customer whose id differs from
      `String(position + 1)`. */
  lemma EveryRunKeepsInvariant(ops: seq<Op>)
    ensures StoreInvariant(Run(Empty, ops))
  {
    RunKeepsInvariant(Empty, ops);
  }

  /** No order line can match an unlinked variant, so in a reachable store
      `createOrder` and `cancelOrder` never move any stock. */
  lemma {:induction false} OrdersNeverMoveStock(ops: seq<Op>, customerId: string, lines: seq<OrderLine>, orderDate: string, orderId: string)
    ensures var s := Run(Empty, ops);
      && CreateOrder(s, customerId, lines, orderDate).store.variants == s.variants
      && CancelOrder(s, orderId).store.variants == s.variants
  {
    var s := Run(Empty, ops);
    EveryRunKeepsInvariant(ops);
    UnlinkedNeverMatch(s.variants, lines);
    UnmatchedLinesLeaveStock(s.variants, lines, Withdraw);
    match IndexOf(OrderIds(s.orders), orderId)
    case None =>
    case Some(i) =>
      UnlinkedNeverMatch(s.variants, s.orders[i].lines);
      UnmatchedLinesLeaveStock(s.variants, s.orders[i].lines, Restock);
  }

  lemma UnlinkedNeverMatch(vs: seq<Variant>, lines: seq<OrderLine>)
    requires NoVariantLinked(vs)
    ensures forall k :: 0 <= k < |lines| ==> FirstMatch(vs, lines[k]).None?
  {
  }

  /** In a reachable store `getSeller` finds nothing, and every seller added
      is given id "1". */
  lemma SellersInvisible(ops: seq<Op>, id: string, input: SellerInput)
    ensures var s := Run(Empty, ops);
      GetSeller(s, id) == None && AddSeller(s, input).value.value.sellerId == "1"
  {
    EveryRunKeepsInvariant(ops);
    assert DecimalString(1) == "1";
  }

  /** Customer ids are never shared, and a customer just added is found
      under the id it was given. */
  lemma CustomerIdsUnique(ops: seq<Op>, input: CustomerInput)
    ensures var s := Run(Empty, ops);
      && (forall i, j :: 0 <= i < j < |s.customers| && s.customers[i].AsCustomer? && s.customers[j].AsCustomer?
            ==> s.customers[i].customer.customerId != s.customers[j].customer.customerId)
      && var r := AddCustomer(s, input);
         GetCustomer(r.store, r.value.value.customerId) == r.value
  {
    var s := Run(Empty, ops);
    EveryRunKeepsInvariant(ops);
    forall i, j | 0 <= i < j < |s.customers| && s.customers[i].AsCustomer? && s.customers[j].AsCustomer?
      ensures s.customers[i].customer.customerId != s.customers[j].customer.customerId
    {
      NextIdInjective(i, j);
    }
    forall k | 0 <= k < |s.customers|
      ensures CustomerKeys(s.customers)[k] != Some(NextId(|s.customers|))
    {
      NextIdInjective(k, |s.customers|);
    }
    AddCustomerThenGet(s, input);
  }

  /** The ids of a collection nothing was removed from: the record at
      zero-based position `k` has id `String(k + 1)`. */
  ghost predicate Positional(ids: seq<string>) {
    forall k :: 0 <= k < |ids| ==> ids[k] == NextId(k)
  }

  /** Positional ids are pairwise distinct, and the next one allocated is
      fresh. */
  lemma PositionalDistinct(ids: seq<string>)
    requires Positional(ids)
    ensures Distinct(ids) && NextId(|ids|) !in ids
  {
    forall i, j | 0 <= i < j < |ids|
      ensures ids[i] != ids[j]
    {
      NextIdInjective(i, j);
    }
    forall k | 0 <= k < |ids|
      ensures ids[k] != NextId(|ids|)
    {
      NextIdInjective(k, |ids|);
    }
  }

  predicate KeepsProducts(op: Op) { !op.DeleteProductOp? }
  predicate KeepsVariants(op: Op) { !op.DeleteVariantOp? }
  predicate KeepsOrders(op: Op) { !op.CancelOrderOp? }

  /** A step that removes no product keeps product ids positional. */
  lemma ApplyKeepsProductIds(s: Store, op: Op)
    requires Positional(ProductIds(s.products)) && KeepsProducts(op)
    ensures Positional(ProductIds(Apply(s, op).products))
  {
    var t := Apply(s, op);
    if op.CreateProductOp? {
      assert ProductIds(t.products) == ProductIds(s.products) + [NextId(|s.products|)];
      PositionalAppend(ProductIds(s.products));
    } else if op.UpdateProductOp? {
      assert ProductIds(t.products) == ProductIds(s.products);
    } else {
      OnlyProductResolversTouchProducts(s, op);
    }
  }

  /** A step that removes no variant keeps variant ids positional. */
  lemma ApplyKeepsVariantIds(s: Store, op: Op)
    requires Positional(VariantIds(s.variants)) && KeepsVariants(op)
    ensures Positional(VariantIds(Apply(s, op).variants))
  {
    var t := Apply(s, op);
    if op.CreateVariantOp? {
      if CreateVariant(s, op.productId, op.variant).value.Some? {
        assert VariantIds(t.variants) == VariantIds(s.variants) + [NextId(|s.variants|)];
        PositionalAppend(VariantIds(s.variants));
      }
    } else {
      VariantKeysKept(s, op);
      KeysDetermineIds(s.variants, t.variants);
    }
  }

  /** Appending the id allocated next keeps ids positional. */
  lemma PositionalAppend(ids: seq<string>)
    requires Positional(ids)
    ensures Positional(ids + [NextId(|ids|)])
  {
  }

  /** Appending an order that carries the id allocated next keeps order ids
      positional. */
  lemma AppendNextOrder(os: seq<Order>, o: Order)
    requires Positional(OrderIds(os)) && o.orderId == NextId(|os|)
    ensures Positional(OrderIds(os + [o]))
  {
    assert OrderIds(os + [o]) == OrderIds(os) + [o.orderId];
    PositionalAppend(OrderIds(os));
  }

  lemma CreateOrderKeepsOrderIds(s: Store, customerId: string, lines: seq<OrderLine>, orderDate: string)
    requires Positional(OrderIds(s.orders))
    ensures Positional(OrderIds(CreateOrder(s, customerId, lines, orderDate).store.orders))
  {
    var r := CreateOrder(s, customerId, lines, orderDate);
    if r.value.Some? {
      AppendNextOrder(s.orders, r.value.value);
    }
  }

  /** A step that cancels no order keeps order ids positional. */
  lemma ApplyKeepsOrderIds(s: Store, op: Op)
    requires Positional(OrderIds(s.orders)) && KeepsOrders(op)
    ensures Positional(OrderIds(Apply(s, op).orders))
  {
    var t := Apply(s, op);
    if op.CreateOrderOp? {
      assert t == CreateOrder(s, op.customerId, op.lines, op.orderDate).store;
      CreateOrderKeepsOrderIds(s, op.customerId, op.lines, op.orderDate);
    } else {
      OnlyOrderResolversTouchOrders(s, op);
      assert t.orders == s.orders;
    }
  }

  lemma {:induction false} RunKeepsPositional(s: Store, ops: seq<Op>)
    ensures Positional(ProductIds(s.products)) && (forall k :: 0 <= k < |ops| ==> KeepsProducts(ops[k]))
      ==> Positional(ProductIds(Run(s, ops).products))
    ensures Positional(VariantIds(s.variants)) && (forall k :: 0 <= k < |ops| ==> KeepsVariants(ops[k]))
      ==> Positional(VariantIds(Run(s, ops).variants))
    ensures Positional(OrderIds(s.orders)) && (forall k :: 0 <= k < |ops| ==> KeepsOrders(ops[k]))
      ==> Positional(OrderIds(Run(s, ops).orders))
    decreases |ops|
  {
    if |ops| > 0 {
      if Positional(ProductIds(s.products)) && KeepsProducts(ops[0]) {
        ApplyKeepsProductIds(s, ops[0]);
      }
      if Positional(VariantIds(s.variants)) && KeepsVariants(ops[0]) {
        ApplyKeepsVariantIds(s, ops[0]);
      }
      if Positional(OrderIds(s.orders)) && KeepsOrders(ops[0]) {
        ApplyKeepsOrderIds(s, ops[0]);
      }
      RunKeepsPositional(Apply(s, ops[0]), ops[1..]);
      assert forall k :: 0 <= k < |ops[1..]| ==> ops[1..][k] == ops[k + 1];
    }
  }

  /** In a history that never deletes a product, the k-th product (from 1)
      has id `String(k)`, product ids are pairwise distinct, and a product
      created next is found under the id it was given. */
  lemma {:induction false} ProductIdsWithoutDeletes(ops: seq<Op>, input: ProductInput)
    requires forall k :: 0 <= k < |ops| ==> KeepsProducts(ops[k])
    ensures var s := Run(Empty, ops);
      && Positional(ProductIds(s.products))
      && Distinct(ProductIds(s.products))
      && var r := CreateProduct(s, input);
         GetProduct(r.store, r.value.value.productId) == r.value
  {
    var s := Run(Empty, ops);
    RunKeepsPositional(Empty, ops);
    PositionalDistinct(ProductIds(s.products));
    CreateProductThenGet(s, input);
  }

  /** In a history that never deletes a variant, variant ids are
      `String(1)`, `String(2)`, ... in order, hence pairwise distinct. */
  lemma {:induction false} VariantIdsWithoutDeletes(ops: seq<Op>)
    requires forall k :: 0 <= k < |ops| ==> KeepsVariants(ops[k])
    ensures var s := Run(Empty, ops);
      Positional(VariantIds(s.variants)) && Distinct(VariantIds(s.variants))
  {
    var s := Run(Empty, ops);
    RunKeepsPositional(Empty, ops);
    PositionalDistinct(VariantIds(s.variants));
  }

  /** In a history that never cancels an order, order ids are positional
      and distinct, a new order is found under the id it was given, and its
      cancellation leaves the store exactly as it was. */
  lemma {:induction false} OrderIdsWithoutCancels(ops: seq<Op>, customerId: string, lines: seq<OrderLine>, orderDate: string)
    requires forall k :: 0 <= k < |ops| ==> KeepsOrders(ops[k])
    ensures var s := Run(Empty, ops);
      && Positional(OrderIds(s.orders))
      && Distinct(OrderIds(s.orders))
      && (Some(customerId) in CustomerKeys(s.customers) ==>
            var c := CreateOrder(s, customerId, lines, orderDate);
            && GetOrder(c.store, c.value.value.orderId) == c.value
            && CancelOrder(c.store, c.value.value.orderId).store == s)
  {
    var s := Run(Empty, ops);
    RunKeepsPositional(Empty, ops);
    PositionalDistinct(OrderIds(s.orders));
    if Some(customerId) in CustomerKeys(s.customers) {
      CreateOrderThenGet(s, customerId, lines, orderDate);
      CreateThenCancelRestores(s, customerId, lines, orderDate);
    }
  }
}
