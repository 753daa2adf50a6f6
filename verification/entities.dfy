/** The records the store holds, the resolvers' input records, and the store
    itself: five sequences standing for the five module-level arrays. */
module Entities {
  import opened Wrappers

  datatype Product = Product(
    productId: string,
    name: string,
    description: Option<string>,
    price: int)

  /** A variant as the store keeps it. `productId` is the link an order line
      is matched against; `createVariant` never sets it, so a variant it made
      carries `None`. */
  datatype Variant = Variant(
    variantId: string,
    productId: Option<string>,
    color: string,
    size: string,
    inventoryQuantity: int)

  datatype Customer = Customer(
    customerId: string,
    name: string,
    email: string,
    address: Option<string>)

  datatype Seller = Seller(sellerId: string, name: string, email: string)

  /** An entry of the `customers` array. `addSeller` pushes its seller record
      there too, so the array holds both kinds; a seller entry has no
      `customerId` and so never matches a customer lookup. */
  datatype Account = AsCustomer(customer: Customer) | AsSeller(seller: Seller)

  datatype OrderLine = OrderLine(productId: string, variantId: string, quantity: int)

  /** An order: `customer` is the customer record found at creation time,
      `lines` the copied `products` argument, in order. */
  datatype Order = Order(
    orderId: string,
    orderDate: string,
    customer: Customer,
    lines: seq<OrderLine>)

  /** A nullable field of a GraphQL input object: left out of the input, or
      given (possibly as an explicit `null`). Object spread copies a given
      field, `null` included, and leaves an omitted one alone. */
  datatype InputField<T> = Omitted | Provided(value: Option<T>)

  datatype ProductInput = ProductInput(name: string, description: InputField<string>, price: int)

  datatype VariantInput = VariantInput(color: string, size: string, inventoryQuantity: int)

  datatype CustomerInput = CustomerInput(name: string, email: string, address: InputField<string>)

  datatype SellerInput = SellerInput(name: string, email: string)

  datatype Store = Store(
    products: seq<Product>,
    variants: seq<Variant>,
    customers: seq<Account>,
    sellers: seq<Seller>,
    orders: seq<Order>)

  /** What a mutation resolver leaves behind and what it returns. */
  datatype Reply<T> = Reply(store: Store, value: Option<T>)

  /** The store at process start: all five arrays empty. */
  const Empty := Store([], [], [], [], [])

  /** The value a record gets for a nullable input field on creation: an
      omitted field reads back as `null` just like an explicit `null`. */
  function Initial<T>(f: InputField<T>): Option<T> {
    match f
    case Omitted => None
    case Provided(v) => v
  }

  /** Key projections: the field each lookup compares against. */

  function ProductIds(ps: seq<Product>): (ids: seq<string>)
    ensures |ids| == |ps|
    ensures forall k :: 0 <= k < |ps| ==> ids[k] == ps[k].productId
  {
    seq(|ps|, k requires 0 <= k < |ps| => ps[k].productId)
  }

  function VariantIds(vs: seq<Variant>): (ids: seq<string>)
    ensures |ids| == |vs|
    ensures forall k :: 0 <= k < |vs| ==> ids[k] == vs[k].variantId
  {
    seq(|vs|, k requires 0 <= k < |vs| => vs[k].variantId)
  }

  function SellerIds(ss: seq<Seller>): (ids: seq<string>)
    ensures |ids| == |ss|
    ensures forall k :: 0 <= k < |ss| ==> ids[k] == ss[k].sellerId
  {
    seq(|ss|, k requires 0 <= k < |ss| => ss[k].sellerId)
  }

  function OrderIds(os: seq<Order>): (ids: seq<string>)
    ensures |ids| == |os|
    ensures forall k :: 0 <= k < |os| ==> ids[k] == os[k].orderId
  {
    seq(|os|, k requires 0 <= k < |os| => os[k].orderId)
  }

  /** The `customerId` of each entry of `customers`; a seller entry has none. */
  function CustomerKey(a: Account): Option<string> {
    match a
    case AsCustomer(c) => Some(c.customerId)
    case AsSeller(_) => None
  }

  function CustomerKeys(cs: seq<Account>): (keys: seq<Option<string>>)
    ensures |keys| == |cs|
    ensures forall k :: 0 <= k < |cs| ==> keys[k] == CustomerKey(cs[k])
  {
    seq(|cs|, k requires 0 <= k < |cs| => CustomerKey(cs[k]))
  }

  /** The pair an order line is matched on: a variant matches a line when
      both its `productId` and its `variantId` equal the line's. */
  function VariantKey(v: Variant): (Option<string>, string) {
    (v.productId, v.variantId)
  }

  function VariantKeys(vs: seq<Variant>): (keys: seq<(Option<string>, string)>)
    ensures |keys| == |vs|
    ensures forall k :: 0 <= k < |vs| ==> keys[k] == VariantKey(vs[k])
  {
    seq(|vs|, k requires 0 <= k < |vs| => VariantKey(vs[k]))
  }

  function LineKey(l: OrderLine): (Option<string>, string) {
    (Some(l.productId), l.variantId)
  }
}
