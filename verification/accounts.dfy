/** The customer and seller resolvers: `getCustomer`, `getSeller`,
    `addCustomer`, `addSeller`. */
module Accounts {
  import opened Wrappers
  import opened Ids
  import opened Collections
  import opened Entities

  /** `getCustomer`: the first entry of `customers` whose `customerId` is
      `id`, or null. Seller entries have no `customerId` and never match. */
  function GetCustomer(s: Store, id: string): (r: Option<Customer>)
    ensures r.None? <==> Some(id) !in CustomerKeys(s.customers)
    ensures r.Some? ==>
      r.value.customerId == id
        && exists i: nat ::
             IsFirst(CustomerKeys(s.customers), Some(id), i) && s.customers[i] == AsCustomer(r.value)
  {
    match IndexOf(CustomerKeys(s.customers), Some(id))
    case None => None
    case Some(i) => Some(s.customers[i].customer)
  }

  /** `getSeller`: the first entry of `sellers` with that id, or null. */
  function GetSeller(s: Store, id: string): (r: Option<Seller>)
    ensures r.None? <==> id !in SellerIds(s.sellers)
    ensures r.Some? ==> exists i: nat :: IsFirst(SellerIds(s.sellers), id, i) && s.sellers[i] == r.value
  {
    match IndexOf(SellerIds(s.sellers), id)
    case None => None
    case Some(i) => Some(s.sellers[i])
  }

  /** `addCustomer`: id `String(customers.length + 1)`, the input's fields,
      appended to `customers`. */
  function AddCustomer(s: Store, input: CustomerInput): (r: Reply<Customer>)
    ensures r.value.Some?
    ensures r.value.value.customerId == NextId(|s.customers|)
    ensures r.value.value.name == input.name && r.value.value.email == input.email
    ensures r.value.value.address == Initial(input.address)
    ensures r.store == s.(customers := s.customers + [AsCustomer(r.value.value)])
  {
    var c := Customer(NextId(|s.customers|), input.name, input.email, Initial(input.address));
    Reply(s.(customers := s.customers + [AsCustomer(c)]), Some(c))
  }

  /** `addSeller` as written: the id is taken from `sellers.length`, but the
      record is pushed onto `customers`; `sellers` never changes. */
  function AddSeller(s: Store, input: SellerInput): (r: Reply<Seller>)
    ensures r.value.Some?
    ensures r.value.value.sellerId == NextId(|s.sellers|)
    ensures r.value.value.name == input.name && r.value.value.email == input.email
    ensures r.store == s.(customers := s.customers + [AsSeller(r.value.value)])
  {
    var v := Seller(NextId(|s.sellers|), input.name, input.email);
    Reply(s.(customers := s.customers + [AsSeller(v)]), Some(v))
  }

  /** A customer just added is found under its id, provided no customer
      already holds that id. */
  lemma AddCustomerThenGet(s: Store, input: CustomerInput)
    requires Some(NextId(|s.customers|)) !in CustomerKeys(s.customers)
    ensures var r := AddCustomer(s, input);
      GetCustomer(r.store, r.value.value.customerId) == r.value
  {
    var r := AddCustomer(s, input);
    assert CustomerKeys(r.store.customers) == CustomerKeys(s.customers) + [Some(NextId(|s.customers|))];
    IndexOfLast(CustomerKeys(s.customers), Some(NextId(|s.customers|)));
  }

  /** A seller added is visible to no lookup: `getSeller` and `getCustomer`
      answer every id exactly as before. */
  lemma AddSellerInvisible(s: Store, input: SellerInput, id: string)
    ensures var r := AddSeller(s, input);
      GetSeller(r.store, id) == GetSeller(s, id) && GetCustomer(r.store, id) == GetCustomer(s, id)
  {
    var r := AddSeller(s, input);
    assert CustomerKeys(r.store.customers) == CustomerKeys(s.customers) + [None];
    IndexOfAppendOther(CustomerKeys(s.customers), None, Some(id));
  }

  /** Each seller added takes a slot of `customers`, so the next customer's
      id is one higher than without it. */
  lemma AddSellerShiftsCustomerIds(s: Store, seller: SellerInput, customer: CustomerInput)
    ensures AddCustomer(AddSeller(s, seller).store, customer).value.value.customerId
      == NextId(|s.customers| + 1)
    ensures AddCustomer(s, customer).value.value.customerId == NextId(|s.customers|)
  {
  }
}
