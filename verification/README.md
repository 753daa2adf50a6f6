# In-memory commerce store: a Dafny model

This project models the data layer behind the GraphQL resolvers of a small
e-commerce service. The service keeps five module-level arrays — `products`,
`variants`, `customers`, `sellers`, `orders` — and its resolvers read and
change them: find-by-id getters, creates that take their id from the current
array length, shallow-merge updates, splice deletes, and the order/inventory
engine, where `createOrder` takes each line's quantity from the first variant
matching both the line's product id and variant id and `cancelOrder` gives
it back.

The model is functional. `Entities.Store` is a record of five sequences.
Each mutation resolver is a pure function from a store and its arguments to
`Reply(store, value)`, where `value` is `None` exactly where the resolver
returns `null`. Each getter is a function to `Option`. Modules:

- `Wrappers`: `Option`.
- `Ids`: `String(n)` as `DecimalString`, its two-sided inverse `ParseDecimal`
  on canonical digit strings (no leading zero), and `NextId(length)` =
  `String(length + 1)`.
- `Collections`: `find`/`findIndex` by key (`IndexOf`) and `splice(i, 1)` (`RemoveAt`).
- `Entities`: the records, the input records and the store.
  `InputField` tells an omitted nullable input field from a given one, which
  is what object spread distinguishes.
- `Catalog`, `Accounts`, `Orders`: the resolvers.
- `Inventory`: the per-line stock adjustment, with a closed form (`Demand`).
- `History`: sequences of mutations from the empty store, and what every
  reachable store satisfies.
- `Scenarios`: concrete request sequences that show the code's quirks.
- `Corrections`: the corrected definitions listed under Findings.

The model follows the code as written, including these behaviours of it:
- Ids are not unique. A create after a delete can get the id of a record
  that is still live: with variants "1" and "2", deleting "1" and creating
  another variant issues "2" a second time.
- `addSeller` stores the seller in `customers`, so `getSeller` never finds it.
- `createVariant` does not record the product on the variant. So in every
  store the resolvers can reach, no order line ever matches a variant, and
  orders never move stock: a product, a variant with stock 10, a customer
  and an order of 3 leave the stock at 10, not 7.
- Deleting an id hides it unless another live record has the same id,
  which can happen after a delete; when ids are distinct it always does.

## Model

| member | source | states |
|---|---|---|
| Ids.NextId | schemas/schema.js:130 | the id a create assigns reads back as the collection length plus one |
| Ids.ParseDecimalString | schemas/schema.js:142 | reading back the decimal rendering of any n gives n |
| Ids.DecimalStringParse | schemas/schema.js:142 | every string the reader accepts is the rendering of the number it reads, so rendering and reading are inverse in both directions |
| Ids.DecimalStringInjective | schemas/schema.js:168 | two numbers render to the same id exactly when they are equal |
| Collections.IndexOf | schemas/schema.js:148 | findIndex: the result is the first position holding the key, and it is absent exactly when no position holds it |
| Collections.RemoveAt | schemas/schema.js:159 | splice(i, 1): length drops by one, earlier elements stay, later ones shift down by one, the multiset loses exactly the removed element |
| Collections.RemoveAtDistinct | schemas/schema.js:187 | removing from distinct keys keeps them distinct and the removed key is gone |
| Collections.IndexOfAppendOther | schemas/schema.js:137 | appending a different key does not change where a key is first found |
| Catalog.GetProduct | schemas/schema.js:122 | null exactly when no product has the id; otherwise the first product with that id |
| Catalog.CreateProduct | schemas/schema.js:141-145 | the new product gets String(length + 1) and the input's fields (an omitted description reads as null) and is appended; nothing else changes |
| Catalog.UpdateProduct | schemas/schema.js:147-154 | absent id: null, no change; else only the first product with that id is replaced: id kept, name and price overwritten, description overwritten only when given; length and every other position unchanged |
| Catalog.DeleteProduct | schemas/schema.js:156-163 | absent id: null, no change; else the first product with that id is removed, the rest keep their order, the length drops by one and the id is returned |
| Catalog.CreateVariant | schemas/schema.js:165-173 | null and no change exactly when no product has the id; else a variant with id String(length + 1), the input's fields and no product link is appended |
| Catalog.UpdateVariant | schemas/schema.js:175-182 | absent id: null, no change; else only the first variant with that id is merged: color, size and stock overwritten, variant id and product link kept, so every variant's match key is unchanged |
| Catalog.DeleteVariant | schemas/schema.js:184-191 | absent id: null, no change; else the first variant with that id is removed and the id returned |
| Catalog.CreateProductThenGet | schemas/schema.js:122-144 | if no product holds the new id, getProduct of the returned id yields the new product |
| Catalog.UpdateProductThenGet | schemas/schema.js:147-154 | after an update, getProduct of the id returns what the update returned (null included) |
| Catalog.UpdateProductIdempotent | schemas/schema.js:150 | updating twice with the same input equals updating once |
| Catalog.DeleteProductHides | schemas/schema.js:156-163 | with distinct product ids, after a delete the id is not found and a second delete returns null |
| Catalog.DeleteVariantHides | schemas/schema.js:184-191 | with distinct variant ids, a second delete of the same id returns null |
| Accounts.GetCustomer | schemas/schema.js:123 | null exactly when no customer entry has the id (seller entries never match); otherwise the first such customer |
| Accounts.GetSeller | schemas/schema.js:124 | null exactly when no entry of sellers has the id; otherwise the first one |
| Accounts.AddCustomer | schemas/schema.js:129-133 | the new customer gets String(customers.length + 1) and the input's fields and is appended to customers |
| Accounts.AddSeller | schemas/schema.js:135-139 | the seller's id comes from sellers.length, but the record is appended to customers and sellers is unchanged |
| Accounts.AddCustomerThenGet | schemas/schema.js:123-132 | if no customer holds the new id, getCustomer of the returned id yields the new customer |
| Accounts.AddSellerInvisible | schemas/schema.js:123-137 | after addSeller, getSeller and getCustomer answer every id exactly as before |
| Accounts.AddSellerShiftsCustomerIds | schemas/schema.js:130-137 | a seller added before a customer raises that customer's id by one |
| Inventory.FirstMatch | schemas/schema.js:209 | the first variant whose product id and variant id both equal the line's, absent exactly when none does |
| Inventory.AdjustOne | schemas/schema.js:209-212 | only the first matching variant's stock moves, by the line's quantity in the given direction; nothing else about any variant changes |
| Inventory.AdjustLines | schemas/schema.js:208-213 | applying all lines changes no variant field but stock and keeps every match key |
| Inventory.AdjustLinesNet | schemas/schema.js:208-213 | each variant's stock moves by exactly the total quantity of the lines whose first match it is |
| Inventory.WithdrawThenRestore | schemas/schema.js:208-232 | taking the lines' quantities and then giving them back restores every variant exactly |
| Inventory.RestockMirrorsWithdraw | schemas/schema.js:227-232 | cancellation gives back to each variant what creation took, whatever stock changes happened in between, as long as match keys did not change |
| Inventory.UnmatchedLinesLeaveStock | schemas/schema.js:209-212 | lines that match no variant leave all variants unchanged |
| Orders.GetOrder | schemas/schema.js:125 | null exactly when no order has the id; otherwise the first such order |
| Orders.CreateOrder | schemas/schema.js:193-219 | unknown customer: null and no change at all; else one order is appended with id String(orders.length + 1), the given date, the customer found and the lines in order, each variant loses the quantity routed to it, and no other record or field changes; match keys never change |
| Orders.CancelOrder | schemas/schema.js:221-237 | unknown id: null, no change; else the first order with that id is removed, each variant gets back the quantity that order's lines route to it, and the id is returned; match keys never change |
| Orders.CreateOrderThenGet | schemas/schema.js:125-216 | with a known customer and a new order id not already live, getOrder of the returned id yields the new order |
| Orders.CreateThenCancelRestores | schemas/schema.js:193-237 | with a known customer and a new order id not already live, createOrder followed by cancelOrder of the returned id restores the whole store, stock included |
| Orders.CreateOrderUnmatchedLines | schemas/schema.js:200-213 | lines that match no variant are kept in the order and move no stock |
| Orders.CancelOrderHides | schemas/schema.js:221-237 | with distinct order ids, a cancelled order is not found and cannot be cancelled again |
| History.OnlyAccountResolversTouchCustomers | schemas/schema.js:129-139 | only addCustomer and addSeller change customers |
| History.NoResolverTouchesSellers | schemas/schema.js:135-139 | no resolver changes sellers, addSeller included |
| History.OnlyProductResolversTouchProducts | schemas/schema.js:141-163 | only createProduct, updateProduct and deleteProduct change products |
| History.OnlyOrderResolversTouchOrders | schemas/schema.js:193-237 | only createOrder and cancelOrder change orders |
| History.VariantKeysKept | schemas/schema.js:175-232 | apart from createVariant and deleteVariant, no resolver changes which variants exist or what they match on |
| History.ApplyKeepsUnlinked | schemas/schema.js:165-191 | no resolver gives a variant a product link |
| History.ApplyKeepsCustomerIds | schemas/schema.js:129-139 | every resolver keeps each customer's id equal to String(position + 1) |
| History.PositionalAppend | schemas/schema.js:197 | appending the next allocated id keeps the ids String(1), String(2), … |
| History.CreateOrderKeepsOrderIds | schemas/schema.js:196-215 | createOrder keeps the k-th order's id equal to String(k) |
| History.ApplyKeepsInvariant | schemas/schema.js:129-237 | every resolver keeps three facts: no variant has a product link, sellers is empty, and each customer's id is String(position + 1) |
| History.RunKeepsInvariant | schemas/schema.js:116-238 | any sequence of resolver calls keeps those facts |
| History.EveryRunKeepsInvariant | schemas/schema.js:109-113 | every store reached from the empty arrays satisfies them |
| History.OrdersNeverMoveStock | schemas/schema.js:165-232 | in any reachable store, createOrder and cancelOrder leave every variant unchanged |
| History.SellersInvisible | schemas/schema.js:124-137 | in any reachable store, getSeller finds nothing and every seller added gets id "1" |
| History.CustomerIdsUnique | schemas/schema.js:123-137 | in any reachable store customer ids are pairwise distinct and a customer just added is found under its id |
| History.PositionalDistinct | schemas/schema.js:142 | ids String(1), String(2), … in order are pairwise distinct and exclude the next one allocated |
| History.ApplyKeepsProductIds | schemas/schema.js:141-154 | any call but deleteProduct keeps the k-th product's id equal to String(k) |
| History.ApplyKeepsVariantIds | schemas/schema.js:165-182 | any call but deleteVariant keeps the k-th variant's id equal to String(k) |
| History.ApplyKeepsOrderIds | schemas/schema.js:193-219 | any call but cancelOrder keeps the k-th order's id equal to String(k) |
| History.RunKeepsPositional | schemas/schema.js:130-197 | a history without deletes of a collection keeps that collection's ids positional |
| History.ProductIdsWithoutDeletes | schemas/schema.js:122-145 | in a history with no product deletion, product k has id String(k), ids are distinct, and a product created next is found by getProduct |
| History.VariantIdsWithoutDeletes | schemas/schema.js:165-173 | in a history with no variant deletion, variant ids are String(1), String(2), … and distinct |
| History.OrderIdsWithoutCancels | schemas/schema.js:193-237 | in a history with no cancellation, order ids are positional and distinct, a new order is found by getOrder, and create-then-cancel restores the store |
| Scenarios.VariantIdReusedAfterDelete | schemas/schema.js:168-187 | variants "1", "2", delete "1", create: the new variant gets "2" while the old "2" is live |
| Scenarios.OrderIdReusedAfterCancel | schemas/schema.js:197-224 | orders "1", "2", cancel "1", create: the new order gets "2", and cancelling "2" then removes the older order |
| Scenarios.StockUnchangedAsWritten | schemas/schema.js:165-232 | product, variant with stock 10, customer, order of 3: stock stays 10 through creation and cancellation, and the order is gone after cancellation |
| Corrections.AddSellerIntended | schemas/schema.js:135-139 | the seller is appended to sellers with id String(sellers.length + 1); customers is unchanged |
| Corrections.AddSellerIntendedThenGet | schemas/schema.js:124 | a seller added that way is found by getSeller, and customer lookups are unaffected |
| Corrections.CreateVariantLinked | schemas/schema.js:165-173 | like createVariant, but the variant records the product it was created under |
| Corrections.LinkedVariantAnswersOrders | schemas/schema.js:193-232 | such a variant loses exactly the ordered quantity on createOrder and gets it back on cancelOrder |
| Corrections.CreateVariantCounted | schemas/schema.js:168 | the id comes from a counter that only grows, and creation keeps ids distinct and never equal to a future id |
| Corrections.DeleteVariantCounted | schemas/schema.js:184-191 | deletion with the counter untouched removes the first record with the id and keeps ids distinct and fresh |
| Corrections.CountedIdsStayDistinct | schemas/schema.js:168-187 | the reuse history of VariantIdReusedAfterDelete gives ids "1", "2", "3" with the counter, and the live ids stay distinct |

## Left out

- The HTTP server, the GraphQL endpoint and the GraphiQL switch in app.js: transport, no store logic.
- The schema text, `buildSchema` and the `Date`/`JSON` scalar resolvers (schemas/schema.js:1-106, 117-118): library calls and type declarations.
- GraphQL input coercion and validation: inputs are taken as well-typed records. Input fields are modelled as unbounded integers and strings.
- The 32-bit range of GraphQL `Int` and JavaScript's double arithmetic: stock is an unbounded `int`. An adjustment that leaves the 32-bit range, which the service would fail to serialise, is not modelled.
- The nested fields `Product.variants` and `Customer.orders` (schemas/schema.js:16, 31): no resolver computes them.
- The clock reading for `orderDate` (schemas/schema.js:198): it is a parameter of `Orders.CreateOrder`.
- Object aliasing of the customer embedded in an order (schemas/schema.js:199): no resolver changes a customer, so a value copy behaves the same.
- A `getVariant` query: the source has none.
- Catalog.DeleteVariantHides: states only that a second delete returns null, because there is no variant getter to state invisibility with.
- Corrections.CreateVariantCounted: models only the id counter on a variant table. It does not look up the product, because that check is unchanged from `Catalog.CreateVariant`.

## Findings

| source | as written | input that shows it | evidently intended | confidence | as-written member | corrected member |
|---|---|---|---|---|---|---|
| schemas/schema.js:135-139 | `addSeller` pushes the new seller onto `customers`, and its id comes from `sellers.length`, which never grows | `addSeller` twice, then `getSeller("1")`: both sellers got id "1" and the lookup returns null | push onto `sellers`, so `getSeller` finds the seller under a fresh id | high, not executed | Accounts.AddSellerInvisible | Corrections.AddSellerIntendedThenGet |
| schemas/schema.js:165-173 | `createVariant` stores no `productId`, so the match at line 209/228 never succeeds for a variant it made | product "1", variant "1" with stock 10, customer "1", order of 3 of ("1", "1"): stock stays 10 | the variant records its product, so the order takes 3 (stock 7) and cancellation returns it (stock 10) | high, not executed | Scenarios.StockUnchangedAsWritten | Corrections.LinkedVariantAnswersOrders |
| schemas/schema.js:168 | a new id is `String(variants.length + 1)`, so after a delete it can equal a live id | create variants "1" and "2", delete "1", create: the new variant is "2" too | ids from a counter that never goes back, so live ids stay distinct | medium, not executed | Scenarios.VariantIdReusedAfterDelete | Corrections.CreateVariantCounted |

The facade modules (`Catalog`, `Accounts`, `Orders`, `History`) model the
code as written. The corrected members live in `Corrections` and are
proved on their own.
