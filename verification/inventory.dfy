/** The inventory adjustment `createOrder` and `cancelOrder` share: for each
    order line in turn, the first variant whose `productId` and `variantId`
    both equal the line's has the line's quantity taken from (creation) or
    given back to (cancellation) its `inventory_quantity`. A line that
    matches no variant changes nothing. */
module Inventory {
  import opened Wrappers
  import opened Collections
  import opened Entities

  predicate Matches(v: Variant, l: OrderLine) {
    v.productId == Some(l.productId) && v.variantId == l.variantId
  }

  /** The two variants differ at most in their stock. */
  ghost predicate SameExceptStock(v: Variant, w: Variant) {
    v.(inventoryQuantity := 0) == w.(inventoryQuantity := 0)
  }

  ghost predicate AllSameExceptStock(vs: seq<Variant>, ws: seq<Variant>) {
    |vs| == |ws| && forall i :: 0 <= i < |vs| ==> SameExceptStock(vs[i], ws[i])
  }

  /** The position of the variant a line adjusts, if any. */
  function FirstMatch(vs: seq<Variant>, l: OrderLine): (r: Option<nat>)
    ensures r.Some? ==>
      r.value < |vs| && Matches(vs[r.value], l)
        && forall j :: 0 <= j < r.value ==> !Matches(vs[j], l)
    ensures r.None? <==> forall j :: 0 <= j < |vs| ==> !Matches(vs[j], l)
  {
    var r := IndexOf(VariantKeys(vs), LineKey(l));
    assert forall j :: 0 <= j < |vs| ==> (Matches(vs[j], l) <==> VariantKeys(vs)[j] == LineKey(l));
    r
  }

  /** Which way stock moves: order creation withdraws, cancellation
      restocks. */
  datatype Direction = Withdraw | Restock

  /** The signed change a quantity makes to stock in direction `d`. */
  function Signed(d: Direction, quantity: int): int {
    if d == Restock then quantity else -quantity
  }

  /** One line's adjustment. */
  function AdjustOne(vs: seq<Variant>, l: OrderLine, d: Direction): (r: seq<Variant>)
    ensures AllSameExceptStock(vs, r)
    ensures VariantKeys(r) == VariantKeys(vs)
    ensures forall i :: 0 <= i < |vs| ==>
      r[i].inventoryQuantity
        == vs[i].inventoryQuantity + (if FirstMatch(vs, l) == Some(i) then Signed(d, l.quantity) else 0)
  {
    match FirstMatch(vs, l)
    case None => vs
    case Some(i) => vs[i := vs[i].(inventoryQuantity := vs[i].inventoryQuantity + Signed(d, l.quantity))]
  }

  /** The lines' adjustments applied in order, as `forEach` does. */
  function AdjustLines(vs: seq<Variant>, ls: seq<OrderLine>, d: Direction): (r: seq<Variant>)
    ensures AllSameExceptStock(vs, r)
    ensures VariantKeys(r) == VariantKeys(vs)
    decreases |ls|
  {
    if |ls| == 0 then vs else AdjustLines(AdjustOne(vs, ls[0], d), ls[1..], d)
  }

  /** The total quantity the lines route to position `i`, given only the
      variants' match keys: the sum of the quantities of the lines whose
      first match is `i`. */
  function Demand(keys: seq<(Option<string>, string)>, ls: seq<OrderLine>, i: nat): int
    decreases |ls|
  {
    if |ls| == 0 then 0
    else (if IndexOf(keys, LineKey(ls[0])) == Some(i) then ls[0].quantity else 0) + Demand(keys, ls[1..], i)
  }

  /** Closed form of the adjustment: each variant's stock moves by the total
      quantity the lines route to it, in direction `d`, and nothing else
      about any variant changes. */
  lemma {:induction false} AdjustLinesNet(vs: seq<Variant>, ls: seq<OrderLine>, d: Direction)
    ensures forall i :: 0 <= i < |vs| ==>
      AdjustLines(vs, ls, d)[i].inventoryQuantity
        == vs[i].inventoryQuantity + Signed(d, Demand(VariantKeys(vs), ls, i))
    decreases |ls|
  {
    if |ls| > 0 {
      var once := AdjustOne(vs, ls[0], d);
      AdjustLinesNet(once, ls[1..], d);
      var keys := VariantKeys(vs);
      forall i | 0 <= i < |vs|
        ensures AdjustLines(vs, ls, d)[i].inventoryQuantity
          == vs[i].inventoryQuantity + Signed(d, Demand(keys, ls, i))
      {
        var first := if IndexOf(keys, LineKey(ls[0])) == Some(i) then ls[0].quantity else 0;
        assert once[i].inventoryQuantity == vs[i].inventoryQuantity + Signed(d, first);
        assert Demand(keys, ls, i) == first + Demand(keys, ls[1..], i);
      }
    }
  }

  /** Withdrawing then restocking for the same lines restores every variant
      exactly: what an order's creation takes, its cancellation gives back. */
  lemma WithdrawThenRestore(vs: seq<Variant>, ls: seq<OrderLine>)
    ensures AdjustLines(AdjustLines(vs, ls, Withdraw), ls, Restock) == vs
  {
    var taken := AdjustLines(vs, ls, Withdraw);
    var back := AdjustLines(taken, ls, Restock);
    AdjustLinesNet(vs, ls, Withdraw);
    AdjustLinesNet(taken, ls, Restock);
    forall i | 0 <= i < |vs|
      ensures back[i] == vs[i]
    {
      assert SameExceptStock(vs[i], taken[i]) && SameExceptStock(taken[i], back[i]);
    }
  }

  /** Cancellation gives back exactly what creation took from each variant,
      whatever happened to the stock in between, as long as the variants'
      match keys stayed the same (updates keep them). */
  lemma {:induction false} RestockMirrorsWithdraw(vs: seq<Variant>, ws: seq<Variant>, ls: seq<OrderLine>)
    requires VariantKeys(ws) == VariantKeys(vs)
    ensures forall i :: 0 <= i < |vs| ==>
      AdjustLines(ws, ls, Restock)[i].inventoryQuantity - ws[i].inventoryQuantity
        == vs[i].inventoryQuantity - AdjustLines(vs, ls, Withdraw)[i].inventoryQuantity
  {
    AdjustLinesNet(vs, ls, Withdraw);
    AdjustLinesNet(ws, ls, Restock);
  }

  /** Lines that match no variant leave every variant as it was. */
  lemma {:induction false} UnmatchedLinesLeaveStock(vs: seq<Variant>, ls: seq<OrderLine>, d: Direction)
    requires forall k :: 0 <= k < |ls| ==> FirstMatch(vs, ls[k]).None?
    ensures AdjustLines(vs, ls, d) == vs
    decreases |ls|
  {
    if |ls| > 0 {
      assert FirstMatch(vs, ls[0]).None?;
      assert AdjustOne(vs, ls[0], d) == vs;
      UnmatchedLinesLeaveStock(vs, ls[1..], d);
    }
  }
}
