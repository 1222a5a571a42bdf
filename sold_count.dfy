/** The listener that, once an order is paid, recomputes the sold count of every
    product in it from all paid order items. */
module SoldCount {
  import opened Shop

  /** The units of product `p` on the lines of `items`. */
  function UnitsOf(items: seq<OrderItem>, p: nat): nat
    decreases |items|
  {
    if items == [] then 0
    else UnitsOf(items[..|items| - 1], p) + (if items[|items| - 1].productId == p then items[|items| - 1].amount else 0)
  }

  /** The sum of `amount` over every order item of product `p` whose order has
      `paid_at` set: the value of the listener's SUM query. */
  function PaidUnits(orders: seq<Order>, p: nat): nat
    decreases |orders|
  {
    if orders == [] then 0
    else
      var last := orders[|orders| - 1];
      PaidUnits(orders[..|orders| - 1], p) + (if last.paidAt.Some? then UnitsOf(last.items, p) else 0)
  }

  /** Items of an unpaid order count for nothing: whatever an unpaid order
      holds, the sold count is the same. */
  lemma {:induction false} UnpaidOrderCountsNothing(orders: seq<Order>, k: nat, o: Order, p: nat)
    requires k < |orders| && orders[k].paidAt.None? && o.paidAt.None?
    ensures PaidUnits(orders[k := o], p) == PaidUnits(orders, p)
    decreases |orders|
  {
    var n := |orders| - 1;
    var changed := orders[k := o];
    if k < n {
      assert changed[..n] == orders[..n][k := o];
      UnpaidOrderCountsNothing(orders[..n], k, o, p);
    } else {
      assert changed[..n] == orders[..n];
    }
  }

  /** Paying order `k` raises the recomputed count by exactly that order's units
      of the product: recomputing agrees with counting incrementally. */
  lemma {:induction false} PayingAddsItsUnits(orders: seq<Order>, k: nat, paidAt: int, p: nat)
    requires k < |orders| && orders[k].paidAt.None?
    ensures PaidUnits(orders[k := orders[k].(paidAt := Some(paidAt))], p) == PaidUnits(orders, p) + UnitsOf(orders[k].items, p)
    decreases |orders|
  {
    var n := |orders| - 1;
    var changed := orders[k := orders[k].(paidAt := Some(paidAt))];
    if k < n {
      assert changed[..n] == orders[..n][k := orders[k].(paidAt := Some(paidAt))];
      PayingAddsItsUnits(orders[..n], k, paidAt, p);
    } else {
      assert changed[..n] == orders[..n];
    }
  }

  predicate HasProduct(items: seq<OrderItem>, p: nat) {
    exists k :: 0 <= k < |items| && items[k].productId == p
  }

  /** `UpdateProductSoldCount::handle` for the order with id `id`: every product
      on one of its lines gets `sold_count` recomputed from all paid items; no
      other product changes. Nothing but `sold_count` is written, and the new
      value depends only on the orders, so a second run writes the same values. */
  method Handle(db: Database, id: nat)
    requires db.Valid() && id < |db.orders|
    modifies db`products
    ensures db.Valid() && |db.products| == |old(db.products)|
    ensures forall p :: 0 <= p < |db.products| && HasProduct(db.orders[id].items, p) ==>
      db.products[p] == old(db.products[p]).(soldCount := PaidUnits(db.orders, p))
    ensures forall p :: 0 <= p < |db.products| && !HasProduct(db.orders[id].items, p) ==>
      db.products[p] == old(db.products[p])
  {
    var items := db.orders[id].items;
    assert OrderLinks(db.orders[id], |db.products|, |db.skus|, |db.coupons|);
    for i := 0 to |items|
      invariant db.Valid() && |db.products| == |old(db.products)|
      invariant forall p :: 0 <= p < |db.products| && HasProduct(items[..i], p) ==>
        db.products[p] == old(db.products[p]).(soldCount := PaidUnits(db.orders, p))
      invariant forall p :: 0 <= p < |db.products| && !HasProduct(items[..i], p) ==>
        db.products[p] == old(db.products[p])
    {
      var p := items[i].productId;
      var soldCount := PaidUnits(db.orders, p);
      db.products := db.products[p := db.products[p].(soldCount := soldCount)];
      forall q | 0 <= q < |db.products|
        ensures HasProduct(items[..i + 1], q) <==> HasProduct(items[..i], q) || q == p
      {
        if HasProduct(items[..i + 1], q) && q != p {
          var k :| 0 <= k < i + 1 && items[..i + 1][k].productId == q;
          assert items[..i][k].productId == q;
        }
        if HasProduct(items[..i], q) {
          var k :| 0 <= k < i && items[..i][k].productId == q;
          assert items[..i + 1][k].productId == q;
        }
        if q == p {
          assert items[..i + 1][i].productId == q;
        }
      }
    }
    assert items[..|items|] == items;
  }

  /** Running the listener twice leaves the same products as running it once. */
  method HandleTwice(db: Database, id: nat)
    requires db.Valid() && id < |db.orders|
    modifies db`products
    ensures db.Valid() && |db.products| == |old(db.products)|
    ensures forall p :: 0 <= p < |db.products| && HasProduct(db.orders[id].items, p) ==>
      db.products[p] == old(db.products[p]).(soldCount := PaidUnits(db.orders, p))
    ensures forall p :: 0 <= p < |db.products| && !HasProduct(db.orders[id].items, p) ==>
      db.products[p] == old(db.products[p])
  {
    Handle(db, id);
    Handle(db, id);
  }
}
