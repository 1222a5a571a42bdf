/** The delayed job that closes an order left unpaid and gives back the stock
    and the coupon use it reserved. */
module CloseOrderJob {
  import opened Shop
  import CouponRules

  /** How many units the lines of `items` took from SKU `s`. */
  function ReservedFrom(items: seq<OrderItem>, s: nat): nat
    decreases |items|
  {
    if items == [] then 0
    else ReservedFrom(items[..|items| - 1], s) + (if items[|items| - 1].skuId == s then items[|items| - 1].amount else 0)
  }

  /** A SKU no line takes from gets nothing back. */
  lemma {:induction false} ReservedFromOtherSku(items: seq<OrderItem>, s: nat)
    requires forall k :: 0 <= k < |items| ==> items[k].skuId != s
    ensures ReservedFrom(items, s) == 0
    decreases |items|
  {
    if items != [] {
      ReservedFromOtherSku(items[..|items| - 1], s);
    }
  }

  /** Lines that share a SKU add up: the SKU gets back the sum of their amounts. */
  lemma {:induction false} ReservedFromAppend(items: seq<OrderItem>, more: seq<OrderItem>, s: nat)
    ensures ReservedFrom(items + more, s) == ReservedFrom(items, s) + ReservedFrom(more, s)
    decreases |more|
  {
    if more == [] {
      assert items + more == items;
    } else {
      var init := more[..|more| - 1];
      assert (items + more)[..|items + more| - 1] == items + init;
      ReservedFromAppend(items, init, s);
    }
  }

  /** `CloseOrder::handle`. A paid order is left alone. Otherwise the order is
      marked closed, every line's amount goes back to its SKU's stock, and the
      coupon the order used loses one use. Nothing checks `closed`: a second run
      on an unpaid order gives the stock back again. The result tells whether
      the order was closed. */
  method Handle(db: Database, id: nat) returns (closed: bool)
    requires db.Valid() && id < |db.orders|
    modifies db`orders, db`skus, db`coupons
    ensures db.Valid()
    ensures closed <==> old(db.orders[id].paidAt).None?
    ensures !closed ==> db.orders == old(db.orders) && db.skus == old(db.skus) && db.coupons == old(db.coupons)
    ensures closed ==> db.orders == old(db.orders)[id := old(db.orders[id]).(closed := true)]
    ensures closed ==> |db.skus| == |old(db.skus)|
    ensures closed ==> forall s :: 0 <= s < |db.skus| ==>
      db.skus[s] == old(db.skus[s]).(stock := old(db.skus[s]).stock + ReservedFrom(old(db.orders[id]).items, s))
    ensures closed && old(db.orders[id]).couponId.Some? ==>
      var c := old(db.orders[id]).couponId.value;
      db.coupons == old(db.coupons)[c := old(db.coupons[c]).(used := old(db.coupons[c]).used - 1)]
    ensures closed && old(db.orders[id]).couponId.None? ==> db.coupons == old(db.coupons)
  {
    var order := db.orders[id];
    if order.paidAt.Some? {
      return false;
    }
    db.orders := db.orders[id := order.(closed := true)];
    var items := order.items;
    assert OrderLinks(order, |db.products|, |db.skus|, |db.coupons|);
    var i := 0;
    while i < |items|
      invariant 0 <= i <= |items|
      invariant db.Valid()
      invariant db.orders == old(db.orders)[id := order.(closed := true)]
      invariant db.coupons == old(db.coupons) && db.products == old(db.products)
      invariant |db.skus| == |old(db.skus)|
      invariant forall s :: 0 <= s < |db.skus| ==>
        db.skus[s] == old(db.skus[s]).(stock := old(db.skus[s]).stock + ReservedFrom(items[..i], s))
    {
      var item := items[i];
      db.AddStock(item.skuId, item.amount);
      assert items[..i + 1][..i] == items[..i];
      i := i + 1;
    }
    assert items[..i] == items;
    if order.couponId.Some? {
      var affected := CouponRules.ChangeUsed(db, order.couponId.value, false);
    }
    return true;
  }

  /** Running the job twice on an unpaid order gives every line's stock back
      twice: the job is not idempotent. */
  method HandleTwice(db: Database, id: nat)
    requires db.Valid() && id < |db.orders| && db.orders[id].paidAt.None?
    modifies db`orders, db`skus, db`coupons
    ensures db.Valid() && |db.skus| == |old(db.skus)|
    ensures forall s :: 0 <= s < |db.skus| ==>
      db.skus[s].stock == old(db.skus[s]).stock + 2 * ReservedFrom(old(db.orders[id]).items, s)
  {
    var first := Handle(db, id);
    var second := Handle(db, id);
  }
}
