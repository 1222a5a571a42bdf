/** The user's order actions: placing an order with a coupon code, confirming
    receipt, reviewing, and applying for a refund. */
module UserOrders {
  import opened Shop

  datatype Error =
    | CouponNotFound
    | IncorrectShipStatus
    | NotPaid
    | AlreadyReviewed
    | ItemNotInOrder(itemId: nat)
    | RefundAlreadyApplied

  /** The first coupon, in id order, whose code is `code`. */
  function FindCoupon(coupons: seq<Coupon>, code: string, from: nat): (r: Option<nat>)
    requires from <= |coupons|
    ensures r.Some? ==> from <= r.value < |coupons| && coupons[r.value].code == code
    ensures r.Some? ==> forall c :: from <= c < r.value ==> coupons[c].code != code
    ensures r.None? ==> forall c :: from <= c < |coupons| ==> coupons[c].code != code
    decreases |coupons| - from
  {
    if from == |coupons| then None
    else if coupons[from].code == code then Some(from)
    else FindCoupon(coupons, code, from + 1)
  }

  /** The coupon guard of `store`: with no code (an empty or "0" input) the order
      goes to the order service without a coupon; a code no coupon has is
      refused before the order service is called. The order service itself, which
      checks and redeems the coupon and reserves the stock, is not part of this
      model. */
  function StoreCoupon(coupons: seq<Coupon>, code: string): (r: Result<Option<nat>, Error>)
    ensures r == Ok(None) <==> !Truthy(code)
    ensures r == Err(CouponNotFound) <==> Truthy(code) && forall c :: 0 <= c < |coupons| ==> coupons[c].code != code
    ensures r.Ok? && r.value.Some? ==>
      r.value.value < |coupons| && coupons[r.value.value].code == code
      && forall c :: 0 <= c < r.value.value ==> coupons[c].code != code
  {
    if !Truthy(code) then Ok(None)
    else match FindCoupon(coupons, code, 0)
      case None => Err(CouponNotFound)
      case Some(c) => Ok(Some(c))
  }

  /** `received`: only a delivered order, which becomes received. */
  method Received(db: Database, id: nat) returns (r: Outcome<Error>)
    requires db.Valid() && id < |db.orders|
    modifies db`orders
    ensures db.Valid()
    ensures r.Pass? <==> old(db.orders[id]).shipStatus == Delivered
    ensures r.Fail? ==> r.error == IncorrectShipStatus && db.orders == old(db.orders)
    ensures r.Pass? ==> db.orders == old(db.orders)[id := old(db.orders[id]).(shipStatus := ShipStatus.Received)]
    ensures r.Pass? ==> ShipStep(old(db.orders[id]).shipStatus, db.orders[id].shipStatus)
  {
    var order := db.orders[id];
    if order.shipStatus != Delivered {
      return Fail(IncorrectShipStatus);
    }
    db.orders := db.orders[id := order.(shipStatus := ShipStatus.Received)];
    return Pass;
  }

  /** The guard `review` and `sendReview` share: an unpaid order cannot be reviewed. */
  function ReviewGuard(o: Order): (r: Outcome<Error>)
    ensures r.Pass? <==> o.paidAt.Some?
    ensures r.Fail? ==> r.error == NotPaid
  {
    if o.paidAt.None? then Fail(NotPaid) else Pass
  }

  /** One entry of the submitted `reviews`. */
  datatype ReviewInput = ReviewInput(id: nat, rating: int, review: string)

  /** The last entry of `reviews` that names item `itemId`: later entries
      overwrite earlier ones. */
  function LastReviewFor(reviews: seq<ReviewInput>, itemId: nat): (r: Option<ReviewInput>)
    ensures r.Some? ==> r.value in reviews && r.value.id == itemId
    decreases |reviews|
  {
    if reviews == [] then None
    else if reviews[|reviews| - 1].id == itemId then Some(reviews[|reviews| - 1])
    else LastReviewFor(reviews[..|reviews| - 1], itemId)
  }

  /** The entry found is the last one naming the item: no later entry names it,
      because entries are applied in order and the last write stays. */
  lemma {:induction false} LastReviewForIsLast(reviews: seq<ReviewInput>, itemId: nat)
    requires LastReviewFor(reviews, itemId).Some?
    ensures exists k :: 0 <= k < |reviews| && reviews[k] == LastReviewFor(reviews, itemId).value
                        && forall j :: k < j < |reviews| ==> reviews[j].id != itemId
    decreases |reviews|
  {
    var last := |reviews| - 1;
    if reviews[last].id == itemId {
      assert reviews[last] == LastReviewFor(reviews, itemId).value;
    } else {
      var init := reviews[..last];
      LastReviewForIsLast(init, itemId);
      var k :| 0 <= k < |init| && init[k] == LastReviewFor(init, itemId).value
               && forall j :: k < j < |init| ==> init[j].id != itemId;
      assert reviews[k] == LastReviewFor(reviews, itemId).value;
    }
  }

  /** An item is reviewed exactly when some entry names it. */
  lemma {:induction false} LastReviewForNamed(reviews: seq<ReviewInput>, itemId: nat)
    ensures LastReviewFor(reviews, itemId).Some? <==> exists k :: 0 <= k < |reviews| && reviews[k].id == itemId
    decreases |reviews|
  {
    if reviews != [] {
      var init := reviews[..|reviews| - 1];
      LastReviewForNamed(init, itemId);
      if exists k :: 0 <= k < |reviews| && reviews[k].id == itemId {
        var k :| 0 <= k < |reviews| && reviews[k].id == itemId;
        if k < |reviews| - 1 {
          assert init[k].id == itemId;
        }
      }
      if exists k :: 0 <= k < |init| && init[k].id == itemId {
        var k :| 0 <= k < |init| && init[k].id == itemId;
        assert reviews[k].id == itemId;
      }
    }
  }

  /** Item `item` after the reviews: rating, text and time come from the last
      entry naming it; an item no entry names is unchanged. */
  function Reviewed(item: OrderItem, reviews: seq<ReviewInput>, now: int): OrderItem {
    match LastReviewFor(reviews, item.id)
    case None => item
    case Some(rv) => item.(rating := Some(rv.rating), review := Some(rv.review), reviewedAt := Some(now))
  }

  predicate NamesItemOf(o: Order, itemId: nat) {
    exists k :: 0 <= k < |o.items| && o.items[k].id == itemId
  }

  /** `sendReview`: only a paid order not yet reviewed. Inside one transaction
      each entry updates the order's item it names; an entry naming no item of
      this order throws and rolls the whole submission back. On success the
      order is marked reviewed. `now` is the clock. */
  method SendReview(db: Database, id: nat, reviews: seq<ReviewInput>, now: int) returns (r: Outcome<Error>)
    requires db.Valid() && id < |db.orders|
    modifies db`orders
    ensures db.Valid()
    ensures old(db.orders[id]).paidAt.None? ==> r == Fail(NotPaid)
    ensures old(db.orders[id]).paidAt.Some? && old(db.orders[id]).reviewed ==> r == Fail(AlreadyReviewed)
    ensures r.Pass? <==> old(db.orders[id]).paidAt.Some? && !old(db.orders[id]).reviewed
                         && forall k :: 0 <= k < |reviews| ==> NamesItemOf(old(db.orders[id]), reviews[k].id)
    ensures r.Fail? ==> db.orders == old(db.orders)
    ensures r.Pass? ==> |db.orders| == |old(db.orders)| && forall j :: 0 <= j < |db.orders| && j != id ==> db.orders[j] == old(db.orders[j])
    ensures r.Pass? ==> db.orders[id].reviewed && |db.orders[id].items| == |old(db.orders[id]).items|
    ensures r.Pass? ==> db.orders[id] == old(db.orders[id]).(reviewed := true, items := db.orders[id].items)
    ensures r.Pass? ==> forall k :: 0 <= k < |db.orders[id].items| ==>
      db.orders[id].items[k] == Reviewed(old(db.orders[id]).items[k], reviews, now)
  {
    var order := db.orders[id];
    r := ReviewGuard(order);
    if r.Fail? {
      return;
    }
    if order.reviewed {
      return Fail(AlreadyReviewed);
    }
    assert OrderInvariant(order);
    var items := order.items;
    var i := 0;
    while i < |reviews|
      invariant 0 <= i <= |reviews|
      invariant |items| == |order.items|
      invariant forall k :: 0 <= k < |items| ==> items[k] == Reviewed(order.items[k], reviews[..i], now)
      invariant forall k :: 0 <= k < i ==> NamesItemOf(order, reviews[k].id)
    {
      var rv := reviews[i];
      var k := 0;
      while k < |items| && items[k].id != rv.id
        invariant 0 <= k <= |items|
        invariant forall m :: 0 <= m < k ==> items[m].id != rv.id
      {
        k := k + 1;
      }
      assert reviews[..i + 1][..i] == reviews[..i];
      if k == |items| {
        assert !NamesItemOf(order, rv.id);
        return Fail(ItemNotInOrder(rv.id));
      }
      items := items[k := items[k].(rating := Some(rv.rating), review := Some(rv.review), reviewedAt := Some(now))];
      i := i + 1;
    }
    assert reviews[..i] == reviews;
    db.orders := db.orders[id := order.(reviewed := true, items := items)];
    return Pass;
  }

  /** `applyRefund`: only a paid order whose refund is still PENDING; it becomes
      APPLIED and the user's reason is kept in `extra` beside the other keys. */
  method ApplyRefund(db: Database, id: nat, reason: string) returns (r: Outcome<Error>)
    requires db.Valid() && id < |db.orders|
    modifies db`orders
    ensures db.Valid()
    ensures old(db.orders[id]).paidAt.None? ==> r == Fail(NotPaid)
    ensures old(db.orders[id]).paidAt.Some? && old(db.orders[id]).refundStatus != RefundPending ==> r == Fail(RefundAlreadyApplied)
    ensures r.Pass? <==> old(db.orders[id]).paidAt.Some? && old(db.orders[id]).refundStatus == RefundPending
    ensures r.Fail? ==> db.orders == old(db.orders)
    ensures r.Pass? ==> db.orders == old(db.orders)[id := old(db.orders[id]).(
      refundStatus := Applied, extra := old(db.orders[id]).extra[RefundReasonKey := reason])]
    ensures r.Pass? ==> RefundStep(old(db.orders[id]).refundStatus, db.orders[id].refundStatus)
  {
    var order := db.orders[id];
    if order.paidAt.None? {
      return Fail(NotPaid);
    }
    if order.refundStatus != RefundPending {
      return Fail(RefundAlreadyApplied);
    }
    db.orders := db.orders[id := order.(refundStatus := Applied, extra := order.extra[RefundReasonKey := reason])];
    return Pass;
  }
}
