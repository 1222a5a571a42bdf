/** The administrator's order actions: shipping, and deciding on a refund the
    user applied for, with the payment provider's refund call. */
module AdminOrders {
  import opened Shop

  datatype Error =
    | NotPaid
    | AlreadyShipped
    | InvalidShipData
    | WrongRefundStatus
    | UnknownPaymentMethod(paymentMethod: string)

  /** The refund request handed to the payment provider. Amounts are in cents
      (Alipay is sent the same amount in yuan, WeChat Pay in fen). */
  datatype RefundRequest =
    | WechatRefund(outTradeNo: string, totalFee: int, refundFee: int, outRefundNo: string)
    | AlipayRefund(outTradeNo: string, refundAmount: int, outRequestNo: string)

  /** `ship`: only a paid order that has not been shipped, and only with both
      the express company and the tracking number filled in. */
  method Ship(db: Database, id: nat, data: ShipData) returns (r: Outcome<Error>)
    requires db.Valid() && id < |db.orders|
    modifies db`orders
    ensures db.Valid()
    ensures old(db.orders[id]).paidAt.None? ==> r == Fail(NotPaid)
    ensures old(db.orders[id]).paidAt.Some? && old(db.orders[id]).shipStatus != ShipPending ==> r == Fail(AlreadyShipped)
    ensures (old(db.orders[id]).paidAt.Some? && old(db.orders[id]).shipStatus == ShipPending
             && (Blank(data.expressCompany) || Blank(data.expressNo))) ==> r == Fail(InvalidShipData)
    ensures r.Pass? <==> old(db.orders[id]).paidAt.Some? && old(db.orders[id]).shipStatus == ShipPending
                         && !Blank(data.expressCompany) && !Blank(data.expressNo)
    ensures r.Pass? ==> db.orders == old(db.orders)[id := old(db.orders[id]).(shipStatus := Delivered, shipData := Some(data))]
    ensures r.Pass? ==> ShipStep(old(db.orders[id]).shipStatus, db.orders[id].shipStatus)
    ensures r.Fail? ==> db.orders == old(db.orders)
  {
    var order := db.orders[id];
    if order.paidAt.None? {
      return Fail(NotPaid);
    }
    if order.shipStatus != ShipPending {
      return Fail(AlreadyShipped);
    }
    if Blank(data.expressCompany) || Blank(data.expressNo) {
      return Fail(InvalidShipData);
    }
    db.orders := db.orders[id := order.(shipStatus := Delivered, shipData := Some(data))];
    return Pass;
  }

  /** `handleRefund`: only an order whose refund is APPLIED. A rejection puts the
      refund back to PENDING with the administrator's reason in `extra`. An
      approval first drops any earlier rejection reason (this write stays even
      when the refund then fails on an unknown payment method) and then refunds
      through the provider. `refundNo` is the fresh number
      `Order::getAvailableRefundNo` would return; `subCode` is Alipay's answer. */
  method HandleRefund(db: Database, id: nat, agree: bool, reason: string, refundNo: string, subCode: Option<string>)
    returns (r: Outcome<Error>, request: Option<RefundRequest>)
    requires db.Valid() && id < |db.orders| && FreshRefundNo(db.orders, refundNo)
    modifies db`orders
    ensures db.Valid() && |db.orders| == |old(db.orders)|
    ensures forall j :: 0 <= j < |db.orders| && j != id ==> db.orders[j] == old(db.orders[j])
    ensures RefundStep(old(db.orders[id]).refundStatus, db.orders[id].refundStatus)
            || db.orders[id].refundStatus == old(db.orders[id]).refundStatus
    ensures old(db.orders[id]).refundStatus != Applied ==> r == Fail(WrongRefundStatus) && request.None? && db.orders == old(db.orders)
    ensures old(db.orders[id]).refundStatus == Applied && !agree ==>
      r.Pass? && request.None? &&
      db.orders[id] == old(db.orders[id]).(refundStatus := RefundPending, extra := old(db.orders[id]).extra[RefundDisagreeReasonKey := reason])
    ensures old(db.orders[id]).refundStatus == Applied && agree ==>
      RefundOutcome(old(db.orders[id]).(extra := old(db.orders[id]).extra - {RefundDisagreeReasonKey}), db.orders[id], r, request, refundNo, subCode)
  {
    var order := db.orders[id];
    if order.refundStatus != Applied {
      return Fail(WrongRefundStatus), None;
    }
    if agree {
      var extra := order.extra - {RefundDisagreeReasonKey};
      db.orders := db.orders[id := order.(extra := extra)];
      r, request := RefundOrder(db, id, refundNo, subCode);
    } else {
      var extra := order.extra[RefundDisagreeReasonKey := reason];
      db.orders := db.orders[id := order.(refundStatus := RefundPending, extra := extra)];
      r, request := Pass, None;
    }
  }

  /** What `_refundOrder` turns order `o` into, dispatched on its payment method.
      WeChat Pay: the refund request goes out and the refund is PROCESSING until
      WeChat notifies. Alipay answers at once: a truthy `sub_code` means FAILED
      with the code kept in `extra`, anything else SUCCESS. Both record the
      refund number. Any other method is an internal error and changes nothing. */
  ghost predicate RefundOutcome(o: Order, after: Order, r: Outcome<Error>, request: Option<RefundRequest>,
                                refundNo: string, subCode: Option<string>) {
    if o.paymentMethod == "wechat" then
      && r.Pass?
      && request == Some(WechatRefund(o.no, o.totalAmount, o.totalAmount, refundNo))
      && after == o.(refundNo := Some(refundNo), refundStatus := Processing)
    else if o.paymentMethod == "alipay" then
      && r.Pass?
      && request == Some(AlipayRefund(o.no, o.totalAmount, refundNo))
      && if subCode.Some? && Truthy(subCode.value) then
           after == o.(refundNo := Some(refundNo), refundStatus := Failed, extra := o.extra[RefundFailedCodeKey := subCode.value])
         else
           after == o.(refundNo := Some(refundNo), refundStatus := Success)
    else
      && r == Fail(UnknownPaymentMethod(o.paymentMethod))
      && request.None?
      && after == o
  }

  /** `_refundOrder`, called on an order whose refund is APPLIED. */
  method RefundOrder(db: Database, id: nat, refundNo: string, subCode: Option<string>)
    returns (r: Outcome<Error>, request: Option<RefundRequest>)
    requires db.Valid() && id < |db.orders| && FreshRefundNo(db.orders, refundNo)
    requires db.orders[id].refundStatus == Applied
    modifies db`orders
    ensures db.Valid() && |db.orders| == |old(db.orders)|
    ensures forall j :: 0 <= j < |db.orders| && j != id ==> db.orders[j] == old(db.orders[j])
    ensures RefundOutcome(old(db.orders[id]), db.orders[id], r, request, refundNo, subCode)
  {
    var order := db.orders[id];
    assert OrderInvariant(order);
    match order.paymentMethod {
      case "wechat" =>
        request := Some(WechatRefund(order.no, order.totalAmount, order.totalAmount, refundNo));
        db.orders := db.orders[id := order.(refundNo := Some(refundNo), refundStatus := Processing)];
        r := Pass;
      case "alipay" =>
        request := Some(AlipayRefund(order.no, order.totalAmount, refundNo));
        if subCode.Some? && Truthy(subCode.value) {
          db.orders := db.orders[id := order.(refundNo := Some(refundNo), refundStatus := Failed,
                                              extra := order.extra[RefundFailedCodeKey := subCode.value])];
        } else {
          db.orders := db.orders[id := order.(refundNo := Some(refundNo), refundStatus := Success)];
        }
        r := Pass;
      case _ =>
        r, request := Fail(UnknownPaymentMethod(order.paymentMethod)), None;
    }
  }
}
