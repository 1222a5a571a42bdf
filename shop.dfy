/** The shop's records and its database.

    Every table is a sequence whose position is the row id, so `orders[i]` is the
    order with id `i`; an id outside the sequence is a row that does not exist.
    An order owns its line items, which are stored inside it. Money is held in
    integer cents. */
module Shop {

  datatype Option<T> = None | Some(value: T)

  /** The outcome of an operation that either succeeds or throws. */
  datatype Outcome<E> = Pass | Fail(error: E)

  /** A value, or the exception thrown instead of returning it. */
  datatype Result<T, E> = Ok(value: T) | Err(error: E)

  datatype ShipStatus = ShipPending | Delivered | Received

  datatype RefundStatus = RefundPending | Applied | Processing | Success | Failed

  datatype CouponType = Fixed | Percent

  /** The `ship_data` the administrator enters when shipping. */
  datatype ShipData = ShipData(expressCompany: string, expressNo: string)

  datatype OrderItem = OrderItem(
    id: nat,
    productId: nat,
    skuId: nat,
    amount: nat,
    price: int,
    rating: Option<int>,
    review: Option<string>,
    reviewedAt: Option<int>)

  /** An order. `paymentMethod` is the empty string while the order is unpaid;
      `extra` is the free-form JSON object, with an absent object read as empty. */
  datatype Order = Order(
    no: string,
    userId: nat,
    totalAmount: int,
    paidAt: Option<int>,
    paymentMethod: string,
    closed: bool,
    shipStatus: ShipStatus,
    shipData: Option<ShipData>,
    refundStatus: RefundStatus,
    refundNo: Option<string>,
    extra: map<string, string>,
    couponId: Option<nat>,
    reviewed: bool,
    items: seq<OrderItem>)

  datatype Product = Product(
    title: string,
    description: string,
    onSale: bool,
    price: int,
    soldCount: int,
    rating: int)

  datatype Sku = Sku(
    productId: nat,
    title: string,
    description: string,
    price: int,
    stock: nat)

  /** A coupon. `value` is in hundredths: cents for a fixed discount, hundredths
      of a percent for a percent discount. */
  datatype Coupon = Coupon(
    name: string,
    code: string,
    kind: CouponType,
    value: int,
    total: int,
    used: int,
    minAmount: int,
    notBefore: Option<int>,
    notAfter: Option<int>,
    enabled: bool)

  /** Keys of the `extra` object. */
  const RefundReasonKey := "refund_reason"
  const RefundDisagreeReasonKey := "refund_disagree_reason"
  const RefundFailedCodeKey := "refund_failed_code"

  /** PHP's truthiness of a string: the empty string and "0" are false. */
  predicate Truthy(s: string) {
    s != "" && s != "0"
  }

  /** Laravel's `required` on a string: it must not be empty once trimmed. */
  predicate Blank(s: string) {
    forall k :: 0 <= k < |s| ==> s[k] in {' ', '\t', '\n', '\r', '\0', '\U{000B}'}
  }

  /** What the modelled operations keep true of a single order. */
  predicate OrderInvariant(o: Order) {
    && (o.paidAt.None? ==> o.shipStatus == ShipPending && o.refundStatus == RefundPending && !o.reviewed)
    && (o.closed ==> o.paidAt.None?)
    && (o.refundNo.Some? <==> o.refundStatus in {Processing, Success, Failed})
    && (o.refundStatus == Failed ==> RefundFailedCodeKey in o.extra)
    && (forall a, b :: 0 <= a < b < |o.items| ==> o.items[a].id != o.items[b].id)
  }

  /** The refund state machine: the moves the source makes on `refund_status`.
      The user applies (PENDING to APPLIED); the administrator rejects (back to
      PENDING) or agrees, and the provider's answer decides PROCESSING, SUCCESS
      or FAILED. Nothing leaves PROCESSING, SUCCESS or FAILED. */
  predicate RefundStep(from: RefundStatus, to: RefundStatus) {
    || (from == RefundPending && to == Applied)
    || (from == Applied && to in {RefundPending, Processing, Success, Failed})
  }

  /** The shipping state machine moves one step forward at a time. */
  predicate ShipStep(from: ShipStatus, to: ShipStatus) {
    || (from == ShipPending && to == Delivered)
    || (from == Delivered && to == Received)
  }

  /** The foreign keys of an order's rows point at existing rows. */
  predicate OrderLinks(o: Order, products: nat, skus: nat, coupons: nat) {
    && (o.couponId.Some? ==> o.couponId.value < coupons)
    && forall k :: 0 <= k < |o.items| ==> o.items[k].productId < products && o.items[k].skuId < skus
  }

  /** No two orders carry the same refund number. */
  predicate RefundNosUnique(orders: seq<Order>) {
    forall i, j :: 0 <= i < j < |orders| && orders[i].refundNo.Some? ==> orders[i].refundNo != orders[j].refundNo
  }

  /** A refund number no order uses yet. */
  predicate FreshRefundNo(orders: seq<Order>, refundNo: string) {
    forall i :: 0 <= i < |orders| ==> orders[i].refundNo != Some(refundNo)
  }

  /** Every coupon's usage stays within its quota. */
  predicate WithinQuota(coupons: seq<Coupon>) {
    forall c :: 0 <= c < |coupons| ==> coupons[c].used <= coupons[c].total
  }

  class Database {
    var orders: seq<Order>
    var products: seq<Product>
    var skus: seq<Sku>
    var coupons: seq<Coupon>

    ghost predicate Valid()
      reads this
    {
      && (forall i :: 0 <= i < |orders| ==> OrderInvariant(orders[i]))
      && (forall i :: 0 <= i < |orders| ==> OrderLinks(orders[i], |products|, |skus|, |coupons|))
      && (forall s :: 0 <= s < |skus| ==> skus[s].productId < |products|)
      && RefundNosUnique(orders)
      && WithinQuota(coupons)
    }

    /** `ProductSku::addStock`, which is not part of this model: its contract is
        that the SKU's stock rises by `amount`, as one atomic update. */
    method AddStock(s: nat, amount: nat)
      requires Valid() && s < |skus|
      modifies this`skus
      ensures Valid()
      ensures skus == old(skus)[s := old(skus[s]).(stock := old(skus[s].stock) + amount)]
    {
      skus := skus[s := skus[s].(stock := skus[s].stock + amount)];
    }

    constructor ()
      ensures Valid()
      ensures orders == [] && products == [] && skus == [] && coupons == []
    {
      orders, products, skus, coupons := [], [], [], [];
    }
  }
}
