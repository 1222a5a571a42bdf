/** The coupon model: who may use a coupon, what it takes off an order, its
    usage counter, and fresh coupon codes. */
module CouponRules {
  import opened Shop

  /** Why `checkAvailable` refuses a coupon, in the order the checks run. */
  datatype Unavailable = Disabled | Redeemed | NotYetValid | Expired | BelowMinimum | AlreadyUsed

  function Rank(e: Unavailable): nat {
    match e
    case Disabled => 0
    case Redeemed => 1
    case NotYetValid => 2
    case Expired => 3
    case BelowMinimum => 4
    case AlreadyUsed => 5
  }

  /** An order of `userId` that still holds coupon `couponId`: unpaid and not
      closed, or paid and not successfully refunded. */
  predicate HoldsCoupon(o: Order, userId: nat, couponId: nat) {
    && o.userId == userId
    && o.couponId == Some(couponId)
    && ((o.paidAt.None? && !o.closed) || (o.paidAt.Some? && o.refundStatus != Success))
  }

  predicate HasActiveUse(orders: seq<Order>, userId: nat, couponId: nat) {
    exists i :: 0 <= i < |orders| && HoldsCoupon(orders[i], userId, couponId)
  }

  /** The condition on which the check named `e` refuses the coupon; `now` is the
      clock, `orderAmount` the order amount when the caller passes one. */
  predicate Refuses(e: Unavailable, c: Coupon, couponId: nat, userId: nat, orders: seq<Order>,
                    now: int, orderAmount: Option<int>) {
    match e
    case Disabled => !c.enabled
    case Redeemed => c.total - c.used <= 0
    case NotYetValid => c.notBefore.Some? && now < c.notBefore.value
    case Expired => c.notAfter.Some? && c.notAfter.value < now
    case BelowMinimum => orderAmount.Some? && orderAmount.value < c.minAmount
    case AlreadyUsed => HasActiveUse(orders, userId, couponId)
  }

  /** `checkAvailable`: the first check that refuses the coupon, or Pass when
      none does. */
  function CheckAvailable(c: Coupon, couponId: nat, userId: nat, orders: seq<Order>,
                          now: int, orderAmount: Option<int>): (r: Outcome<Unavailable>)
    ensures r.Pass? ==> forall e :: !Refuses(e, c, couponId, userId, orders, now, orderAmount)
    ensures r.Fail? ==> Refuses(r.error, c, couponId, userId, orders, now, orderAmount)
    ensures r.Fail? ==> forall e :: Rank(e) < Rank(r.error) ==> !Refuses(e, c, couponId, userId, orders, now, orderAmount)
  {
    if !c.enabled then Fail(Disabled)
    else if c.total - c.used <= 0 then Fail(Redeemed)
    else if c.notBefore.Some? && c.notBefore.value > now then Fail(NotYetValid)
    else if c.notAfter.Some? && c.notAfter.value < now then Fail(Expired)
    else if orderAmount.Some? && orderAmount.value < c.minAmount then Fail(BelowMinimum)
    else if exists i :: 0 <= i < |orders| && HoldsCoupon(orders[i], userId, couponId) then Fail(AlreadyUsed)
    else Pass
  }

  /** An accepted coupon is enabled, has quota left, is inside its window, meets
      the minimum and is not held by another order of the same user. */
  lemma AcceptedCoupon(c: Coupon, couponId: nat, userId: nat, orders: seq<Order>, now: int, orderAmount: Option<int>)
    requires CheckAvailable(c, couponId, userId, orders, now, orderAmount).Pass?
    ensures c.enabled && c.used < c.total
    ensures c.notBefore.Some? ==> c.notBefore.value <= now
    ensures c.notAfter.Some? ==> now <= c.notAfter.value
    ensures orderAmount.Some? ==> c.minAmount <= orderAmount.value
    ensures forall i :: 0 <= i < |orders| ==> !HoldsCoupon(orders[i], userId, couponId)
  {
    assert !Refuses(Disabled, c, couponId, userId, orders, now, orderAmount);
    assert !Refuses(Redeemed, c, couponId, userId, orders, now, orderAmount);
    assert !Refuses(NotYetValid, c, couponId, userId, orders, now, orderAmount);
    assert !Refuses(Expired, c, couponId, userId, orders, now, orderAmount);
    assert !Refuses(BelowMinimum, c, couponId, userId, orders, now, orderAmount);
    assert !Refuses(AlreadyUsed, c, couponId, userId, orders, now, orderAmount);
  }

  /** A disabled coupon is always refused, and for that reason. */
  lemma DisabledIsRefused(c: Coupon, couponId: nat, userId: nat, orders: seq<Order>, now: int, orderAmount: Option<int>)
    requires !c.enabled
    ensures CheckAvailable(c, couponId, userId, orders, now, orderAmount) == Fail(Disabled)
  {
    var r := CheckAvailable(c, couponId, userId, orders, now, orderAmount);
    assert Refuses(Disabled, c, couponId, userId, orders, now, orderAmount);
  }

  /** Orders that no longer hold the coupon (unpaid and closed, or refunded)
      never change the verdict. */
  lemma {:induction false} SettledOrderDoesNotBlock(c: Coupon, couponId: nat, userId: nat, orders: seq<Order>,
                                                    o: Order, now: int, orderAmount: Option<int>)
    requires (o.paidAt.None? && o.closed) || (o.paidAt.Some? && o.refundStatus == Success)
    ensures CheckAvailable(c, couponId, userId, orders + [o], now, orderAmount)
         == CheckAvailable(c, couponId, userId, orders, now, orderAmount)
  {
    var more := orders + [o];
    assert !HoldsCoupon(o, userId, couponId);
    if HasActiveUse(more, userId, couponId) {
      var i :| 0 <= i < |more| && HoldsCoupon(more[i], userId, couponId);
      assert i < |orders| && more[i] == orders[i];
      assert HasActiveUse(orders, userId, couponId);
    }
    if HasActiveUse(orders, userId, couponId) {
      var i :| 0 <= i < |orders| && HoldsCoupon(orders[i], userId, couponId);
      assert more[i] == orders[i];
      assert HasActiveUse(more, userId, couponId);
    }
  }

  function Abs(x: int): nat {
    if x < 0 then -x else x
  }

  /** `n / d` rounded to the nearest integer, halves away from zero, as PHP's
      `number_format` rounds. */
  function RoundDiv(n: int, d: int): (r: int)
    requires d > 0
    ensures 2 * Abs(n - r * d) <= d
    ensures 2 * Abs(n - r * d) == d ==> Abs(r * d) > Abs(n)
  {
    if n >= 0 then RoundUpHalf(n, d) else 0 - RoundUpHalf(-n, d)
  }

  function RoundUpHalf(n: nat, d: int): (r: nat)
    requires d > 0
    ensures 2 * Abs(n - r * d) <= d
    ensures 2 * Abs(n - r * d) == d ==> r * d > n
  {
    var q := (2 * n + d) / (2 * d);
    var m := (2 * n + d) % (2 * d);
    assert 2 * n + d == q * (2 * d) + m && 0 <= m < 2 * d;
    assert 2 * (n - q * d) == m - d;
    q
  }

  /** `getAdjustedPrice`: what the order costs after the coupon, in cents. */
  function AdjustedPrice(c: Coupon, orderAmount: int): (r: int)
    ensures c.kind == Fixed ==> r >= 1
    ensures c.kind == Fixed && orderAmount - c.value >= 1 ==> r == orderAmount - c.value
    ensures c.kind == Fixed && orderAmount - c.value < 1 ==> r == 1
    ensures c.kind == Percent ==> 2 * Abs(r * 10000 - orderAmount * (10000 - c.value)) <= 10000
    ensures c.kind == Percent && 2 * Abs(r * 10000 - orderAmount * (10000 - c.value)) == 10000 ==>
      Abs(r * 10000) > Abs(orderAmount * (10000 - c.value))
  {
    match c.kind
    case Fixed => if orderAmount - c.value > 1 then orderAmount - c.value else 1
    case Percent => RoundDiv(orderAmount * (10000 - c.value), 10000)
  }

  /** A percent discount of at most 100% leaves a price between nothing and the
      order amount; the 0.01 floor of the fixed discount does not apply. */
  lemma PercentWithinAmount(c: Coupon, orderAmount: int)
    requires c.kind == Percent && 0 <= c.value <= 10000 && orderAmount >= 0
    ensures 0 <= AdjustedPrice(c, orderAmount) <= orderAmount
  {
    var n := orderAmount * (10000 - c.value);
    assert 0 <= n <= orderAmount * 10000;
    var r := AdjustedPrice(c, orderAmount);
    assert r == RoundUpHalf(n, 10000);
  }

  /** A 99% coupon on a one-cent order costs nothing: the percent branch has no
      0.01 floor. */
  lemma PercentHasNoFloor(c: Coupon)
    requires c.kind == Percent && c.value == 9900
    ensures AdjustedPrice(c, 1) == 0
  {
    assert 2 * Abs(AdjustedPrice(c, 1) * 10000 - 100) <= 10000;
  }

  /** `changeUsed`: add one use when `increase` and the quota has room (a single
      conditional update), otherwise take one use off unconditionally. The
      result is the number of rows the update touched. */
  method ChangeUsed(db: Database, id: nat, increase: bool) returns (affected: nat)
    requires db.Valid()
    modifies db`coupons
    ensures db.Valid()
    ensures affected == 1 <==> id < old(|db.coupons|) && (increase ==> old(db.coupons[id].used) < old(db.coupons[id].total))
    ensures affected <= 1
    ensures affected == 1 ==> id < old(|db.coupons|) && db.coupons == old(db.coupons)[id := old(db.coupons[id]).(used := old(db.coupons[id].used) + if increase then 1 else -1)]
    ensures affected == 0 ==> db.coupons == old(db.coupons)
  {
    affected := 0;
    if id < |db.coupons| {
      var c := db.coupons[id];
      if increase {
        if c.used < c.total {
          db.coupons := db.coupons[id := c.(used := c.used + 1)];
          affected := 1;
        }
      } else {
        db.coupons := db.coupons[id := c.(used := c.used - 1)];
        affected := 1;
      }
    }
  }

  /** `strtoupper` on one character: ASCII letters only. */
  function UpperChar(ch: char): char {
    if 'a' <= ch <= 'z' then (ch as int - 'a' as int + 'A' as int) as char else ch
  }

  predicate NoLowercase(s: string) {
    forall k :: 0 <= k < |s| ==> !('a' <= s[k] <= 'z')
  }

  function Upper(s: string): (r: string)
    ensures |r| == |s| && NoLowercase(r)
    ensures forall k :: 0 <= k < |s| && !('a' <= s[k] <= 'z') ==> r[k] == s[k]
    ensures forall k :: 0 <= k < |s| && 'a' <= s[k] <= 'z' ==> r[k] as int == s[k] as int - 32
  {
    seq(|s|, k requires 0 <= k < |s| => UpperChar(s[k]))
  }

  predicate CodeInUse(coupons: seq<Coupon>, code: string) {
    exists c :: 0 <= c < |coupons| && coupons[c].code == code
  }

  /** The length `findAvailableCode` uses when none is given. */
  const DefaultCodeLength: nat := 16

  /** `findAvailableCode`: draw random strings (`draws` is what the random source
      yields, in order), upper-case each, and return the first that no coupon
      uses. When every draw collides the source would keep drawing; the model
      returns None. */
  method FindAvailableCode(db: Database, length: nat, draws: seq<string>) returns (code: Option<string>)
    requires forall k :: 0 <= k < |draws| ==> |draws[k]| == length
    ensures code.Some? ==> |code.value| == length && NoLowercase(code.value) && !CodeInUse(db.coupons, code.value)
    ensures code.Some? ==> exists k :: 0 <= k < |draws| && code.value == Upper(draws[k])
                                       && forall j :: 0 <= j < k ==> CodeInUse(db.coupons, Upper(draws[j]))
    ensures code.None? <==> forall k :: 0 <= k < |draws| ==> CodeInUse(db.coupons, Upper(draws[k]))
  {
    var i := 0;
    while i < |draws|
      invariant 0 <= i <= |draws|
      invariant forall j :: 0 <= j < i ==> CodeInUse(db.coupons, Upper(draws[j]))
    {
      var candidate := Upper(draws[i]);
      if !CodeInUse(db.coupons, candidate) {
        return Some(candidate);
      }
      i := i + 1;
    }
    return None;
  }
}
