/** The administrator's coupon form: the rules on its fields and the saving
    hook that fills in a missing code. */
module AdminCoupons {
  import opened Shop
  import CouponRules

  /** The submitted form fields. `value`, `total` and `minAmount` are in the
      units of `Coupon`. */
  datatype CouponInput = CouponInput(name: string, code: string, kind: CouponType, value: int, total: int, minAmount: int)

  /** The `code` rule: `nullable|unique`. An empty code passes; otherwise no other
      coupon may have it, where on edit (`editing` is the row's id) the row
      being edited does not count. */
  predicate CodeRule(coupons: seq<Coupon>, editing: Option<nat>, code: string) {
    code == "" || forall c :: 0 <= c < |coupons| && editing != Some(c) ==> coupons[c].code != code
  }

  predicate CodesUnique(coupons: seq<Coupon>) {
    forall a, b :: 0 <= a < b < |coupons| && coupons[a].code != "" ==> coupons[a].code != coupons[b].code
  }

  /** On edit a coupon may keep its own code. */
  lemma EditKeepsOwnCode(coupons: seq<Coupon>, id: nat)
    requires id < |coupons| && CodesUnique(coupons)
    ensures CodeRule(coupons, Some(id), coupons[id].code)
  {
  }

  /** On create a code some coupon already has is refused. */
  lemma CreateRefusesTakenCode(coupons: seq<Coupon>, c: nat, code: string)
    requires c < |coupons| && coupons[c].code == code && code != ""
    ensures !CodeRule(coupons, None, code)
  {
  }

  /** The `value` rule AS WRITTEN: it looks at the type of the model the form is
      bound to, which has no type yet when a coupon is created (`modelKind` is
      None), so a new percent coupon only needs a value of at least 0.01. */
  predicate ValueRuleAsWritten(modelKind: Option<CouponType>, value: int) {
    if modelKind == Some(Percent) then 100 <= value <= 9900 else value >= 1
  }

  /** The `value` rule as intended: a percent discount between 1 and 99, any
      other discount at least 0.01, judged by the submitted type. */
  predicate ValueRule(kind: CouponType, value: int) {
    if kind == Percent then 100 <= value <= 9900 else value >= 1
  }

  /** The `total` and `min_amount` rules: `numeric|min:0`. */
  predicate CountRules(f: CouponInput) {
    f.total >= 0 && f.minAmount >= 0
  }

  /** The form passes its rules (the corrected value rule). */
  predicate FormValid(coupons: seq<Coupon>, editing: Option<nat>, f: CouponInput) {
    !Blank(f.name) && CodeRule(coupons, editing, f.code) && ValueRule(f.kind, f.value) && CountRules(f)
  }

  /** The form passes its rules as written. */
  predicate FormValidAsWritten(coupons: seq<Coupon>, editing: Option<nat>, f: CouponInput)
    requires editing.Some? ==> editing.value < |coupons|
  {
    var modelKind := if editing.Some? then Some(coupons[editing.value].kind) else None;
    !Blank(f.name) && CodeRule(coupons, editing, f.code) && ValueRuleAsWritten(modelKind, f.value) && CountRules(f)
  }

  function CouponOf(f: CouponInput): Coupon {
    Coupon(f.name, f.code, f.kind, f.value, f.total, 0, f.minAmount, None, None, true)
  }

  /** As written, a new 150% coupon passes the form, and on a 100.00 order it
      gives a total of -50.00. */
  lemma PercentOverHundredAcceptedOnCreate()
    ensures var f := CouponInput("half back", "", Percent, 15000, 10, 0);
      && FormValidAsWritten([], None, f)
      && CouponRules.AdjustedPrice(CouponOf(f), 10000) < 0
  {
    var f := CouponInput("half back", "", Percent, 15000, 10, 0);
    assert !Blank(f.name) by { assert f.name[0] == 'h'; }
    var r := CouponRules.AdjustedPrice(CouponOf(f), 10000);
    assert 2 * CouponRules.Abs(r * 10000 - 10000 * (10000 - 15000)) <= 10000;
  }

  /** With the corrected rule, an accepted coupon never raises the price of an
      order of at least 0.01 and never makes it negative. */
  lemma {:induction false} ValidCouponKeepsPriceInRange(coupons: seq<Coupon>, editing: Option<nat>, f: CouponInput, orderAmount: int)
    requires FormValid(coupons, editing, f) && orderAmount >= 1
    ensures 0 <= CouponRules.AdjustedPrice(CouponOf(f), orderAmount) <= orderAmount
  {
    var c := CouponOf(f);
    if c.kind == Percent {
      CouponRules.PercentWithinAmount(c, orderAmount);
    }
  }

  /** The form being saved; the saving hook may overwrite its `code`. */
  class CouponForm {
    var code: string

    constructor (code: string)
      ensures this.code == code
    {
      this.code := code;
    }

    /** The saving hook: a code that is empty (or "0", which PHP reads as false)
        is replaced by `findAvailableCode()`, a fresh 16-character upper-case
        code; any other code is kept. `draws` is what the random source yields.
        The result is false only when every draw collides, where the source
        would keep drawing. */
    method Saving(db: Database, draws: seq<string>) returns (saved: bool)
      requires forall k :: 0 <= k < |draws| ==> |draws[k]| == CouponRules.DefaultCodeLength
      modifies this
      ensures Truthy(old(code)) ==> saved && code == old(code)
      ensures !Truthy(old(code)) && saved ==>
        |code| == 16 && CouponRules.NoLowercase(code) && !CouponRules.CodeInUse(db.coupons, code)
      ensures !saved ==> code == old(code) && forall k :: 0 <= k < |draws| ==> CouponRules.CodeInUse(db.coupons, CouponRules.Upper(draws[k]))
    {
      saved := true;
      if !Truthy(code) {
        var found := CouponRules.FindAvailableCode(db, CouponRules.DefaultCodeLength, draws);
        match found
        case Some(c) => code := c;
        case None => saved := false;
      }
    }
  }
}
