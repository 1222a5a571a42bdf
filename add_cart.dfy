/** The validation rules of an add-to-cart request: a SKU id and an amount. */
module AddCart {
  import opened Shop

  /** The message the `sku_id` rules give, in the order the checks run. */
  datatype SkuError = SkuRequired | SkuNotFound | NotOnSale | SoldOut | OutOfStock

  datatype AmountError = AmountRequired | AmountBelowOne

  /** The `sku_id` rules: `required`, then the closure, which reports the first
      failing check. `skuId` and `amount` are the inputs, None when absent. */
  function SkuRule(products: seq<Product>, skus: seq<Sku>, skuId: Option<int>, amount: Option<int>): (r: Option<SkuError>)
    requires forall s :: 0 <= s < |skus| ==> skus[s].productId < |products|
    ensures r == Some(SkuRequired) <==> skuId.None?
    ensures r == Some(SkuNotFound) <==> skuId.Some? && !(0 <= skuId.value < |skus|)
    ensures r == Some(NotOnSale) ==> 0 <= skuId.value < |skus| && !products[skus[skuId.value].productId].onSale
    ensures r == Some(SoldOut) ==> 0 <= skuId.value < |skus| && products[skus[skuId.value].productId].onSale
                                   && skus[skuId.value].stock == 0
    ensures r == Some(OutOfStock) ==> 0 <= skuId.value < |skus| && products[skus[skuId.value].productId].onSale
                                      && amount.Some? && 0 < skus[skuId.value].stock < amount.value
    ensures r.None? <==> skuId.Some? && 0 <= skuId.value < |skus| && products[skus[skuId.value].productId].onSale
                         && skus[skuId.value].stock != 0
                         && (amount.Some? && amount.value > 0 ==> amount.value <= skus[skuId.value].stock)
  {
    if skuId.None? then Some(SkuRequired)
    else if !(0 <= skuId.value < |skus|) then Some(SkuNotFound)
    else
      var sku := skus[skuId.value];
      if !products[sku.productId].onSale then Some(NotOnSale)
      else if sku.stock == 0 then Some(SoldOut)
      else if amount.Some? && amount.value > 0 && sku.stock < amount.value then Some(OutOfStock)
      else None
  }

  /** The `amount` rules: `required|integer|min:1`. */
  function AmountRule(amount: Option<int>): (r: Option<AmountError>)
    ensures r.None? <==> amount.Some? && amount.value >= 1
  {
    if amount.None? then Some(AmountRequired)
    else if amount.value < 1 then Some(AmountBelowOne)
    else None
  }

  predicate Accepted(products: seq<Product>, skus: seq<Sku>, skuId: Option<int>, amount: Option<int>)
    requires forall s :: 0 <= s < |skus| ==> skus[s].productId < |products|
  {
    SkuRule(products, skus, skuId, amount).None? && AmountRule(amount).None?
  }

  /** A request passes both rules exactly when the SKU exists, its product is on
      sale, and the amount is at least one and at most the stock. */
  lemma AcceptedIff(products: seq<Product>, skus: seq<Sku>, skuId: Option<int>, amount: Option<int>)
    requires forall s :: 0 <= s < |skus| ==> skus[s].productId < |products|
    ensures Accepted(products, skus, skuId, amount) <==>
      && skuId.Some? && 0 <= skuId.value < |skus|
      && products[skus[skuId.value].productId].onSale
      && amount.Some? && 1 <= amount.value <= skus[skuId.value].stock
  {
  }
}
