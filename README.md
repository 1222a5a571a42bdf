# LaravelShop order, coupon and catalogue rules in Dafny

This project models the business rules of the LaravelShop web shop and proves
properties about them. It covers:
- the coupon model: availability check, adjusted price, usage counter and fresh codes;
- the delayed job that closes unpaid orders;
- the listener that recomputes sold counts;
- the administrator's order actions (ship, decide on a refund, refund through WeChat Pay or Alipay);
- the user's order actions (coupon guard of order placement, confirm receipt, review, apply for a refund);
- the add-to-cart validation;
- the administrator's product form (SKU rules, price hook);
- the administrator's coupon form (field rules, saving hook);
- the storefront product pages: sort and search of the listing, the product page with its latest reviews, favourites.

Conventions:
- **Database.** `Shop.Database` is a class with one `seq` field per table (`orders`, `products`, `skus`, `coupons`). A row's index is its id, and an order holds its items. Operations that write rows are methods with `modifies` frames on exactly the tables they write. `Database.Valid()` is the invariant they preserve: the per-order invariant, foreign keys that resolve, unique refund numbers, and no coupon used beyond its quota.
- **Money** is whole cents. A coupon's `value` is in hundredths: cents for a fixed discount, hundredths of a percent for a percent discount.
- **Strings.** PHP truthiness of a string is `Shop.Truthy`: "" and "0" are false. Laravel's `required` on a string is `!Shop.Blank`.
- **Outside inputs are parameters:**
  - the clock (`now`);
  - the random source (`draws`, the strings it yields in order);
  - the refund number `Order::getAvailableRefundNo` would return (`refundNo`, required to be unused);
  - Alipay's `sub_code` answer (`subCode`).

## Model

| member | source | states |
|---|---|---|
| Shop.Database.AddStock | app/Jobs/CloseOrder.php:39-41 | the SKU's stock rises by the amount, no other row changes, and the database invariant is kept |
| CouponRules.CheckAvailable | app/Models/CouponCode.php:55-92 | Pass means no check refuses. A failure names a check that refuses and no earlier check refuses, in the order disabled, redeemed, not yet valid, expired, below minimum, already used |
| CouponRules.AcceptedCoupon | app/Models/CouponCode.php:55-92 | an accepted coupon is enabled, has quota left, is inside its validity window, meets the minimum, and is held by no other order of the user |
| CouponRules.DisabledIsRefused | app/Models/CouponCode.php:57-59 | a disabled coupon is always refused as disabled |
| CouponRules.SettledOrderDoesNotBlock | app/Models/CouponCode.php:77-88 | an extra order that is closed-unpaid or successfully refunded never changes the verdict |
| CouponRules.RoundUpHalf | app/Models/CouponCode.php:102 | a non-negative quotient rounded to the nearest integer; ties round up |
| CouponRules.RoundDiv | app/Models/CouponCode.php:102 | a quotient rounded to the nearest integer as `number_format` rounds; ties go away from zero |
| CouponRules.AdjustedPrice | app/Models/CouponCode.php:94-103 | fixed: amount minus value, with a floor of 1 cent. Percent: amount times (100% - value), rounded to the nearest cent, with an exact half cent rounded away from zero |
| CouponRules.PercentWithinAmount | app/Models/CouponCode.php:102 | a percent discount between 0% and 100% gives a price between 0 and the order amount |
| CouponRules.PercentHasNoFloor | app/Models/CouponCode.php:97-102 | 99% off a 1-cent order costs 0, because only the fixed branch has the 0.01 floor |
| CouponRules.ChangeUsed | app/Models/CouponCode.php:105-114 | increase adds one use only while the quota has room. Decrease takes one off unconditionally. The result is the number of rows touched (0 or 1), and no other coupon changes |
| CouponRules.Upper | app/Models/CouponCode.php:120 | same length; each lower-case ASCII letter becomes its own capital and every other character is kept |
| CouponRules.FindAvailableCode | app/Models/CouponCode.php:116-125 | returns the upper-cased first draw that no coupon uses, of the requested length. It returns nothing only when every draw collides |
| CloseOrderJob.ReservedFrom | app/Jobs/CloseOrder.php:39-41 | the units the order's lines took from a SKU: the sum of the amounts of the lines on that SKU |
| CloseOrderJob.ReservedFromOtherSku | app/Jobs/CloseOrder.php:39-41 | a SKU no line takes from gets nothing back |
| CloseOrderJob.ReservedFromAppend | app/Jobs/CloseOrder.php:39-41 | the units given back to a SKU add up over the lines |
| CloseOrderJob.Handle | app/Jobs/CloseOrder.php:28-46 | a paid order changes nothing. Otherwise the order is closed, each SKU gains exactly the units its lines reserved, and the order's coupon loses one use. Everything else is untouched and the invariant holds |
| CloseOrderJob.HandleTwice | app/Jobs/CloseOrder.php:28-46 | two runs on an unpaid order give every line's stock back twice: the job is not idempotent |
| SoldCount.PaidUnits | app/Listeners/UpdateProductSoldCount.php:23-27 | the SUM query: the total amount over the items of the product whose order has `paid_at` set |
| SoldCount.UnpaidOrderCountsNothing | app/Listeners/UpdateProductSoldCount.php:23-27 | whatever an unpaid order's items hold, the paid-units sum is the same |
| SoldCount.PayingAddsItsUnits | app/Listeners/UpdateProductSoldCount.php:23-27 | paying one order raises a product's paid-units sum by exactly that order's units of the product |
| SoldCount.Handle | app/Listeners/UpdateProductSoldCount.php:13-33 | every product on the order's lines gets sold_count equal to the paid-units sum. No other product and no other field changes |
| SoldCount.HandleTwice | app/Listeners/UpdateProductSoldCount.php:13-33 | a second run leaves the same products as one run |
| AdminOrders.Ship | app/Admin/Controllers/OrdersController.php:69-96 | refuses an unpaid order, then an already shipped order, then blank express data. Otherwise the order becomes delivered with the express data, one step of the shipping state machine; refusals change nothing |
| AdminOrders.HandleRefund | app/Admin/Controllers/OrdersController.php:98-126 | only an APPLIED refund is handled. A rejection returns it to PENDING with the reason in extra. An approval drops any earlier rejection reason, then refunds. Other orders are untouched, and the invariant and the refund state machine are kept |
| AdminOrders.RefundOutcome | app/Admin/Controllers/OrdersController.php:128-182 | the order after `_refundOrder`, the request sent and the result, for each payment method: WeChat Pay, Alipay with or without a `sub_code`, and an unknown method |
| AdminOrders.RefundOrder | app/Admin/Controllers/OrdersController.php:128-182 | WeChat Pay: sends the full amount and becomes PROCESSING. Alipay: a truthy sub_code gives FAILED with the code in extra, otherwise SUCCESS. Both store the fresh refund number. Any other method is an error that changes nothing |
| UserOrders.FindCoupon | app/Http/Controllers/OrdersController.php:28 | the lowest-id coupon with the code, or none when no coupon has it |
| UserOrders.StoreCoupon | app/Http/Controllers/OrdersController.php:26-32 | with no code, no coupon. With a code no coupon has, the order is refused. Otherwise the first coupon with that code |
| UserOrders.Received | app/Http/Controllers/OrdersController.php:55-70 | only a delivered order is accepted, and it becomes received; otherwise the order is refused and nothing changes |
| UserOrders.ReviewGuard | app/Http/Controllers/OrdersController.php:77-79 | an order can be reviewed exactly when it is paid |
| UserOrders.LastReviewFor | app/Http/Controllers/OrdersController.php:99-107 | the entry found names the item and comes from the submission |
| UserOrders.LastReviewForIsLast | app/Http/Controllers/OrdersController.php:99-107 | the entry found is the last one naming the item; the entries are applied in order, so it is the one whose write stays |
| UserOrders.LastReviewForNamed | app/Http/Controllers/OrdersController.php:99-107 | an item gets a review exactly when some entry names it |
| UserOrders.SendReview | app/Http/Controllers/OrdersController.php:84-114 | unpaid and already reviewed orders are refused. The submission succeeds exactly when every entry names an item of the order. Then each item carries its last entry's rating and text stamped `now`, unnamed items are unchanged, and the order is reviewed. Otherwise nothing changes |
| UserOrders.ApplyRefund | app/Http/Controllers/OrdersController.php:116-138 | only a paid order with a PENDING refund is accepted. It becomes APPLIED with the reason added to extra; refusals change nothing |
| AddCart.SkuRule | app/Http/Requests/AddCartRequest.php:12-28 | reports the first failing check (required, exists, on sale, sold out, out of stock). Passes exactly when the SKU exists, is on sale and in stock, and covers a positive amount |
| AddCart.AmountRule | app/Http/Requests/AddCartRequest.php:29 | passes exactly when an amount of at least 1 is given |
| AddCart.AcceptedIff | app/Http/Requests/AddCartRequest.php:12-29 | a request passes both rules exactly when the SKU exists, its product is on sale, and 1 <= amount <= stock |
| AdminProducts.SkuRowValid | app/Admin/Controllers/ProductsController.php:113-116 | a SKU row has a non-blank title and description, a price of at least 0.01 and a stock of at least 0 |
| AdminProducts.MinKeptPrice | app/Admin/Controllers/ProductsController.php:121 | the least price among rows not marked removed, attained by one of them, and none when all are removed |
| AdminProducts.ProductPrice | app/Admin/Controllers/ProductsController.php:120-122 | the product's price is that minimum, and 0 when no row is kept |
| AdminProducts.PriceOfValidRows | app/Admin/Controllers/ProductsController.php:113-122 | when every kept row passes the SKU rules and one row is kept, the product's price is at least 0.01 |
| AdminProducts.RemovedRowIgnored | app/Admin/Controllers/ProductsController.php:121 | deleting a removed row does not change the price |
| AdminCoupons.CodeRule | app/Admin/Controllers/CouponCodesController.php:96-103 | an empty code passes; otherwise no other coupon may have it, and on edit the coupon's own row is not counted |
| AdminCoupons.ValueRuleAsWritten | app/Admin/Controllers/CouponCodesController.php:105-113 | the value rule keyed on the type of the stored model: between 1% and 99% when that type is percent, otherwise at least 0.01 |
| AdminCoupons.ValueRule | app/Admin/Controllers/CouponCodesController.php:105-113 | the value rule keyed on the submitted type: between 1% and 99% for percent, otherwise at least 0.01 |
| AdminCoupons.CountRules | app/Admin/Controllers/CouponCodesController.php:114-115 | total and minimum amount are at least 0 |
| AdminCoupons.EditKeepsOwnCode | app/Admin/Controllers/CouponCodesController.php:96-103 | on edit, a coupon may keep its own code |
| AdminCoupons.CreateRefusesTakenCode | app/Admin/Controllers/CouponCodesController.php:96-103 | on create, a code another coupon has is refused |
| AdminCoupons.PercentOverHundredAcceptedOnCreate | app/Admin/Controllers/CouponCodesController.php:105-113 | as written, a new 150% coupon passes the form and prices a 100.00 order below zero |
| AdminCoupons.ValidCouponKeepsPriceInRange | app/Admin/Controllers/CouponCodesController.php:105-115 | with the type-based value rule, an accepted coupon keeps every order of at least 0.01 between 0 and its amount |
| AdminCoupons.CouponForm.Saving | app/Admin/Controllers/CouponCodesController.php:120-124 | a truthy code is kept. Otherwise the code becomes a fresh 16-character upper-case code no coupon uses. It is left unchanged only when every draw collides |
| Catalog.SortCaptures | app/Http/Controllers/ProductsController.php:35 | the captures split the subject into a non-empty field and a direction |
| Catalog.FieldOf | app/Http/Controllers/ProductsController.php:37 | accepts exactly the names price, sold_count and rating |
| Catalog.ParseSort | app/Http/Controllers/ProductsController.php:33-42 | an ordering is applied exactly when the parameter, up to one final newline, is a permitted field, `_`, then asc or desc, and it is that field and direction |
| Catalog.NamesAreCaptured | app/Http/Controllers/ProductsController.php:35-37 | every permitted field and direction is captured as itself |
| Catalog.SortExamples | app/Http/Controllers/ProductsController.php:33-42 | sold_count_desc gives sold_count descending; price_asc followed by a newline gives price ascending; price_asc_desc gives no ordering |
| Catalog.Contains | app/Http/Controllers/ProductsController.php:19-27 | true exactly when the term occurs as a contiguous piece |
| Catalog.Listing | app/Http/Controllers/ProductsController.php:15-29 | in increasing id order, exactly the products on sale that match the term (in title, description, or a SKU's title or description); with no term (empty or "0"), every product on sale |
| Catalog.ReviewsOf | app/Http/Controllers/ProductsController.php:72-73 | exactly the items of the product that have a review time, each with as many copies as the given items hold |
| Catalog.ConsNewest | app/Http/Controllers/ProductsController.php:74 | placing a newer item ahead of a newest-first list keeps it newest-first |
| Catalog.Insert | app/Http/Controllers/ProductsController.php:74 | the result is newest-first and as a multiset is the list plus the new item |
| Catalog.SortNewest | app/Http/Controllers/ProductsController.php:74 | a newest-first permutation of its input |
| Catalog.PrefixIsNewest | app/Http/Controllers/ProductsController.php:74-75 | a cut of a newest-first list keeps items of the input, and nothing cut off is newer than what was kept |
| Catalog.ShownReviews | app/Http/Controllers/ProductsController.php:70-76 | at most ten reviewed items of the product, newest first, drawn from its reviews, and all of them when there are fewer than ten. No review left out is newer than one shown |
| Catalog.Show | app/Http/Controllers/ProductsController.php:55-82 | refused exactly when the product is not on sale. The page is favoured exactly when a signed-in user has the product among favourites, and shows the latest reviews |
| Catalog.Without | app/Http/Controllers/ProductsController.php:100 | exactly the rows other than the product, still without duplicates |
| Catalog.DisfavorUndoesFavor | app/Http/Controllers/ProductsController.php:85-103 | detaching a product just attached restores the rows |
| Catalog.Favorites.Favor | app/Http/Controllers/ProductsController.php:85-95 | the favourites become the old set plus the product. An already favoured product leaves the rows unchanged, and no row is duplicated |
| Catalog.Favorites.Disfavor | app/Http/Controllers/ProductsController.php:97-103 | the favourites become the old set minus the product, and no row is duplicated |

## Left out

- Authorization (`authorize('own', …)`), the admin panel's grids, views, redirects, pagination and the `favorites` listing page are presentation or framework concerns, so they are not modelled.
- `OrderService::store`, `Order::getAvailableRefundNo` and `ProductSku::addStock` are not part of this model. The first is outside the modelled files. The fresh refund number is an input with a freshness precondition, and `addStock` is given the contract of its atomic increment.
- The `OrderReviewed` and `OrderPaid` events, the queue delay of `CloseOrder`, transactions and concurrent requests are not modelled beyond rollback on failure. Each operation is one atomic step.
- The WeChat Pay and Alipay SDK calls are not modelled beyond the request built and the `sub_code` answer. A provider throwing is not modelled.
- Prices are whole cents rather than PHP floats. The `total_amount * 100` conversion for WeChat Pay is therefore exact.
- `getDescriptionAttribute` (display text only) is not modelled.
- SQL `LIKE`: `Catalog.Contains` is case-sensitive, and `%` or `_` inside a search term are plain characters rather than wildcards, so collation-dependent case folding is not captured.
- The listing's `orderBy` is modelled as the parsed field and direction; the database's sorting of the rows and pagination into pages of 16 are not modelled.
- Catalog.ShownReviews: reviews with equal `reviewed_at` come out in one fixed order, whereas the database leaves their order unspecified. The contract only fixes what holds for every tie order.
- CouponRules.FindAvailableCode: the source draws until it finds a free code. The model has a finite list of draws and returns none if all collide.
- CouponRules.ChangeUsed: the increase guard reads the quota from the stored row; the source compares with the `total` of the model instance it loaded, which is the same unless another request changed it in between.
- UserOrders.FindCoupon, UserOrders.StoreCoupon, CouponRules.FindAvailableCode and AdminCoupons.CodeRule compare coupon codes by exact character equality. The database compares them with SQL `=` under its collation, which under a case-insensitive, pad-space collation such as MySQL's `utf8mb4_unicode_ci` also matches codes that differ in letter case or trailing spaces. Collations are not modelled.
- Non-integer or non-numeric form input (the `numeric` and `integer` rules on free text) is not modelled. Inputs are integers or absent.
- The coupon code is looked up by `CouponCode::where('code', $code)->first()`. The model takes the lowest id, which is the database's usual but unpromised order.
- The order controller's `index` and `show` only display data and are not modelled.
- `CloseOrder::handle` has no `closed` guard, so running it twice on an unpaid order returns the stock twice (`CloseOrderJob.HandleTwice`).
- The percent branch of `getAdjustedPrice` has no 0.01 floor, so a large percent discount on a tiny order costs 0 (`CouponRules.PercentHasNoFloor`).

## Findings

| source | as written | input that shows it | evidently intended | confidence | as-written member | corrected member |
|---|---|---|---|---|---|---|
| app/Admin/Controllers/CouponCodesController.php:105-113 | the value rule branches on the type of the model the form is bound to, which has no type yet when a coupon is created, so a new percent coupon only needs a value of at least 0.01 | creating a percent coupon with value 150: it is accepted, and on an order of 100.00 the adjusted price is -50.00 | the rule branches on the submitted type, keeping a percent discount between 1 and 99 | not executed | AdminCoupons.PercentOverHundredAcceptedOnCreate | AdminCoupons.ValidCouponKeepsPriceInRange |
