/** The administrator's product form: the rules on each SKU row, and the
    product price the saving hook derives from the SKUs. */
module AdminProducts {
  import opened Shop

  /** One row of the submitted SKU list; `removed` is the form's remove flag. */
  datatype SkuRow = SkuRow(title: string, description: string, price: int, stock: int, removed: bool)

  /** The rules on a SKU row: title and description required, price at least
      0.01 and stock a whole number of at least 0. */
  predicate SkuRowValid(row: SkuRow) {
    !Blank(row.title) && !Blank(row.description) && row.price >= 1 && row.stock >= 0
  }

  predicate Kept(rows: seq<SkuRow>, k: int) {
    0 <= k < |rows| && !rows[k].removed
  }

  /** The lowest price among the rows not flagged as removed, None when every
      row is removed. */
  function MinKeptPrice(rows: seq<SkuRow>): (r: Option<int>)
    ensures r.None? <==> forall k :: 0 <= k < |rows| ==> rows[k].removed
    ensures r.Some? ==> exists k :: Kept(rows, k) && rows[k].price == r.value
    ensures r.Some? ==> forall k :: Kept(rows, k) ==> r.value <= rows[k].price
    decreases |rows|
  {
    if rows == [] then None
    else
      var rest := MinKeptPrice(rows[1..]);
      assert forall k :: 1 <= k < |rows| ==> rows[1..][k - 1] == rows[k];
      if rows[0].removed then rest
      else if rest.Some? && rest.value < rows[0].price then rest
      else Some(rows[0].price)
  }

  /** The saving hook: the product's price is the lowest price among the SKUs
      that are kept, and 0 when none is. */
  function ProductPrice(rows: seq<SkuRow>): (r: int)
    ensures (forall k :: 0 <= k < |rows| ==> rows[k].removed) ==> r == 0
    ensures (exists k :: Kept(rows, k)) ==> exists k :: Kept(rows, k) && rows[k].price == r
    ensures forall k :: Kept(rows, k) ==> r <= rows[k].price
  {
    match MinKeptPrice(rows)
    case None => 0
    case Some(m) => m
  }

  /** When every kept row passes the rules and at least one row is kept, the
      product's price is at least 0.01. */
  lemma PriceOfValidRows(rows: seq<SkuRow>)
    requires forall k :: Kept(rows, k) ==> SkuRowValid(rows[k])
    requires exists k :: Kept(rows, k)
    ensures ProductPrice(rows) >= 1
  {
    var k :| Kept(rows, k) && rows[k].price == ProductPrice(rows);
    assert SkuRowValid(rows[k]);
  }

  /** Removed rows never affect the price. */
  lemma {:induction false} RemovedRowIgnored(rows: seq<SkuRow>, k: nat)
    requires k < |rows| && rows[k].removed
    ensures MinKeptPrice(rows[..k] + rows[k + 1..]) == MinKeptPrice(rows)
    ensures ProductPrice(rows[..k] + rows[k + 1..]) == ProductPrice(rows)
    decreases k
  {
    var rest := rows[..k] + rows[k + 1..];
    if k == 0 {
      assert rest == rows[1..];
    } else {
      assert rest[0] == rows[0];
      assert rest[1..] == rows[1..][..k - 1] + rows[1..][k..];
      RemovedRowIgnored(rows[1..], k - 1);
    }
  }
}
