/** The storefront's product pages: the listing's sort parameter and search,
    the product page guard and the reviews it shows, and the favourites list. */
module Catalog {
  import opened Shop

  datatype SortField = ByPrice | BySoldCount | ByRating

  datatype Direction = Asc | Desc

  function FieldName(f: SortField): string {
    match f
    case ByPrice => "price"
    case BySoldCount => "sold_count"
    case ByRating => "rating"
  }

  function DirectionName(d: Direction): string {
    match d
    case Asc => "asc"
    case Desc => "desc"
  }

  /** The sort parameter names field `f` and direction `d`. */
  predicate Names(order: string, f: SortField, d: Direction) {
    order == FieldName(f) + "_" + DirectionName(d)
  }

  /** What `$` in a PCRE pattern lets the match end on: the whole subject, or the
      subject without one final newline. */
  function Subject(s: string): string {
    if |s| > 0 && s[|s| - 1] == '\n' then s[..|s| - 1] else s
  }

  predicate NoNewline(s: string) {
    forall k :: 0 <= k < |s| ==> s[k] != '\n'
  }

  /** The captures of `^(.+)_(asc|desc)$` on the subject `s`. The greedy `(.+)`
      takes everything before the final `_asc` or `_desc`; it cannot be empty
      or hold a newline. */
  function SortCaptures(s: string): (r: Option<(string, Direction)>)
    ensures r.Some? ==> s == r.value.0 + "_" + DirectionName(r.value.1) && r.value.0 != ""
  {
    if |s| > 4 && s[|s| - 4..] == "_asc" && NoNewline(s[..|s| - 4]) then
      assert s == s[..|s| - 4] + "_" + "asc";
      Some((s[..|s| - 4], Asc))
    else if |s| > 5 && s[|s| - 5..] == "_desc" && NoNewline(s[..|s| - 5]) then
      assert s == s[..|s| - 5] + "_" + "desc";
      Some((s[..|s| - 5], Desc))
    else None
  }

  function FieldOf(name: string): (r: Option<SortField>)
    ensures r.Some? <==> exists f :: FieldName(f) == name
    ensures r.Some? ==> FieldName(r.value) == name
  {
    if name == "price" then assert FieldName(ByPrice) == name; Some(ByPrice)
    else if name == "sold_count" then assert FieldName(BySoldCount) == name; Some(BySoldCount)
    else if name == "rating" then assert FieldName(ByRating) == name; Some(ByRating)
    else
      assert forall f :: FieldName(f) != name;
      None
  }

  /** The ordering `index` applies: a field and a direction when the parameter
      is exactly `<field>_(asc|desc)` for a field it allows (up to one final
      newline), and none otherwise. */
  function ParseSort(order: string): (r: Option<(SortField, Direction)>)
    ensures r.Some? ==> Names(Subject(order), r.value.0, r.value.1)
    ensures r.None? ==> forall f, d :: !Names(Subject(order), f, d)
  {
    var s := Subject(order);
    if !Truthy(order) then
      assert forall f, d :: !Names(s, f, d) by {
        forall f, d ensures !Names(s, f, d) {
          if Names(s, f, d) { NamesAreCaptured(s, f, d); }
        }
      }
      None
    else match SortCaptures(s)
      case None =>
        assert forall f, d :: !Names(s, f, d) by {
          forall f, d ensures !Names(s, f, d) {
            if Names(s, f, d) { NamesAreCaptured(s, f, d); }
          }
        }
        None
      case Some((name, d)) =>
        match FieldOf(name)
        case None =>
          assert forall f, d' :: !Names(s, f, d') by {
            forall f, d' ensures !Names(s, f, d') {
              if Names(s, f, d') { NamesAreCaptured(s, f, d'); }
            }
          }
          None
        case Some(f) => Some((f, d))
  }

  /** A parameter naming an allowed field and a direction is captured as that
      field and direction. */
  lemma NamesAreCaptured(s: string, f: SortField, d: Direction)
    requires Names(s, f, d)
    ensures SortCaptures(s) == Some((FieldName(f), d))
  {
    var name, dir := FieldName(f), DirectionName(d);
    assert s[|s| - 1] == dir[|dir| - 1];
    assert s[..|name|] == name && s[|name|..] == "_" + dir;
    assert NoNewline(name);
    match d
    case Asc =>
      assert s[|s| - 4..] == "_asc";
    case Desc =>
      assert s[|s| - 5..] == "_desc";
      assert s[|s| - 4] == 'd';
  }

  /** The greedy capture at work. */
  lemma SortExamples()
    ensures ParseSort("sold_count_desc") == Some((BySoldCount, Desc))
    ensures ParseSort("price_asc\n") == Some((ByPrice, Asc))
    ensures ParseSort("price_asc_desc") == None
  {
    NamesAreCaptured("sold_count_desc", BySoldCount, Desc);
    assert Subject("price_asc\n") == "price_asc";
    NamesAreCaptured("price_asc", ByPrice, Asc);
    forall f, d ensures !Names("price_asc_desc", f, d) {
      var n := FieldName(f) + "_" + DirectionName(d);
      if |n| == 14 {
        assert n[0] == 's';
      }
    }
  }

  /** `t` occurs in `s` at position `k`. */
  predicate PieceAt(t: string, s: string, k: int) {
    0 <= k && k + |t| <= |s| && s[k..k + |t|] == t
  }

  /** `t` occurs in `s` as a contiguous piece. */
  ghost predicate IsPiece(t: string, s: string) {
    exists k :: PieceAt(t, s, k)
  }

  /** The substring test behind the search's `LIKE '%term%'`. */
  function Contains(s: string, t: string): (r: bool)
    ensures r <==> IsPiece(t, s)
    decreases |s|
  {
    if |t| > |s| then
      assert forall k :: !PieceAt(t, s, k);
      false
    else if s[..|t|] == t then
      assert PieceAt(t, s, 0);
      true
    else
      var r := Contains(s[1..], t);
      assert r ==> IsPiece(t, s) by {
        if r {
          var k :| PieceAt(t, s[1..], k);
          assert s[1..][k..k + |t|] == s[k + 1..k + 1 + |t|];
          assert PieceAt(t, s, k + 1);
        }
      }
      assert IsPiece(t, s) ==> r by {
        if IsPiece(t, s) {
          var k :| PieceAt(t, s, k);
          assert k != 0;
          assert s[1..][k - 1..k - 1 + |t|] == s[k..k + |t|];
          assert PieceAt(t, s[1..], k - 1);
        }
      }
      r
  }

  /** The search predicate: the term occurs in the product's title or
      description, or in the title or description of one of its SKUs. */
  predicate Matches(search: string, products: seq<Product>, skus: seq<Sku>, p: nat)
    requires p < |products|
  {
    || Contains(products[p].title, search)
    || Contains(products[p].description, search)
    || exists s :: 0 <= s < |skus| && skus[s].productId == p
                   && (Contains(skus[s].title, search) || Contains(skus[s].description, search))
  }

  /** Whether `index` lists product `p`: on sale, and matching the search when a
      search term is given (PHP reads "" and "0" as no term). */
  predicate Listed(search: string, products: seq<Product>, skus: seq<Sku>, p: nat)
    requires p < |products|
  {
    products[p].onSale && (Truthy(search) ==> Matches(search, products, skus, p))
  }

  /** The ids of the listed products from `from` on, in id order. */
  function Listing(search: string, products: seq<Product>, skus: seq<Sku>, from: nat): (r: seq<nat>)
    requires from <= |products|
    ensures forall k :: 0 <= k < |r| ==> from <= r[k] < |products| && Listed(search, products, skus, r[k])
    ensures forall i, j :: 0 <= i < j < |r| ==> r[i] < r[j]
    ensures forall p :: from <= p < |products| && Listed(search, products, skus, p) ==> p in r
    decreases |products| - from
  {
    if from == |products| then []
    else
      var rest := Listing(search, products, skus, from + 1);
      if Listed(search, products, skus, from) then [from] + rest else rest
  }

  datatype Error = NotOnSale

  /** The product page: whether the signed-in user favours the product, and the
      reviews shown. */
  datatype ShowPage = ShowPage(favored: bool, reviews: seq<OrderItem>)

  /** The sort key of a review: its `reviewed_at`. */
  function ReviewedAt(item: OrderItem): int {
    match item.reviewedAt
    case Some(t) => t
    case None => 0
  }

  predicate Newest(items: seq<OrderItem>) {
    forall i, j :: 0 <= i < j < |items| ==> ReviewedAt(items[i]) >= ReviewedAt(items[j])
  }

  /** The reviewed items of product `p` in the given item list. */
  function ReviewsOf(items: seq<OrderItem>, p: nat): (r: seq<OrderItem>)
    ensures forall x :: x in r <==> x in items && x.productId == p && x.reviewedAt.Some?
    ensures forall x :: multiset(r)[x] == if x.productId == p && x.reviewedAt.Some? then multiset(items)[x] else 0
    ensures multiset(r) <= multiset(items)
    decreases |items|
  {
    if items == [] then []
    else
      var rest := ReviewsOf(items[1..], p);
      assert items == [items[0]] + items[1..];
      if items[0].productId == p && items[0].reviewedAt.Some? then [items[0]] + rest else rest
  }

  /** Every order item of every order. */
  function AllItems(orders: seq<Order>): seq<OrderItem>
    decreases |orders|
  {
    if orders == [] then [] else orders[0].items + AllItems(orders[1..])
  }

  /** An element of the tail of `s` sits at some index of `s` past the first. */
  lemma InTail(s: seq<OrderItem>, y: OrderItem)
    requires |s| > 0 && y in multiset(s[1..])
    ensures exists m :: 1 <= m < |s| && s[m] == y
  {
    var m :| 0 <= m < |s[1..]| && s[1..][m] == y;
    assert s[m + 1] == y;
  }

  /** Putting `s[0]` in front of a newest-first list that holds the rest of `s`
      and an item older than `s[0]` keeps the list newest-first. */
  lemma {:induction false} ConsNewest(x: OrderItem, s: seq<OrderItem>, rest: seq<OrderItem>)
    requires Newest(s) && |s| > 0 && ReviewedAt(x) < ReviewedAt(s[0])
    requires Newest(rest) && multiset(rest) == multiset(s[1..]) + multiset{x}
    ensures Newest([s[0]] + rest)
  {
    var r := [s[0]] + rest;
    forall i, j | 0 <= i < j < |r|
      ensures ReviewedAt(r[i]) >= ReviewedAt(r[j])
    {
      if i == 0 {
        var y := rest[j - 1];
        assert y in multiset(rest);
        if y != x {
          InTail(s, y);
        }
      } else {
        assert r[i] == rest[i - 1] && r[j] == rest[j - 1];
      }
    }
  }

  function Insert(x: OrderItem, s: seq<OrderItem>): (r: seq<OrderItem>)
    requires Newest(s)
    ensures Newest(r) && multiset(r) == multiset(s) + multiset{x}
    decreases |s|
  {
    if s == [] || ReviewedAt(x) >= ReviewedAt(s[0]) then [x] + s
    else
      var rest := Insert(x, s[1..]);
      assert s == [s[0]] + s[1..];
      ConsNewest(x, s, rest);
      [s[0]] + rest
  }

  /** The items from newest to oldest review. */
  function SortNewest(s: seq<OrderItem>): (r: seq<OrderItem>)
    ensures Newest(r) && multiset(r) == multiset(s)
    decreases |s|
  {
    if s == [] then []
    else
      assert s == [s[0]] + s[1..];
      Insert(s[0], SortNewest(s[1..]))
  }

  /** The most recent reviews the product page shows. */
  const ReviewLimit := 10

  /** Cutting a newest-first arrangement of `all` after `n` keeps part of `all`
      and leaves nothing behind that is newer than what was kept. */
  lemma {:induction false} PrefixIsNewest(all: seq<OrderItem>, sorted: seq<OrderItem>, n: nat)
    requires Newest(sorted) && multiset(sorted) == multiset(all) && n <= |sorted|
    ensures Newest(sorted[..n]) && multiset(sorted[..n]) <= multiset(all)
    ensures n == |sorted| ==> multiset(sorted[..n]) == multiset(all)
    ensures forall x :: x in sorted[..n] ==> x in all
    ensures forall x, k :: x in multiset(all) - multiset(sorted[..n]) && 0 <= k < n ==>
      ReviewedAt(x) <= ReviewedAt(sorted[..n][k])
  {
    var r := sorted[..n];
    assert sorted == r + sorted[n..];
    assert multiset(sorted) == multiset(r) + multiset(sorted[n..]);
    forall x | x in r ensures x in all {
      assert x in multiset(sorted);
    }
    forall x, k | x in multiset(all) - multiset(r) && 0 <= k < n
      ensures ReviewedAt(x) <= ReviewedAt(r[k])
    {
      assert x in multiset(sorted[n..]);
      var m :| 0 <= m < |sorted[n..]| && sorted[n..][m] == x;
      assert sorted[n + m] == x;
    }
  }

  /** The reviews `show` lists: reviewed items of product `p`, newest first, at
      most ten, and no review left out is newer than one shown. */
  function ShownReviews(orders: seq<Order>, p: nat): (r: seq<OrderItem>)
    ensures |r| <= ReviewLimit && Newest(r)
    ensures forall x :: x in r ==> x.productId == p && x.reviewedAt.Some?
    ensures multiset(r) <= multiset(ReviewsOf(AllItems(orders), p))
    ensures |r| == ReviewLimit || multiset(r) == multiset(ReviewsOf(AllItems(orders), p))
    ensures forall x, k :: x in multiset(ReviewsOf(AllItems(orders), p)) - multiset(r) && 0 <= k < |r| ==>
      ReviewedAt(x) <= ReviewedAt(r[k])
  {
    var all := ReviewsOf(AllItems(orders), p);
    var sorted := SortNewest(all);
    var n := if |sorted| < ReviewLimit then |sorted| else ReviewLimit;
    PrefixIsNewest(all, sorted, n);
    sorted[..n]
  }

  /** `show`: a product not on sale is refused; otherwise the page.
      `favorites` is None for a visitor not signed in. */
  function Show(products: seq<Product>, p: nat, favorites: Option<seq<nat>>, orders: seq<Order>): (r: Result<ShowPage, Error>)
    requires p < |products|
    ensures r.Err? <==> !products[p].onSale
    ensures r.Ok? ==> (r.value.favored <==> favorites.Some? && p in favorites.value)
    ensures r.Ok? ==> r.value.reviews == ShownReviews(orders, p)
  {
    if !products[p].onSale then Err(NotOnSale)
    else Ok(ShowPage(favorites.Some? && p in favorites.value, ShownReviews(orders, p)))
  }

  predicate NoDuplicates(s: seq<nat>) {
    forall i, j :: 0 <= i < j < |s| ==> s[i] != s[j]
  }

  /** `s` without any row for `p`: the DELETE that `detach` runs. */
  function Without(s: seq<nat>, p: nat): (r: seq<nat>)
    ensures forall x :: x in r <==> x in s && x != p
    ensures NoDuplicates(s) ==> NoDuplicates(r)
    decreases |s|
  {
    if s == [] then []
    else
      var rest := Without(s[1..], p);
      assert forall x :: x in s[1..] ==> x in s;
      assert NoDuplicates(s) ==> NoDuplicates(s[1..]) && s[0] !in s[1..] by {
        if NoDuplicates(s) {
          forall i, j | 0 <= i < j < |s[1..]| ensures s[1..][i] != s[1..][j] {
            assert s[1..][i] == s[i + 1] && s[1..][j] == s[j + 1];
          }
        }
      }
      if s[0] == p then rest else [s[0]] + rest
  }

  /** Detaching a product that was just attached gives back the rows as they
      were: `disfavor` undoes `favor`. */
  lemma {:induction false} DisfavorUndoesFavor(s: seq<nat>, p: nat)
    requires p !in s
    ensures Without(s + [p], p) == s
    decreases |s|
  {
    if s == [] {
      assert [] + [p] == [p];
    } else {
      assert (s + [p])[1..] == s[1..] + [p];
      DisfavorUndoesFavor(s[1..], p);
    }
  }

  /** One user's favourite products: the rows of the pivot table, in the order
      they were attached. */
  class Favorites {
    var rows: seq<nat>

    ghost predicate Valid()
      reads this
    {
      NoDuplicates(rows)
    }

    ghost function Products(): set<nat>
      reads this
    {
      set x | x in rows
    }

    constructor ()
      ensures Valid() && rows == []
    {
      rows := [];
    }

    /** `favor`: a product already favoured is left alone, so the pivot table
        never holds a product twice; otherwise it is attached. */
    method Favor(p: nat)
      requires Valid()
      modifies this
      ensures Valid()
      ensures Products() == old(Products()) + {p}
      ensures p in old(rows) ==> rows == old(rows)
      ensures p !in old(rows) ==> rows == old(rows) + [p]
    {
      if p in rows {
        return;
      }
      rows := rows + [p];
    }

    /** `disfavor`: the product's rows are detached. */
    method Disfavor(p: nat)
      requires Valid()
      modifies this
      ensures Valid()
      ensures Products() == old(Products()) - {p}
      ensures rows == Without(old(rows), p)
    {
      rows := Without(rows, p);
    }
  }
}
