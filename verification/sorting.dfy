/** The `useSorting` hook: the effect that copies the product list and sorts it by the chosen option. */
module Sorting {
  import opened Products

  /** The numeric field a comparator reads. */
  datatype SortKey = Price | Rate

  datatype Direction = Ascending | Descending

  function KeyOf(p: Product, key: SortKey): real
  {
    match key
    case Price => p.price
    case Rate => p.rating.rate
  }

  /** The comparator handed to `Array.prototype.sort`: `a.k - b.k` ascending, `b.k - a.k` descending. */
  function Compare(a: Product, b: Product, key: SortKey, dir: Direction): real
  {
    match dir
    case Ascending => KeyOf(a, key) - KeyOf(b, key)
    case Descending => KeyOf(b, key) - KeyOf(a, key)
  }

  /** A comparator result that is not positive lets `a` stay ahead of `b`. */
  predicate InOrder(a: Product, b: Product, key: SortKey, dir: Direction)
  {
    Compare(a, b, key, dir) <= 0.0
  }

  /** Every pair of positions is in comparator order. */
  ghost predicate Sorted(s: seq<Product>, key: SortKey, dir: Direction)
  {
    forall i, j :: 0 <= i < j < |s| ==> InOrder(s[i], s[j], key, dir)
  }

  /** The option strings the effect recognises, and what each one sorts by. */
  function ParseSortOption(option: string): (parsed: Option<(SortKey, Direction)>)
    ensures parsed.Some? <==> option in ["price-asc", "price-desc", "rating-high", "rating-low"]
    ensures parsed.Some? ==> (parsed.value.0 == Price <==> option in ["price-asc", "price-desc"])
    ensures parsed.Some? ==> (parsed.value.1 == Ascending <==> option in ["price-asc", "rating-low"])
  {
    if option == "price-asc" then Some((Price, Ascending))
    else if option == "price-desc" then Some((Price, Descending))
    else if option == "rating-high" then Some((Rate, Descending))
    else if option == "rating-low" then Some((Rate, Ascending))
    else None
  }

  /** Puts `x` in front of the first element it may precede; equal keys keep `x` first. */
  function Insert(x: Product, t: seq<Product>, key: SortKey, dir: Direction): (r: seq<Product>)
    ensures multiset(r) == multiset(t) + multiset{x}
  {
    if t == [] || InOrder(x, t[0], key, dir) then [x] + t
    else
      assert t == [t[0]] + t[1..];
      [t[0]] + Insert(x, t[1..], key, dir)
  }

  /** Inserting into a sorted list keeps it sorted. */
  lemma {:induction false} InsertSorted(x: Product, t: seq<Product>, key: SortKey, dir: Direction)
    requires Sorted(t, key, dir)
    ensures Sorted(Insert(x, t, key, dir), key, dir)
  {
    if t != [] && !InOrder(x, t[0], key, dir) {
      var rest := Insert(x, t[1..], key, dir);
      InsertSorted(x, t[1..], key, dir);
      forall k | 0 <= k < |rest|
        ensures InOrder(t[0], rest[k], key, dir)
      {
        assert rest[k] in multiset(rest);
        if rest[k] != x {
          assert rest[k] in multiset(t[1..]);
          var m :| 0 <= m < |t[1..]| && t[1..][m] == rest[k];
          assert t[m + 1] == rest[k];
        }
      }
      assert Insert(x, t, key, dir) == [t[0]] + rest;
    }
  }

  /** A stable sort: insertion of each element, from the back, into the sorted rest. */
  function SortBy(s: seq<Product>, key: SortKey, dir: Direction): (r: seq<Product>)
    ensures multiset(r) == multiset(s)
    ensures Sorted(r, key, dir)
  {
    if s == [] then []
    else
      assert s == [s[0]] + s[1..];
      var rest := SortBy(s[1..], key, dir);
      InsertSorted(s[0], rest, key, dir);
      Insert(s[0], rest, key, dir)
  }

  /** The effect body: sort a copy by the option, or leave the copy in input order. */
  function SortProducts(products: seq<Product>, sortOption: string): (r: seq<Product>)
    ensures multiset(r) == multiset(products)
    ensures sortOption == "price-asc" ==> forall i :: 0 <= i < |r| - 1 ==> r[i].price <= r[i + 1].price
    ensures sortOption == "price-desc" ==> forall i :: 0 <= i < |r| - 1 ==> r[i].price >= r[i + 1].price
    ensures sortOption == "rating-high" ==> forall i :: 0 <= i < |r| - 1 ==> r[i].rating.rate >= r[i + 1].rating.rate
    ensures sortOption == "rating-low" ==> forall i :: 0 <= i < |r| - 1 ==> r[i].rating.rate <= r[i + 1].rating.rate
    ensures sortOption !in ["price-asc", "price-desc", "rating-high", "rating-low"] ==> r == products
  {
    match ParseSortOption(sortOption)
    case None => products
    case Some((key, dir)) =>
      var r := SortBy(products, key, dir);
      OptionOrder(r, sortOption);
      r
  }

  /** What a list sorted under a recognised option says about neighbouring prices or rates. */
  lemma OptionOrder(r: seq<Product>, sortOption: string)
    requires ParseSortOption(sortOption).Some?
    requires Sorted(r, ParseSortOption(sortOption).value.0, ParseSortOption(sortOption).value.1)
    ensures sortOption == "price-asc" ==> forall i :: 0 <= i < |r| - 1 ==> r[i].price <= r[i + 1].price
    ensures sortOption == "price-desc" ==> forall i :: 0 <= i < |r| - 1 ==> r[i].price >= r[i + 1].price
    ensures sortOption == "rating-high" ==> forall i :: 0 <= i < |r| - 1 ==> r[i].rating.rate >= r[i + 1].rating.rate
    ensures sortOption == "rating-low" ==> forall i :: 0 <= i < |r| - 1 ==> r[i].rating.rate <= r[i + 1].rating.rate
  {
    var key := ParseSortOption(sortOption).value.0;
    var dir := ParseSortOption(sortOption).value.1;
    forall i | 0 <= i < |r| - 1
      ensures InOrder(r[i], r[i + 1], key, dir)
    {
    }
  }

  /** Inserting an element that may precede everything puts it at the front. */
  lemma InsertFront(x: Product, t: seq<Product>, key: SortKey, dir: Direction)
    requires forall k :: 0 <= k < |t| ==> InOrder(x, t[k], key, dir)
    ensures Insert(x, t, key, dir) == [x] + t
  {
  }

  /** An element that may not precede the head is inserted somewhere behind it. */
  lemma InsertBehind(x: Product, h: Product, u: seq<Product>, key: SortKey, dir: Direction)
    requires !InOrder(x, h, key, dir)
    ensures Insert(x, [h] + u, key, dir) == [h] + Insert(x, u, key, dir)
  {
    assert ([h] + u)[0] == h && ([h] + u)[1..] == u;
  }

  /** Stability on sorted input: a list already in order comes back unchanged. */
  lemma {:induction false} SortBySorted(s: seq<Product>, key: SortKey, dir: Direction)
    requires Sorted(s, key, dir)
    ensures SortBy(s, key, dir) == s
  {
    if s != [] {
      SortBySorted(s[1..], key, dir);
      InsertFront(s[0], s[1..], key, dir);
      assert [s[0]] + s[1..] == s;
    }
  }

  /** The products whose sort field equals `v`, in list order. */
  function WithKey(s: seq<Product>, key: SortKey, v: real): (r: seq<Product>)
    ensures forall k :: 0 <= k < |r| ==> KeyOf(r[k], key) == v
  {
    if s == [] then []
    else (if KeyOf(s[0], key) == v then [s[0]] else []) + WithKey(s[1..], key, v)
  }

  /** `WithKey` of a list with a known head. */
  lemma WithKeyCons(a: Product, u: seq<Product>, key: SortKey, v: real)
    ensures WithKey([a] + u, key, v) == (if KeyOf(a, key) == v then [a] else []) + WithKey(u, key, v)
  {
    assert ([a] + u)[0] == a && ([a] + u)[1..] == u;
  }

  /** A product the comparator ranks behind `y` has a different key from `y`. */
  lemma BehindHasOtherKey(x: Product, y: Product, key: SortKey, dir: Direction)
    requires !InOrder(x, y, key, dir)
    ensures KeyOf(x, key) != KeyOf(y, key)
  {
  }

  /** An insertion passes only elements whose key differs from the inserted one's. */
  lemma {:induction false} InsertWithKey(x: Product, t: seq<Product>, key: SortKey, dir: Direction, v: real)
    ensures WithKey(Insert(x, t, key, dir), key, v) == (if KeyOf(x, key) == v then [x] else []) + WithKey(t, key, v)
  {
    if t == [] || InOrder(x, t[0], key, dir) {
      WithKeyCons(x, t, key, v);
    } else {
      assert t == [t[0]] + t[1..];
      InsertBehind(x, t[0], t[1..], key, dir);
      InsertWithKey(x, t[1..], key, dir, v);
      BehindHasOtherKey(x, t[0], key, dir);
      WithKeyBehind(x, t[0], t[1..], Insert(x, t[1..], key, dir), key, v);
    }
  }

  /** The key filter of `[h] + rest`, where `rest` is `u` with `x` added and `x`'s key is not `h`'s. */
  lemma WithKeyBehind(x: Product, h: Product, u: seq<Product>, rest: seq<Product>, key: SortKey, v: real)
    requires KeyOf(x, key) != KeyOf(h, key)
    requires WithKey(rest, key, v) == (if KeyOf(x, key) == v then [x] else []) + WithKey(u, key, v)
    ensures WithKey([h] + rest, key, v) == (if KeyOf(x, key) == v then [x] else []) + WithKey([h] + u, key, v)
  {
    WithKeyCons(h, rest, key, v);
    WithKeyCons(h, u, key, v);
  }

  /** Stability: products with equal keys, which the comparator ranks as ties, keep their input order. */
  lemma {:induction false} SortByStable(s: seq<Product>, key: SortKey, dir: Direction, v: real)
    ensures WithKey(SortBy(s, key, dir), key, v) == WithKey(s, key, v)
  {
    if s != [] {
      SortByStable(s[1..], key, dir, v);
      InsertWithKey(s[0], SortBy(s[1..], key, dir), key, dir, v);
    }
  }

  /** Under a recognised option, products tied on its field appear in their input order. */
  lemma SortProductsStable(products: seq<Product>, sortOption: string, v: real)
    requires ParseSortOption(sortOption).Some?
    ensures WithKey(SortProducts(products, sortOption), ParseSortOption(sortOption).value.0, v)
         == WithKey(products, ParseSortOption(sortOption).value.0, v)
  {
    var key := ParseSortOption(sortOption).value.0;
    SortByStable(products, key, ParseSortOption(sortOption).value.1, v);
  }

  /** Sorting twice with the same option gives the same list as sorting once. */
  lemma SortProductsIdempotent(products: seq<Product>, sortOption: string)
    ensures SortProducts(SortProducts(products, sortOption), sortOption) == SortProducts(products, sortOption)
  {
    match ParseSortOption(sortOption)
    case None =>
    case Some((key, dir)) => SortBySorted(SortBy(products, key, dir), key, dir);
  }
}
