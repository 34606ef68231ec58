/** The `ProductList` view: what it derives from the hooks' outputs before rendering. */
module ProductListView {
  import opened Products
  import opened Text
  import opened Sorting
  import opened CategoryFilter
  import opened Search

  /** The dropdown label of a category: first character upper-cased, the rest as is. */
  function CategoryLabel(category: string): (caption: string)
    ensures |caption| == |category|
    ensures category == "" ==> caption == ""
    ensures category != "" ==> !IsLower(caption[0]) && ToLowerChar(caption[0]) == ToLowerChar(category[0])
    ensures category != "" ==> caption[1..] == category[1..]
  {
    if category == "" then "" else [ToUpperChar(category[0])] + category[1..]
  }

  /** The label differs from the category in letter case only. */
  lemma LabelKeepsLowerCase(category: string)
    ensures Lower(CategoryLabel(category)) == Lower(category)
  {
    if category != "" {
      LowerOfUpper(category[0]);
    }
  }

  /** Capitalising a label again changes nothing. */
  lemma LabelIdempotent(category: string)
    ensures CategoryLabel(CategoryLabel(category)) == CategoryLabel(category)
  {
    if category != "" {
      LowerOfUpper(category[0]);
    }
  }

  /** The destructured `[key, order]` of a split sort value; `order` is absent when no `-` occurs. */
  datatype SortSelection = SortSelection(key: string, order: Option<string>)

  /** `const [key, order] = value.split("-")`. */
  function ParseSortSelection(value: string): (sel: SortSelection)
    ensures sel.key <= value
    ensures '-' !in sel.key
    ensures sel.order.Some? <==> '-' in value
    ensures sel.order.Some? ==> '-' !in sel.order.value
    ensures '-' !in value ==> sel.key == value
    ensures '-' in value ==> value[|sel.key|] == '-'
    ensures sel.order.Some? ==> sel.key + "-" + sel.order.value <= value
    ensures sel.order.Some? ==>
      |sel.key| + 1 + |sel.order.value| == |value| || value[|sel.key| + 1 + |sel.order.value|] == '-'
  {
    var parts := Split(value, '-');
    SplitCount(value, '-');
    JoinSplit(value, '-');
    JoinHead(parts, '-');
    SplitSecond(value, '-');
    SortSelection(parts[0], if |parts| >= 2 then Some(parts[1]) else None)
  }

  /** The select's `value`: `${sortKey}-${sortOrder}`. */
  function SelectValue(sortKey: string, sortOrder: string): string
  {
    sortKey + "-" + sortOrder
  }

  /** Splitting the select's value recovers key and order when neither contains `-`. */
  lemma SelectValueRoundTrip(sortKey: string, sortOrder: string)
    requires '-' !in sortKey && '-' !in sortOrder
    ensures ParseSortSelection(SelectValue(sortKey, sortOrder)) == SortSelection(sortKey, Some(sortOrder))
  {
    SplitJoin([sortKey, sortOrder], '-');
    assert Join([sortKey, sortOrder], '-') == SelectValue(sortKey, sortOrder);
  }

  /** The option values of the sort dropdown. */
  const SortMenuValues: seq<string> := ["", "price-asc", "price-desc", "rating-asc", "rating-desc"]

  /** The menu's rating options are not the ones the sorting effect recognises: they keep input order. */
  lemma MenuRatingValuesKeepOrder(products: seq<Product>)
    ensures SortProducts(products, SortMenuValues[3]) == products
    ensures SortProducts(products, SortMenuValues[4]) == products
  {
  }

  /** `Math.round`: the nearest integer, halves rounded toward positive infinity. */
  function JsRound(x: real): (n: int)
    ensures n as real - 0.5 <= x < n as real + 0.5
  {
    (x + 0.5).Floor
  }

  function Clamp(n: int, lo: int, hi: int): int
    requires lo <= hi
  {
    if n < lo then lo else if n > hi then hi else n
  }

  /** The number of filled stars. */
  function CountFilled(stars: seq<bool>): nat
  {
    CountWhere(stars, star => star)
  }

  /** Of `n` positions, those below `k` number `k` clamped to `[0, n]`. */
  lemma {:induction false} CountBelow(n: nat, k: int)
    ensures CountFilled(seq(n, i => i < k)) == Clamp(k, 0, n)
  {
    if n > 0 {
      CountBelow(n - 1, k);
      assert seq(n, i => i < k)[..n - 1] == seq(n - 1, i => i < k);
    }
  }

  /** The five star icons of a rating: star `i` is filled when `i < Math.round(rate)`. */
  function StarFills(rate: real): (stars: seq<bool>)
    ensures |stars| == 5
    ensures forall i, j :: 0 <= i < j < 5 && stars[j] ==> stars[i]
    ensures CountFilled(stars) == Clamp(JsRound(rate), 0, 5)
  {
    CountBelow(5, JsRound(rate));
    seq(5, i => i < JsRound(rate))
  }

  /** For a rate within the API's range `[0, 5]`, the filled stars are the rounded rate. */
  lemma StarsMatchRoundedRate(rate: real)
    requires 0.0 <= rate <= 5.0
    ensures CountFilled(StarFills(rate)) == JsRound(rate)
  {
  }

  /** The sort option the hook starts with; the list view has no way to change it. */
  const InitialSortOption: string := ""

  /** `searchedProducts`: category filter, then sort, then title search. */
  function ProductRows(allProducts: seq<Product>, selectedCategory: string, fetched: seq<Product>,
                       sortOption: string, query: string): (rows: seq<Product>)
    ensures multiset(rows) <= multiset(FilteredProducts(allProducts, selectedCategory, fetched))
    ensures forall p :: multiset(rows)[p]
                     == if Matches(p, query) then multiset(FilteredProducts(allProducts, selectedCategory, fetched))[p] else 0
    ensures forall i :: 0 <= i < |rows| ==> Matches(rows[i], query)
    ensures IsSubsequence(rows, SortProducts(FilteredProducts(allProducts, selectedCategory, fetched), sortOption))
    ensures sortOption == "price-asc" ==> forall i :: 0 <= i < |rows| - 1 ==> rows[i].price <= rows[i + 1].price
    ensures sortOption == "price-desc" ==> forall i :: 0 <= i < |rows| - 1 ==> rows[i].price >= rows[i + 1].price
    ensures sortOption == "rating-high" ==> forall i :: 0 <= i < |rows| - 1 ==> rows[i].rating.rate >= rows[i + 1].rating.rate
    ensures sortOption == "rating-low" ==> forall i :: 0 <= i < |rows| - 1 ==> rows[i].rating.rate <= rows[i + 1].rating.rate
  {
    var filtered := FilteredProducts(allProducts, selectedCategory, fetched);
    RowsCounts(filtered, sortOption, query);
    RowsOrder(filtered, sortOption, query);
    SearchProducts(SortProducts(filtered, sortOption), query)
  }

  /** The rows hold each matching filtered product as often as the filtered list does, and nothing else. */
  lemma RowsCounts(filtered: seq<Product>, sortOption: string, query: string)
    ensures multiset(SearchProducts(SortProducts(filtered, sortOption), query)) <= multiset(filtered)
    ensures forall p :: multiset(SearchProducts(SortProducts(filtered, sortOption), query))[p]
                     == if Matches(p, query) then multiset(filtered)[p] else 0
  {
    SearchCountsAll(SortProducts(filtered, sortOption), query);
  }

  /** Searching keeps the order the sort option asked for. */
  lemma RowsOrder(filtered: seq<Product>, sortOption: string, query: string)
    ensures var rows := SearchProducts(SortProducts(filtered, sortOption), query);
      && (sortOption == "price-asc" ==> forall i :: 0 <= i < |rows| - 1 ==> rows[i].price <= rows[i + 1].price)
      && (sortOption == "price-desc" ==> forall i :: 0 <= i < |rows| - 1 ==> rows[i].price >= rows[i + 1].price)
      && (sortOption == "rating-high" ==> forall i :: 0 <= i < |rows| - 1 ==> rows[i].rating.rate >= rows[i + 1].rating.rate)
      && (sortOption == "rating-low" ==> forall i :: 0 <= i < |rows| - 1 ==> rows[i].rating.rate <= rows[i + 1].rating.rate)
  {
    match ParseSortOption(sortOption)
    case None =>
    case Some((key, dir)) =>
      SearchCommutesWithSort(filtered, query, key, dir);
      OptionOrder(SearchProducts(SortProducts(filtered, sortOption), query), sortOption);
  }

  /** As the view is written, the sort option stays at its initial value, so rows keep the filtered order. */
  lemma RowsIgnoreSort(allProducts: seq<Product>, selectedCategory: string, fetched: seq<Product>, query: string)
    ensures ProductRows(allProducts, selectedCategory, fetched, InitialSortOption, query)
         == SearchProducts(FilteredProducts(allProducts, selectedCategory, fetched), query)
  {
  }

  /** On first render (no category, no sort, no query) every fetched product is a row, in fetch order. */
  lemma InitialViewShowsAll(allProducts: seq<Product>, fetched: seq<Product>)
    ensures ProductRows(allProducts, InitialCategory, fetched, InitialSortOption, "") == allProducts
  {
    EmptyQueryKeepsAll(allProducts);
  }

  /** Search on a sorted list equals sorting the search result: a stable sort commutes with a filter. */
  lemma {:induction false} SearchCommutesWithSort(s: seq<Product>, query: string, key: SortKey, dir: Direction)
    ensures SearchProducts(SortBy(s, key, dir), query) == SortBy(SearchProducts(s, query), key, dir)
  {
    if s != [] {
      var t := SortBy(s[1..], key, dir);
      SearchCommutesWithSort(s[1..], query, key, dir);
      SearchInsert(s[0], t, query, key, dir);
      var hit := SearchProducts(s[1..], query);
      if Matches(s[0], query) {
        assert SearchProducts(s, query) == [s[0]] + hit;
        assert ([s[0]] + hit)[0] == s[0] && ([s[0]] + hit)[1..] == hit;
      } else {
        assert SearchProducts(s, query) == hit;
      }
    }
  }

  /** Searching after an insertion equals inserting into the search result, when the inserted product matches. */
  lemma {:induction false} SearchInsert(x: Product, t: seq<Product>, query: string, key: SortKey, dir: Direction)
    requires Sorted(t, key, dir)
    ensures SearchProducts(Insert(x, t, key, dir), query)
         == if Matches(x, query) then Insert(x, SearchProducts(t, query), key, dir) else SearchProducts(t, query)
  {
    if t == [] {
    } else if InOrder(x, t[0], key, dir) {
      SearchInsertFront(x, t, query, key, dir);
    } else {
      SearchInsert(x, t[1..], query, key, dir);
      SearchInsertBehind(x, t[0], t[1..], query, key, dir);
      assert [t[0]] + t[1..] == t;
    }
  }

  /** The case where `x` goes in front of a sorted list. */
  lemma SearchInsertFront(x: Product, t: seq<Product>, query: string, key: SortKey, dir: Direction)
    requires Sorted(t, key, dir)
    requires t != [] && InOrder(x, t[0], key, dir)
    ensures SearchProducts(Insert(x, t, key, dir), query)
         == if Matches(x, query) then Insert(x, SearchProducts(t, query), key, dir) else SearchProducts(t, query)
  {
    var hit := SearchProducts(t, query);
    SearchCons(x, t, query);
    if Matches(x, query) {
      forall k | 0 <= k < |hit|
        ensures InOrder(x, hit[k], key, dir)
      {
        assert hit[k] in multiset(hit);
        assert hit[k] in t;
      }
      InsertFront(x, hit, key, dir);
    }
  }

  /** The case where `x` goes behind the head `h` of a sorted list. */
  lemma SearchInsertBehind(x: Product, h: Product, tail: seq<Product>, query: string, key: SortKey, dir: Direction)
    requires !InOrder(x, h, key, dir)
    requires SearchProducts(Insert(x, tail, key, dir), query)
          == if Matches(x, query) then Insert(x, SearchProducts(tail, query), key, dir) else SearchProducts(tail, query)
    ensures SearchProducts(Insert(x, [h] + tail, key, dir), query)
         == if Matches(x, query) then Insert(x, SearchProducts([h] + tail, query), key, dir) else SearchProducts([h] + tail, query)
  {
    var rest := Insert(x, tail, key, dir);
    InsertBehind(x, h, tail, key, dir);
    SearchCons(h, rest, query);
    SearchCons(h, tail, query);
    if Matches(x, query) {
      InsertBehindHead(x, SearchProducts([h], query), SearchProducts(tail, query), key, dir);
    }
  }

  /** A head that the product may not precede, or no head at all, stays in front of the insertion. */
  lemma InsertBehindHead(x: Product, head: seq<Product>, u: seq<Product>, key: SortKey, dir: Direction)
    requires head == [] || (|head| == 1 && !InOrder(x, head[0], key, dir))
    ensures Insert(x, head + u, key, dir) == head + Insert(x, u, key, dir)
  {
    if head != [] {
      InsertBehind(x, head[0], u, key, dir);
      assert head == [head[0]];
    } else {
      assert head + u == u;
    }
  }
}
