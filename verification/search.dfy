/** The title search of the product list: case-insensitive substring match on the title. */
module Search {
  import opened Products
  import opened Text

  /** `product.title.toLowerCase().includes(searchQuery.toLowerCase())`. */
  predicate Matches(p: Product, query: string)
  {
    Includes(Lower(p.title), Lower(query))
  }

  /** `sortedProducts.filter(...)`: the matching products, in their original order. */
  function SearchProducts(products: seq<Product>, query: string): (r: seq<Product>)
    ensures IsSubsequence(r, products)
    ensures forall i :: 0 <= i < |r| ==> Matches(r[i], query)
    ensures multiset(r) <= multiset(products)
  {
    if products == [] then []
    else
      var p := products[0];
      var rest := SearchProducts(products[1..], query);
      assert products == [p] + products[1..];
      if Matches(p, query) then
        assert ([p] + rest)[1..] == rest;
        [p] + rest
      else
        SubsequenceSkip(rest, products[1..], p);
        rest
  }

  /** The search of a list with a given head. */
  lemma SearchCons(h: Product, rest: seq<Product>, query: string)
    ensures SearchProducts([h] + rest, query) == SearchProducts([h], query) + SearchProducts(rest, query)
    ensures SearchProducts([h], query) == if Matches(h, query) then [h] else []
  {
    assert ([h] + rest)[0] == h && ([h] + rest)[1..] == rest;
    assert [h][1..] == [];
  }

  /** A matching product is kept as often as it occurs; a non-matching one is dropped. */
  lemma {:induction false} SearchCounts(products: seq<Product>, query: string, p: Product)
    ensures multiset(SearchProducts(products, query))[p] == if Matches(p, query) then multiset(products)[p] else 0
  {
    if products != [] {
      var h := products[0];
      var tail := products[1..];
      SearchCounts(tail, query, p);
      assert products == [h] + tail;
      SearchCons(h, tail, query);
      assert multiset(SearchProducts(products, query)) == multiset(SearchProducts([h], query)) + multiset(SearchProducts(tail, query));
    }
  }

  /** `SearchCounts` for every product at once. */
  lemma SearchCountsAll(products: seq<Product>, query: string)
    ensures forall p :: multiset(SearchProducts(products, query))[p] == if Matches(p, query) then multiset(products)[p] else 0
  {
    forall p
      ensures multiset(SearchProducts(products, query))[p] == if Matches(p, query) then multiset(products)[p] else 0
    {
      SearchCounts(products, query, p);
    }
  }

  /** A product is kept if and only if it is in the input and matches. */
  lemma KeptIffMatches(products: seq<Product>, query: string, p: Product)
    ensures p in SearchProducts(products, query) <==> p in products && Matches(p, query)
  {
    SearchCounts(products, query, p);
    assert p in SearchProducts(products, query) <==> p in multiset(SearchProducts(products, query));
  }

  /** A product matches exactly when its lower-cased title contains the lower-cased query. */
  lemma MatchesIsSubstring(p: Product, query: string)
    ensures Matches(p, query) <==> IsSubstring(Lower(query), Lower(p.title))
  {
    IncludesIsSubstring(Lower(p.title), Lower(query));
  }

  /** The empty query keeps every product, in order. */
  lemma {:induction false} EmptyQueryKeepsAll(products: seq<Product>)
    ensures SearchProducts(products, "") == products
  {
    if products != [] {
      EmptyQueryKeepsAll(products[1..]);
      assert Lower("") == "";
      assert Lower(products[0].title)[..0] == "";
      assert products == [products[0]] + products[1..];
    }
  }

  /** The search only sees the lower-cased query: queries differing in letter case give the same rows. */
  lemma {:induction false} CaseInsensitive(products: seq<Product>, q1: string, q2: string)
    requires Lower(q1) == Lower(q2)
    ensures SearchProducts(products, q1) == SearchProducts(products, q2)
  {
    if products != [] {
      CaseInsensitive(products[1..], q1, q2);
    }
  }

  /** Typing more, so that the old lower-cased query occurs in the new one, can only drop rows. */
  lemma {:induction false} NarrowingQueryShrinks(products: seq<Product>, q1: string, q2: string)
    requires IsSubstring(Lower(q1), Lower(q2))
    ensures IsSubsequence(SearchProducts(products, q2), SearchProducts(products, q1))
    ensures |SearchProducts(products, q2)| <= |SearchProducts(products, q1)|
  {
    if products != [] {
      var p := products[0];
      NarrowingQueryShrinks(products[1..], q1, q2);
      MatchesIsSubstring(p, q1);
      MatchesIsSubstring(p, q2);
      if Matches(p, q2) {
        SubstringTransitive(Lower(q1), Lower(q2), Lower(p.title));
        var r2 := SearchProducts(products, q2);
        assert r2 == [p] + SearchProducts(products[1..], q2);
        assert SearchProducts(products, q1) == [p] + SearchProducts(products[1..], q1);
        assert r2[1..] == SearchProducts(products[1..], q2);
      } else if Matches(p, q1) {
        assert SearchProducts(products, q2) == SearchProducts(products[1..], q2);
        assert SearchProducts(products, q1) == [p] + SearchProducts(products[1..], q1);
        SubsequenceSkip(SearchProducts(products, q2), SearchProducts(products[1..], q1), p);
      }
    }
    SubsequenceLength(SearchProducts(products, q2), SearchProducts(products, q1));
  }
}
