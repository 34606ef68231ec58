/** The `useCategoryFilter` hook: the category list for the dropdown and the category-narrowed products. */
module CategoryFilter {
  import opened Products

  /** `allProducts.map(product => product.category)`. */
  function CategoriesOf(ps: seq<Product>): (cs: seq<string>)
    ensures |cs| == |ps|
    ensures forall i :: 0 <= i < |ps| ==> cs[i] == ps[i].category
  {
    seq(|ps|, i requires 0 <= i < |ps| => ps[i].category)
  }

  /** The position of the first occurrence of `x`. */
  function FirstIndexOf<T(==)>(xs: seq<T>, x: T): (k: nat)
    requires x in xs
    ensures k < |xs| && xs[k] == x && x !in xs[..k]
  {
    if xs[0] == x then 0 else 1 + FirstIndexOf(xs[1..], x)
  }

  ghost predicate NoDuplicates<T>(xs: seq<T>)
  {
    forall i, j :: 0 <= i < j < |xs| ==> xs[i] != xs[j]
  }

  /** The entries of `r` appear in the order in which they are first met in `xs`. */
  ghost predicate FirstSeenOrder<T>(xs: seq<T>, r: seq<T>)
  {
    forall i, j :: 0 <= i < j < |r| ==> r[i] in xs && r[j] in xs && FirstIndexOf(xs, r[i]) < FirstIndexOf(xs, r[j])
  }

  /** Appending an element does not move the first occurrence of one already present. */
  lemma {:induction false} FirstIndexOfAppend<T>(xs: seq<T>, y: T, x: T)
    requires x in xs
    ensures FirstIndexOf(xs + [y], x) == FirstIndexOf(xs, x)
  {
    if xs[0] != x {
      assert (xs + [y])[1..] == xs[1..] + [y];
      FirstIndexOfAppend(xs[1..], y, x);
    }
  }

  /** `Array.from(new Set(xs))`: a `Set` keeps its members in insertion order and ignores repeats. */
  function Dedupe(xs: seq<string>): (r: seq<string>)
    ensures forall x :: x in r <==> x in xs
    ensures NoDuplicates(r)
    ensures FirstSeenOrder(xs, r)
    ensures |r| <= |xs|
  {
    if xs == [] then []
    else
      var init := xs[..|xs| - 1];
      var x := xs[|xs| - 1];
      assert xs == init + [x];
      var d := Dedupe(init);
      if x in d then d
      else
        AppendNewMember(init, x, d);
        d + [x]
  }

  /** Adding a member not seen before at the end keeps the list repeat-free and first-seen-ordered. */
  lemma AppendNewMember(init: seq<string>, x: string, d: seq<string>)
    requires forall y :: y in d <==> y in init
    requires NoDuplicates(d) && FirstSeenOrder(init, d)
    requires x !in d
    ensures forall y :: y in d + [x] <==> y in init + [x]
    ensures NoDuplicates(d + [x])
    ensures FirstSeenOrder(init + [x], d + [x])
  {
    var xs := init + [x];
    var r := d + [x];
    forall k | 0 <= k < |d|
      ensures d[k] in init && FirstIndexOf(xs, d[k]) == FirstIndexOf(init, d[k]) < |init|
    {
      assert d[k] in d;
      FirstIndexOfAppend(init, x, d[k]);
    }
    assert xs[..|init|] == init;
    assert FirstIndexOf(xs, x) == |init|;
    forall i, j | 0 <= i < j < |r|
      ensures r[i] in xs && r[j] in xs && FirstIndexOf(xs, r[i]) < FirstIndexOf(xs, r[j])
    {
      assert r[i] == d[i];
      if j < |d| {
        assert r[j] == d[j];
      }
    }
  }

  /** The dropdown's categories: each product's category once, in first-seen order. */
  function UniqueCategories(allProducts: seq<Product>): (categories: seq<string>)
    ensures forall i :: 0 <= i < |allProducts| ==> allProducts[i].category in categories
    ensures forall c :: c in categories ==> exists i :: 0 <= i < |allProducts| && allProducts[i].category == c
    ensures NoDuplicates(categories)
    ensures FirstSeenOrder(CategoriesOf(allProducts), categories)
    ensures |categories| <= |allProducts|
    ensures allProducts == [] ==> categories == []
  {
    var cs := CategoriesOf(allProducts);
    var r := Dedupe(cs);
    assert forall c :: c in r ==> exists i :: 0 <= i < |cs| && cs[i] == c;
    r
  }

  /** The head of a first-seen-ordered list has the earliest first occurrence of all its entries. */
  lemma HeadIsEarliest(xs: seq<string>, a: seq<string>)
    requires a != [] && a[0] in xs && FirstSeenOrder(xs, a)
    ensures forall y :: y in a ==> y in xs && FirstIndexOf(xs, a[0]) <= FirstIndexOf(xs, y)
  {
    forall y | y in a
      ensures y in xs && FirstIndexOf(xs, a[0]) <= FirstIndexOf(xs, y)
    {
      var k :| 0 <= k < |a| && a[k] == y;
    }
  }

  /** First-seen order and no repeats fix a list of given members: no other order is possible. */
  lemma {:induction false} FirstSeenListIsUnique(xs: seq<string>, a: seq<string>, b: seq<string>)
    requires forall x :: x in a <==> x in b
    requires forall x :: x in a ==> x in xs
    requires NoDuplicates(a) && NoDuplicates(b)
    requires FirstSeenOrder(xs, a) && FirstSeenOrder(xs, b)
    ensures a == b
    decreases |a|
  {
    assert a != [] ==> a[0] in b;
    assert b != [] ==> b[0] in a;
    if a != [] {
      // Both heads are the member whose first occurrence comes earliest.
      HeadIsEarliest(xs, a);
      HeadIsEarliest(xs, b);
      var k := FirstIndexOf(xs, a[0]);
      assert FirstIndexOf(xs, b[0]) == k;
      assert a[0] == xs[k] == b[0];
      FirstSeenTail(xs, a);
      FirstSeenTail(xs, b);
      assert a == [a[0]] + a[1..];
      assert b == [b[0]] + b[1..];
      forall x | x in a[1..] ensures x in b[1..] {
        assert x in a && x != a[0];
      }
      forall x | x in b[1..] ensures x in a[1..] {
        assert x in b && x != b[0];
      }
      FirstSeenListIsUnique(xs, a[1..], b[1..]);
    }
  }

  /** Dropping the head of a repeat-free, first-seen-ordered list keeps both properties. */
  lemma FirstSeenTail(xs: seq<string>, a: seq<string>)
    requires a != []
    requires NoDuplicates(a) && FirstSeenOrder(xs, a)
    ensures NoDuplicates(a[1..]) && FirstSeenOrder(xs, a[1..])
    ensures a[0] !in a[1..]
  {
    forall k | 0 <= k < |a[1..]|
      ensures a[1..][k] != a[0]
    {
      assert a[1..][k] == a[k + 1];
    }
  }

  /** The category list is the only repeat-free, first-seen-ordered list of the products' categories. */
  lemma UniqueCategoriesCharacterised(allProducts: seq<Product>, categories: seq<string>)
    requires forall c :: c in categories <==> c in CategoriesOf(allProducts)
    requires NoDuplicates(categories)
    requires FirstSeenOrder(CategoriesOf(allProducts), categories)
    ensures categories == UniqueCategories(allProducts)
  {
    var cs := CategoriesOf(allProducts);
    FirstSeenListIsUnique(cs, categories, Dedupe(cs));
  }

  /** `filteredProducts`: the whole list for the empty selection, otherwise what the category fetch returned. */
  function FilteredProducts(allProducts: seq<Product>, selectedCategory: string, fetched: seq<Product>): (r: seq<Product>)
    ensures selectedCategory == "" ==> r == allProducts
    ensures selectedCategory != "" ==> r == fetched
  {
    if selectedCategory == "" then allProducts else fetched
  }

  /** The selection the hook starts with. */
  const InitialCategory: string := ""
}
