/** The catalog's value objects, as the product API delivers them. */
module Products {

  /** A value that may be absent (a JavaScript `undefined`). */
  datatype Option<T> = None | Some(value: T)

  /** Average score and number of reviews. */
  datatype Rating = Rating(rate: real, count: int)

  /** One catalog entry. Prices and rates are exact reals; the model never rounds them. */
  datatype Product = Product(
    id: int,
    title: string,
    price: real,
    description: string,
    category: string,
    image: string,
    rating: Rating)

  /** `a` is obtained from `b` by deleting elements, keeping the order of the rest. */
  ghost predicate IsSubsequence<T>(a: seq<T>, b: seq<T>)
    decreases |b|
  {
    a == [] || (b != [] && ((a[0] == b[0] && IsSubsequence(a[1..], b[1..])) || IsSubsequence(a, b[1..])))
  }

  /** A subsequence of a list is still one after a new head is put in front. */
  lemma {:induction false} SubsequenceSkip<T>(a: seq<T>, b: seq<T>, h: T)
    requires IsSubsequence(a, b)
    ensures IsSubsequence(a, [h] + b)
  {
    assert ([h] + b)[1..] == b;
  }

  /** A subsequence is never longer than the list it is drawn from. */
  lemma {:induction false} SubsequenceLength<T>(a: seq<T>, b: seq<T>)
    requires IsSubsequence(a, b)
    ensures |a| <= |b|
    decreases |b|
  {
    if a != [] {
      if a[0] == b[0] && IsSubsequence(a[1..], b[1..]) {
        SubsequenceLength(a[1..], b[1..]);
      } else {
        SubsequenceLength(a, b[1..]);
      }
    }
  }

  /** The number of entries that satisfy `keep`. */
  function CountWhere<T>(s: seq<T>, keep: T -> bool): nat
  {
    if s == [] then 0
    else CountWhere(s[..|s| - 1], keep) + (if keep(s[|s| - 1]) then 1 else 0)
  }
}
