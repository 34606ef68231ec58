# Product catalog list logic, modelled in Dafny

This model covers the list logic of a small React catalog browser. The app fetches products from a REST
API. The user can narrow them to a category, sort them by price or rating, and search titles. The real
logic lives in a few hooks and JSX expressions. Each is restated here as a pure function over
`seq<Product>`, and its properties are proved:

- `Sorting` is the effect of the `useSorting` hook. It copies the list and sorts it by an option
  string (`price-asc`, `price-desc`, `rating-high`, `rating-low`). Any other string keeps the input
  order. ECMA-262 has required `Array.prototype.sort` to be stable since its 2019 edition, so the model
  uses an insertion sort, proved stable (`Sorting.SortByStable`). With a stable sort the result is
  fully determined by the comparator. The comparator `a.k - b.k` (or `b.k - a.k`) returns a non-positive
  value exactly when `a` may stay ahead of `b`. For finite IEEE doubles the sign of the difference
  matches the real comparison, so prices and rates are modelled as exact `real`s.
- `CategoryFilter` is the `useCategoryFilter` hook. It builds the category list with
  `Array.from(new Set(...))`, which gives insertion order and no repeats. With the empty selection the
  hook passes the full product list through. The list fetched for a non-empty category is an opaque
  input.
- `Search` is the title filter in the list view. It keeps a product when its lower-cased title contains
  the lower-cased query.
- `ProductListView` holds the rest of the list view's logic:
  - the category label capitaliser;
  - the `value.split("-")` destructuring of the sort dropdown;
  - the five-star fill rule `i < Math.round(rate)`;
  - the composed rows (category filter, then sort, then search).
- `Text` holds the runtime string operations the views use: ASCII `toLowerCase`/`toUpperCase`,
  `includes`, and `split` on one separator character. It also defines `Join`, which no view calls:
  it is the inverse of `Split`, used to prove what the split pieces are.
- `Pagination` is the page-button component. It renders one button per page `1..totalPages`,
  highlights the current page, and passes the clicked page to `onPageChange`.

The list view and the sorting hook disagree, and the model keeps each as written. The view
destructures `sortKey`, `sortOrder` and `toggleSort` from `useSorting`, and its menu offers `rating-asc`
and `rating-desc`. The hook returns only `sortedProducts`, `sortOption` and `setSortOption`, and it
recognises `rating-high` and `rating-low`. Nothing in the view can call `setSortOption`, so the hook's
option stays at its initial `""`. The rows the view renders therefore keep the category-filtered order
(`ProductListView.RowsIgnoreSort`). The menu's two rating values would not be recognised by the hook
either (`ProductListView.MenuRatingValuesKeepOrder`).

A proved fact not stated anywhere in the source: the title search commutes with the stable sort
(`ProductListView.SearchCommutesWithSort`). So for sort and search, the pipeline order does not change
the rows shown.

## Model

| member | source | states |
|---|---|---|
| Sorting.SortProducts | src/hooks/useSorting.ts:8-22 | the result is a permutation of the input (equal multisets); `price-asc` gives non-decreasing prices, `price-desc` non-increasing prices, `rating-high` non-increasing rates, `rating-low` non-decreasing rates; any other option returns the input in its original order |
| Sorting.ParseSortOption | src/hooks/useSorting.ts:11-18 | exactly the four strings `price-asc`, `price-desc`, `rating-high`, `rating-low` select a sort; the two `price-` options sort by price, the others by rate; `price-asc` and `rating-low` are ascending, the other two descending |
| Sorting.Compare | src/hooks/useSorting.ts:12-18 | definition only: the four comparator lambdas, `a.k - b.k` ascending and `b.k - a.k` descending |
| Sorting.SortBy | src/hooks/useSorting.ts:11-18 | sorting by a comparator returns a permutation of the input in which every pair of positions is in comparator order |
| Sorting.Insert | src/hooks/useSorting.ts:12 | one insertion step adds exactly the inserted product to the multiset of the list |
| Sorting.InsertSorted | src/hooks/useSorting.ts:11-18 | inserting into a list in comparator order keeps it in comparator order |
| Sorting.OptionOrder | src/hooks/useSorting.ts:11-18 | a list in comparator order for a recognised option has neighbouring prices or rates in the direction that option names |
| Sorting.InsertBehind | src/hooks/useSorting.ts:12 | a product that may not precede the head is inserted behind the head |
| Sorting.SortBySorted | src/hooks/useSorting.ts:11-18 | a list already in comparator order comes back unchanged |
| Sorting.InsertWithKey | src/hooks/useSorting.ts:12 | among products with a given key, an insertion places the inserted product ahead of all that were already in the list and keeps their order |
| Sorting.SortByStable | src/hooks/useSorting.ts:11-18 | the sort is stable: for every key value, the products with that key appear in the output in exactly their input order |
| Sorting.SortProductsStable | src/hooks/useSorting.ts:11-18 | under each recognised option, products tied on the field it sorts by keep their input order |
| Sorting.SortProductsIdempotent | src/hooks/useSorting.ts:11-18 | sorting twice with the same option gives the same list as sorting once |
| CategoryFilter.CategoriesOf | src/hooks/useCategoryFilter.ts:12 | the mapped list has one entry per product, and entry `i` is product `i`'s category |
| CategoryFilter.Dedupe | src/hooks/useCategoryFilter.ts:11-13 | the `Set` round trip has the same members as its input, no repeats, members in order of first occurrence, and is no longer than the input |
| CategoryFilter.UniqueCategories | src/hooks/useCategoryFilter.ts:11-13 | every product's category is listed; every listed category belongs to some product; no category twice; first-seen order; at most one entry per product; no products give no categories |
| CategoryFilter.UniqueCategoriesCharacterised | src/hooks/useCategoryFilter.ts:11-13 | any repeat-free, first-seen-ordered list of exactly the products' categories equals the derived list |
| CategoryFilter.FirstSeenListIsUnique | src/hooks/useCategoryFilter.ts:11-13 | two repeat-free lists with the same members, both in first-seen order, are equal |
| CategoryFilter.FilteredProducts | src/hooks/useCategoryFilter.ts:17-24 | the empty selection (the initial one) yields all products exactly; a non-empty selection yields the fetched list |
| Search.Matches | src/components/ProductList.tsx:36 | definition only: the filter predicate, `includes` of the lower-cased query in the lower-cased title (its meaning is stated by `Search.MatchesIsSubstring`) |
| Search.SearchProducts | src/components/ProductList.tsx:35-37 | the result is an order-preserving subsequence of the input, every kept product matches, and no product occurs more often than in the input |
| Search.SearchCounts | src/components/ProductList.tsx:35-37 | a matching product occurs in the result exactly as often as in the input; a non-matching one does not occur |
| Search.SearchCountsAll | src/components/ProductList.tsx:35-37 | the `Search.SearchCounts` fact for every product at once |
| Search.KeptIffMatches | src/components/ProductList.tsx:35-37 | a product is in the result if and only if it is in the input and matches the query |
| Search.MatchesIsSubstring | src/components/ProductList.tsx:36 | a product matches if and only if the lower-cased query is a substring of the lower-cased title |
| Search.EmptyQueryKeepsAll | src/components/ProductList.tsx:35-37 | the empty query keeps every product, in order |
| Search.CaseInsensitive | src/components/ProductList.tsx:35-37 | two queries with the same lower-case form give the same result |
| Search.NarrowingQueryShrinks | src/components/ProductList.tsx:35-37 | if the old lower-cased query occurs in the new one, the new result is a subsequence of the old result and no longer |
| Products.SubsequenceLength | src/components/ProductList.tsx:35 | a filtered subsequence is never longer than its source |
| Text.Lower | src/components/ProductList.tsx:36 | lower-casing keeps the length, leaves no ASCII capital, changes only capitals, and keeps each character's upper-case form |
| Text.LowerIdempotent | src/components/ProductList.tsx:36 | lower-casing twice equals lower-casing once |
| Text.Includes | src/components/ProductList.tsx:36 | definition only: `String.prototype.includes` as a left-to-right scan of start positions (its meaning is stated by `Text.IncludesIsSubstring`) |
| Text.IncludesIsSubstring | src/components/ProductList.tsx:36 | `includes` is true if and only if the needle occurs at some position of the haystack |
| Text.SubstringTransitive | src/components/ProductList.tsx:36 | a substring of a substring is a substring |
| Text.Split | src/components/ProductList.tsx:76 | splitting gives at least one piece and no piece contains the separator |
| Text.JoinHead | src/components/ProductList.tsx:76 | a join of two or more pieces starts with the first piece, the separator and the second piece |
| Text.JoinSplit | src/components/ProductList.tsx:76 | joining the pieces of a split with the separator gives the original string |
| Text.SplitJoin | src/components/ProductList.tsx:76 | splitting a join of separator-free pieces gives the pieces back |
| ProductListView.CategoryLabel | src/components/ProductList.tsx:66 | the label keeps the length; its first character is the category's, with the same lower-case form and no longer lower-case; the tail is unchanged; `""` maps to `""` |
| ProductListView.LabelKeepsLowerCase | src/components/ProductList.tsx:66 | label and category are equal after lower-casing |
| ProductListView.LabelIdempotent | src/components/ProductList.tsx:66 | capitalising a label again changes nothing |
| ProductListView.ParseSortSelection | src/components/ProductList.tsx:76 | the key is a prefix of the value with no `-`; without a `-` the key is the whole value and the order is absent; with one, the key is the text before the first `-` (the value has `-` right after it), the order is present, has no `-`, `key-order` is a prefix of the value, and the order ends at the end of the value or at the next `-` |
| Text.SplitTail | src/components/ProductList.tsx:76 | when the separator occurs, the pieces after the first are the split of the text behind the first separator |
| Text.SplitSecond | src/components/ProductList.tsx:76 | the second piece runs from the first separator up to the next separator or the end of the string |
| Text.SplitCount | src/components/ProductList.tsx:76 | a string splits into one piece exactly when it has no separator, and then that piece is the whole string; otherwise the first piece is the text before the first separator |
| ProductListView.SelectValue | src/components/ProductList.tsx:74 | definition only: the select's value `${sortKey}-${sortOrder}` (its round trip is stated by `ProductListView.SelectValueRoundTrip`) |
| ProductListView.SelectValueRoundTrip | src/components/ProductList.tsx:74-76 | splitting `key-order` gives back key and order when neither contains `-` |
| ProductListView.MenuRatingValuesKeepOrder | src/components/ProductList.tsx:83-84 | the menu's `rating-asc` and `rating-desc` values leave the product order unchanged in the sorting hook |
| ProductListView.JsRound | src/components/ProductList.tsx:134 | `Math.round` returns the integer `n` with `n - 1/2 <= x < n + 1/2` |
| ProductListView.CountBelow | src/components/ProductList.tsx:130-134 | of `n` positions, those below `k` number `k` clamped to `[0, n]` |
| ProductListView.StarFills | src/components/ProductList.tsx:130-137 | there are five stars; the filled stars form a prefix; their number is `Math.round(rate)` clamped to `[0, 5]` |
| ProductListView.StarsMatchRoundedRate | src/components/ProductList.tsx:130-137 | for a rate in `[0, 5]`, the number of filled stars is the rounded rate |
| ProductListView.ProductRows | src/components/ProductList.tsx:28-37 | every row comes from the category-filtered list; each matching filtered product is a row exactly as often as it occurs in the filtered list, and no other product is; every row matches the query; the rows keep the order of the sorted list, of which they are a subsequence; rows are ordered by price or rate as the sort option names |
| ProductListView.RowsCounts | src/components/ProductList.tsx:35-37 | the sorted-then-searched list holds each matching product exactly as often as the filtered list, and nothing else |
| ProductListView.RowsOrder | src/components/ProductList.tsx:32-37 | searching the sorted list keeps the neighbour order of prices or rates that the sort option names |
| ProductListView.RowsIgnoreSort | src/components/ProductList.tsx:32 | with the hook's initial sort option, which the view cannot change, the rows are the search of the category-filtered list in its own order |
| ProductListView.InitialViewShowsAll | src/components/ProductList.tsx:28-37 | with no category, no sort and no query, the rows are all products in fetch order |
| ProductListView.SearchCommutesWithSort | src/components/ProductList.tsx:32-37 | searching a sorted list equals sorting the search result |
| ProductListView.SearchInsert | src/components/ProductList.tsx:35-37 | searching after an insertion equals inserting into the search result if the product matches, and the search result otherwise |
| Pagination.ButtonCount | src/components/Pagination.tsx:10 | definition only: `ToLength(totalPages)` on integers, negative lengths giving 0 |
| Pagination.Buttons | src/components/Pagination.tsx:10-19 | one button per page, none for `totalPages <= 0`; captions strictly increase and cover exactly `1..totalPages`; keys are pairwise distinct; a click reports the caption's page, which is in `[1, totalPages]`; a button is highlighted exactly when it shows the current page |
| Pagination.Click | src/components/Pagination.tsx:13 | definition only: the page a click on a button passes to `onPageChange` (its value is stated by `Pagination.ClickReportsLabel`) |
| Pagination.ClickReportsLabel | src/components/Pagination.tsx:13-18 | clicking a button passes `onPageChange` its caption, a page in `[1, totalPages]` |
| Pagination.OneHighlighted | src/components/Pagination.tsx:15 | exactly one button is highlighted when `1 <= currentPage <= totalPages`, and none otherwise |
| Pagination.AtMostOneHighlighted | src/components/Pagination.tsx:15 | no two buttons are highlighted together |

## Left out

- The input list is never modified by the sort (`useSorting.ts:9` sorts a copy). Dafny sequences are immutable values, so this holds by construction and needs no member of its own.
- React state, effects and their timing are not modelled. This includes the empty `sortedProducts`/`filteredProducts` before the first effect runs, and the loading flag.
- The network is not modelled. The product list, the fetch for a non-empty category (`useCategoryFilter.ts:22`) and its unguarded response race are opaque inputs. So are the API module's transport-error fallbacks to `[]` and `null`.
- The view's `toggleSort(key, order)` call (`ProductList.tsx:77`) is not modelled. The sorting hook returns no such function, so `sortKey`, `sortOrder` and `toggleSort` are all `undefined` (`ProductList.tsx:32`). The select's value at line 74 is therefore always the string `"undefined-undefined"`, which is `SelectValue("undefined", "undefined")`, and every menu change throws a `TypeError` at line 77 when it calls `undefined`. Only the split before the call is modelled.
- The detail page, the row component and the app root are presentational. Their star rule repeats the list view's, and their `toFixed` display formatting and `price * 0.10` commission are floating-point display concerns.
- Page slicing, the page count and the reset to page 1 are not modelled. No code shown computes them, and the pagination component is not used by the list view.
- Text.Lower: case mapping covers ASCII only. Unicode case folding, which can change a string's length, is not modelled. The same holds for `ProductListView.CategoryLabel`.
- Pagination.Buttons: `totalPages` and `currentPage` are modelled as unbounded integers. A fractional `totalPages`, which `ToLength` truncates, is not modelled. Neither is the `RangeError` that `Array.from` throws for `totalPages >= 2^32`, where the array it builds cannot hold that many entries; the model returns that many buttons instead.
- Prices and rates are exact reals. NaN and infinite values, which make the comparator inconsistent, are not modelled.
