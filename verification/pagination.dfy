/** The `Pagination` component: one button per page, the current one highlighted. */
module Pagination {
  import opened Products

  /** A rendered button: its React key, its caption (the page number shown), the page its click hands to `onPageChange`, and its highlight. */
  datatype PageButton = PageButton(key: int, caption: int, clickPage: int, highlighted: bool)

  /** `Array.from({ length: totalPages })` has `ToLength(totalPages)` entries: negative lengths become 0. */
  function ButtonCount(totalPages: int): nat
  {
    if totalPages < 0 then 0 else totalPages
  }

  /** The button for the zero-based position `index`. */
  function ButtonAt(index: nat, currentPage: int): PageButton
  {
    PageButton(index + 1, index + 1, index + 1, currentPage == index + 1)
  }

  /** Some button shows page `p`. */
  ghost predicate HasButtonFor(bs: seq<PageButton>, p: int)
  {
    exists i :: 0 <= i < |bs| && bs[i].caption == p
  }

  /** The buttons, in rendering order. */
  function Buttons(totalPages: int, currentPage: int): (bs: seq<PageButton>)
    ensures |bs| == ButtonCount(totalPages)
    ensures totalPages <= 0 ==> bs == []
    ensures forall i, j :: 0 <= i < j < |bs| ==> bs[i].caption < bs[j].caption
    ensures forall i, j :: 0 <= i < j < |bs| ==> bs[i].key != bs[j].key
    ensures forall p :: 1 <= p <= totalPages <==> HasButtonFor(bs, p)
    ensures forall i :: 0 <= i < |bs| ==> bs[i].clickPage == bs[i].caption && 1 <= bs[i].clickPage <= totalPages
    ensures forall i :: 0 <= i < |bs| ==> (bs[i].highlighted <==> bs[i].caption == currentPage)
  {
    var bs := seq(ButtonCount(totalPages), i requires 0 <= i => ButtonAt(i, currentPage));
    forall p | 1 <= p <= totalPages
      ensures HasButtonFor(bs, p)
    {
      assert bs[p - 1].caption == p;
    }
    bs
  }

  /** The page `onPageChange` receives when the button at `index` is clicked. */
  function Click(bs: seq<PageButton>, index: nat): (page: int)
    requires index < |bs|
  {
    bs[index].clickPage
  }

  /** Clicking the button labelled `p` reports page `p`, and only pages that exist are reported. */
  lemma ClickReportsLabel(totalPages: int, currentPage: int, index: nat)
    requires index < |Buttons(totalPages, currentPage)|
    ensures Click(Buttons(totalPages, currentPage), index) == Buttons(totalPages, currentPage)[index].caption
    ensures 1 <= Click(Buttons(totalPages, currentPage), index) <= totalPages
  {
  }

  /** The number of highlighted buttons. */
  function CountHighlighted(bs: seq<PageButton>): nat
  {
    CountWhere(bs, (b: PageButton) => b.highlighted)
  }

  /** Exactly one button is highlighted when the current page exists, none otherwise. */
  lemma {:induction false} OneHighlighted(totalPages: int, currentPage: int)
    ensures CountHighlighted(Buttons(totalPages, currentPage)) == if 1 <= currentPage <= totalPages then 1 else 0
    decreases ButtonCount(totalPages)
  {
    var bs := Buttons(totalPages, currentPage);
    if totalPages > 0 {
      OneHighlighted(totalPages - 1, currentPage);
      assert bs[..|bs| - 1] == Buttons(totalPages - 1, currentPage);
    }
  }

  /** No two buttons are highlighted together. */
  lemma AtMostOneHighlighted(totalPages: int, currentPage: int, i: nat, j: nat)
    requires i < j < |Buttons(totalPages, currentPage)|
    ensures !(Buttons(totalPages, currentPage)[i].highlighted && Buttons(totalPages, currentPage)[j].highlighted)
  {
  }
}
