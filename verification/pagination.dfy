/** The range calculation of the navigation-buttons component: which page
    numbers and ellipsis markers the strip shows for a current page and a
    page count. Both inputs are arbitrary integers; nothing here clamps them. */
module Pagination {

  /** The integer the component puts in its output list to stand for an ellipsis. */
  const EllipsisSentinel: int := -1

  /** The most page-number buttons shown before pages start to be elided. */
  const MaxButtonCount: int := 6

  /** One unit of the strip: a page number, or a marker for elided pages. */
  datatype Token = Page(n: int) | Ellipsis

  function Max(a: int, b: int): (r: int) { if a >= b then a else b }

  function Min(a: int, b: int): (r: int) { if a <= b then a else b }

  /** `count` consecutive page tokens starting at `first`, as `Array.from`
      builds them; a count of zero or less gives no tokens. */
  function PageRun(first: int, count: int): (r: seq<Token>)
    decreases count
    ensures |r| == Max(count, 0)
    ensures forall i :: 0 <= i < |r| ==> r[i] == Page(first + i)
  {
    if count <= 0 then [] else [Page(first)] + PageRun(first + 1, count - 1)
  }

  // ---------------------------------------------------------------------
  // Shape of a well-formed strip
  // ---------------------------------------------------------------------

  /** Every page token lies in `lo..hi`. */
  predicate PagesWithin(r: seq<Token>, lo: int, hi: int) {
    forall i :: 0 <= i < |r| && r[i].Page? ==> lo <= r[i].n <= hi
  }

  /** Page numbers strictly increase from left to right. */
  predicate PagesIncreasing(r: seq<Token>) {
    forall i, j :: 0 <= i < j < |r| && r[i].Page? && r[j].Page? ==> r[i].n < r[j].n
  }

  /** Two page tokens side by side are consecutive pages. */
  predicate NeighboursConsecutive(r: seq<Token>) {
    forall i :: 0 <= i < |r| - 1 && r[i].Page? && r[i + 1].Page? ==> r[i + 1].n == r[i].n + 1
  }

  /** Every ellipsis sits between two page tokens and stands for at least one
      page that is not shown. */
  predicate EllipsesHidePages(r: seq<Token>) {
    forall i :: 0 <= i < |r| && r[i].Ellipsis? ==>
      0 < i < |r| - 1 && r[i - 1].Page? && r[i + 1].Page? && r[i + 1].n - r[i - 1].n >= 2
  }

  /** The shape every strip has, whatever the inputs: pages within `1..total`,
      increasing, consecutive where adjacent, and ellipses only where pages are
      hidden. */
  predicate WellFormed(r: seq<Token>, total: int) {
    && PagesWithin(r, 1, total)
    && PagesIncreasing(r)
    && NeighboursConsecutive(r)
    && EllipsesHidePages(r)
  }

  /** The local conditions on neighbouring tokens already order all pages:
      walking left from a page, each step passes a page one lower or an
      ellipsis that skips at least one more. */
  lemma {:induction false} PagesIncreasingFromNeighbours(r: seq<Token>, i: int, j: int)
    requires NeighboursConsecutive(r) && EllipsesHidePages(r)
    requires 0 <= i < j < |r| && r[i].Page? && r[j].Page?
    ensures r[i].n < r[j].n
    decreases j - i
  {
    if r[j - 1].Page? {
      if j - 1 > i {
        PagesIncreasingFromNeighbours(r, i, j - 1);
      }
    } else {
      assert r[j - 2].Page? && r[j].n - r[j - 2].n >= 2;
      if j - 2 > i {
        PagesIncreasingFromNeighbours(r, i, j - 2);
      }
    }
  }

  /** A strip whose pages lie in range and whose neighbouring tokens fit
      together is well formed. */
  lemma WellFormedFromNeighbours(r: seq<Token>, total: int)
    requires PagesWithin(r, 1, total) && NeighboursConsecutive(r) && EllipsesHidePages(r)
    ensures WellFormed(r, total)
  {
    forall i, j | 0 <= i < j < |r| && r[i].Page? && r[j].Page?
      ensures r[i].n < r[j].n
    {
      PagesIncreasingFromNeighbours(r, i, j);
    }
  }

  /** What a caller may rely on for the current page: it is shown exactly when
      it is a real page, and so are its neighbours. */
  predicate ShowsNeighbourhood(r: seq<Token>, current: int, total: int) {
    && (Page(current) in r <==> 1 <= current <= total)
    && (1 <= current <= total ==>
          (current > 1 ==> Page(current - 1) in r) &&
          (current < total ==> Page(current + 1) in r))
  }

  // ---------------------------------------------------------------------
  // The calculation
  // ---------------------------------------------------------------------

  /** Ellipses, if any, sit only second or second to last. */
  predicate EllipsesInnerOnly(r: seq<Token>) {
    forall i :: 0 <= i < |r| && r[i].Ellipsis? ==> i == 1 || i == |r| - 2
  }

  /** The seven-token outline shared by every branch for more than six pages. */
  predicate LongOutline(r: seq<Token>, total: int) {
    && |r| == MaxButtonCount + 1
    && r[0] == Page(1)
    && r[|r| - 1] == Page(total)
    && Ellipsis in r
    && EllipsesInnerOnly(r)
  }

  /** The head strip: the first five pages, an ellipsis, the last page. */
  function HeadTokens(total: int): (r: seq<Token>) {
    [Page(1), Page(2), Page(3), Page(4), Page(5), Ellipsis, Page(total)]
  }

  /** The tail strip: the first page, an ellipsis, the last five pages. */
  function TailTokens(total: int): (r: seq<Token>) {
    [Page(1), Ellipsis, Page(total - 4), Page(total - 3), Page(total - 2), Page(total - 1), Page(total)]
  }

  /** The window strip: the first page, an ellipsis, the window `left, current,
      right`, an ellipsis, the last page. */
  function WindowTokens(left: int, current: int, right: int, total: int): (r: seq<Token>) {
    [Page(1), Ellipsis, Page(left), Page(current), Page(right), Ellipsis, Page(total)]
  }

  /** The strip for `currentPage` out of `totalPages`. Up to six pages are all
      listed; beyond that the strip has seven tokens: a fixed head of five pages,
      a fixed tail of five pages, or the current page with its two neighbours
      between two ellipses. The last branch returns nothing; the contract's
      length clause shows that no integer input reaches it. */
  function GeneratePagination(currentPage: int, totalPages: int): (r: seq<Token>)
    // Short lists: every page, in order, and no ellipsis.
    ensures totalPages <= MaxButtonCount ==>
      |r| == Max(totalPages, 0) && forall i :: 0 <= i < |r| ==> r[i] == Page(i + 1)
    ensures totalPages <= MaxButtonCount ==> Ellipsis !in r
    // Long lists: seven tokens from page 1 to the last page, with one or two ellipses.
    ensures totalPages > MaxButtonCount ==> LongOutline(r, totalPages)
    // Which strip is chosen: the thresholds `left > 2` and `right < totalPages - 2`
    // select the head for a current page up to 3, the tail from totalPages - 3 on,
    // and the window in between.
    ensures totalPages > MaxButtonCount && currentPage <= 3 ==> r == HeadTokens(totalPages)
    ensures totalPages > MaxButtonCount && currentPage >= totalPages - 3 ==> r == TailTokens(totalPages)
    ensures totalPages > MaxButtonCount && 4 <= currentPage <= totalPages - 4 ==>
      r == WindowTokens(currentPage - 1, currentPage, currentPage + 1, totalPages)
    // For every pair of integers: a well-formed strip around the current page.
    ensures WellFormed(r, totalPages)
    ensures ShowsNeighbourhood(r, currentPage, totalPages)
  {
    if MaxButtonCount >= totalPages then
      ShortStrip(currentPage, totalPages)
    else
      var left := Max(currentPage - 1, 1);
      var right := Min(currentPage + 1, totalPages);
      var showLeftEllipsis := left > 2;
      var showRightEllipsis := right < totalPages - 2;
      if !showLeftEllipsis && showRightEllipsis then
        HeadStrip(currentPage, totalPages)
      else if showLeftEllipsis && !showRightEllipsis then
        TailStrip(currentPage, totalPages)
      else if showLeftEllipsis && showRightEllipsis then
        MiddleStrip(left, currentPage, right, totalPages)
      else
        // Unreachable: `left <= 2` puts the current page at or below 3, while
        // `right >= totalPages - 2` puts it at or above totalPages - 3 >= 4.
        assert false;
        []
  }

  // ---------------------------------------------------------------------
  // The four reachable branches, each with the shape it contributes. The
  // current page is a parameter of the fixed head and tail only so that their
  // contracts can say it is shown; their tokens do not depend on it.
  // ---------------------------------------------------------------------

  /** At most six pages: all of them, as `Array.from` lists them. */
  function ShortStrip(current: int, total: int): (r: seq<Token>)
    requires total <= MaxButtonCount
    ensures |r| == Max(total, 0) && forall i :: 0 <= i < |r| ==> r[i] == Page(i + 1)
    ensures WellFormed(r, total)
    ensures ShowsNeighbourhood(r, current, total)
  {
    var r := PageRun(1, total);
    PageRunMembers(1, total, current - 1);
    PageRunMembers(1, total, current);
    PageRunMembers(1, total, current + 1);
    WellFormedFromNeighbours(r, total);
    r
  }

  /** Right ellipsis only: the first five pages, an ellipsis, the last page. */
  function HeadStrip(current: int, total: int): (r: seq<Token>)
    requires total > MaxButtonCount && current <= 3
    ensures r == HeadTokens(total)
    ensures LongOutline(r, total)
    ensures WellFormed(r, total)
    ensures ShowsNeighbourhood(r, current, total)
  {
    var r := HeadTokens(total);
    HeadStripLocal(total);
    HeadStripNeighbourhood(current, total);
    WellFormedFromNeighbours(r, total);
    r
  }

  /** Left ellipsis only: the first page, an ellipsis, then the last
      `MaxButtonCount - 1` pages built as a run. */
  function TailStrip(current: int, total: int): (r: seq<Token>)
    requires total > MaxButtonCount && current >= total - 3
    ensures r == TailTokens(total)
    ensures LongOutline(r, total)
    ensures WellFormed(r, total)
    ensures ShowsNeighbourhood(r, current, total)
  {
    var rightItemCount := MaxButtonCount - 1;
    var strip := [Page(1), Ellipsis] + PageRun(total - rightItemCount + 1, rightItemCount);
    TailRun(total);
    assert strip == TailTokens(total);
    TailStripLocal(total);
    TailStripNeighbourhood(current, total);
    WellFormedFromNeighbours(strip, total);
    strip
  }

  /** Both ellipses around the window of the current page and its neighbours. */
  function MiddleStrip(left: int, current: int, right: int, total: int): (r: seq<Token>)
    requires 2 < left == current - 1 && right == current + 1 < total - 2
    ensures r == WindowTokens(current - 1, current, current + 1, total)
    ensures LongOutline(r, total)
    ensures WellFormed(r, total)
    ensures ShowsNeighbourhood(r, current, total)
  {
    var r := WindowTokens(left, current, right, total);
    MiddleStripLocal(left, current, right, total);
    MiddleStripNeighbourhood(left, current, right, total);
    WellFormedFromNeighbours(r, total);
    r
  }

  // Small facts about each branch's tokens, one property at a time.

  /** A run shows exactly the pages from `first` up to, not including, `first + count`. */
  lemma PageRunMembers(first: int, count: int, n: int)
    ensures Page(n) in PageRun(first, count) <==> first <= n < first + count
  {
    var r := PageRun(first, count);
    if first <= n < first + count {
      assert r[n - first] == Page(n);
    }
  }

  /** The left-ellipsis branch spelled out: page 1, an ellipsis, the last five pages. */
  lemma TailRun(total: int)
    ensures [Page(1), Ellipsis] + PageRun(total - 4, 5) == TailTokens(total)
  {
    var run := PageRun(total - 4, 5);
    assert run == [Page(total - 4), Page(total - 3), Page(total - 2), Page(total - 1), Page(total)];
  }

  lemma HeadStripLocal(total: int)
    requires total > MaxButtonCount
    ensures var r := HeadTokens(total);
      PagesWithin(r, 1, total) && NeighboursConsecutive(r) && EllipsesHidePages(r)
  {
  }

  lemma HeadStripNeighbourhood(current: int, total: int)
    requires total > MaxButtonCount && current <= 3
    ensures ShowsNeighbourhood(HeadTokens(total), current, total)
  {
  }

  lemma TailStripLocal(total: int)
    requires total > MaxButtonCount
    ensures var r := TailTokens(total);
      PagesWithin(r, 1, total) && NeighboursConsecutive(r) && EllipsesHidePages(r)
  {
  }

  lemma TailStripNeighbourhood(current: int, total: int)
    requires total > MaxButtonCount && current >= total - 3
    ensures ShowsNeighbourhood(TailTokens(total), current, total)
  {
  }

  lemma MiddleStripLocal(left: int, current: int, right: int, total: int)
    requires 2 < left == current - 1 && right == current + 1 < total - 2
    ensures var r := WindowTokens(left, current, right, total);
      PagesWithin(r, 1, total) && NeighboursConsecutive(r) && EllipsesHidePages(r)
  {
  }

  lemma MiddleStripNeighbourhood(left: int, current: int, right: int, total: int)
    requires 2 < left == current - 1 && right == current + 1 < total - 2
    ensures ShowsNeighbourhood(WindowTokens(left, current, right, total), current, total)
  {
  }

  // ---------------------------------------------------------------------
  // The current page is shown exactly once
  // ---------------------------------------------------------------------

  /** How many times page `n` appears in `r`. */
  function Occurrences(r: seq<Token>, n: int): (count: nat) {
    if |r| == 0 then 0 else (if r[0] == Page(n) then 1 else 0) + Occurrences(r[1..], n)
  }

  lemma {:induction false} OccurrencesAbsent(r: seq<Token>, n: int)
    requires Page(n) !in r
    ensures Occurrences(r, n) == 0
  {
    if |r| > 0 {
      assert Page(n) !in r[1..];
      OccurrencesAbsent(r[1..], n);
    }
  }

  /** In a strip whose pages strictly increase, a shown page is shown once. */
  lemma {:induction false} OccurrencesOnce(r: seq<Token>, n: int)
    requires PagesIncreasing(r)
    requires Page(n) in r
    ensures Occurrences(r, n) == 1
  {
    var rest := r[1..];
    if r[0] == Page(n) {
      forall j | 0 <= j < |rest|
        ensures rest[j] != Page(n)
      {
        assert rest[j] == r[j + 1];
      }
      OccurrencesAbsent(rest, n);
    } else {
      assert PagesIncreasing(rest) by {
        forall i, j | 0 <= i < j < |rest| && rest[i].Page? && rest[j].Page?
          ensures rest[i].n < rest[j].n
        {
          assert rest[i] == r[i + 1] && rest[j] == r[j + 1];
        }
      }
      OccurrencesOnce(rest, n);
    }
  }

  /** Exactly one token carries the current page when it is a real page, and
      none does otherwise. */
  lemma CurrentPageShownOnce(current: int, total: int)
    ensures Occurrences(GeneratePagination(current, total), current)
         == if 1 <= current <= total then 1 else 0
  {
    var r := GeneratePagination(current, total);
    if 1 <= current <= total {
      OccurrencesOnce(r, current);
    } else {
      OccurrencesAbsent(r, current);
    }
  }

  // ---------------------------------------------------------------------
  // The integer encoding with an ellipsis sentinel
  // ---------------------------------------------------------------------

  /** The integer a token is written as in the component's output list. */
  function EncodeToken(t: Token): (x: int) {
    match t
    case Page(n) => n
    case Ellipsis => EllipsisSentinel
  }

  /** Reads an integer of the output list back as a token. */
  function DecodeToken(x: int): (t: Token) {
    if x == EllipsisSentinel then Ellipsis else Page(x)
  }

  function Encode(r: seq<Token>): (xs: seq<int>)
    ensures |xs| == |r|
  {
    seq(|r|, i requires 0 <= i < |r| => EncodeToken(r[i]))
  }

  function Decode(xs: seq<int>): (r: seq<Token>)
    ensures |r| == |xs|
  {
    seq(|xs|, i requires 0 <= i < |xs| => DecodeToken(xs[i]))
  }

  /** No page token is written as the sentinel. */
  predicate SentinelFree(r: seq<Token>) {
    forall i :: 0 <= i < |r| && r[i].Page? ==> r[i].n != EllipsisSentinel
  }

  /** Decoding undoes encoding exactly when no page collides with the sentinel. */
  lemma DecodeEncode(r: seq<Token>)
    ensures Decode(Encode(r)) == r <==> SentinelFree(r)
  {
  }

  /** Every integer list decodes to tokens that encode back to it. */
  lemma EncodeDecode(xs: seq<int>)
    ensures Encode(Decode(xs)) == xs
  {
  }

  /** The strip never writes a page as the sentinel, so the integer list the
      component produces reads back as exactly the strip. */
  lemma StripSurvivesEncoding(current: int, total: int)
    ensures SentinelFree(GeneratePagination(current, total))
    ensures Decode(Encode(GeneratePagination(current, total))) == GeneratePagination(current, total)
  {
    DecodeEncode(GeneratePagination(current, total));
  }

  // ---------------------------------------------------------------------
  // Worked examples
  // ---------------------------------------------------------------------

  /** Ten pages, current page 1: the fixed head. */
  lemma FirstOfTen()
    ensures GeneratePagination(1, 10) == [Page(1), Page(2), Page(3), Page(4), Page(5), Ellipsis, Page(10)]
  {
  }

  /** Ten pages, current page 2: still the fixed head, since the left
      neighbour is page 1. */
  lemma SecondOfTen()
    ensures GeneratePagination(2, 10) == [Page(1), Page(2), Page(3), Page(4), Page(5), Ellipsis, Page(10)]
  {
  }

  /** Ten pages, current page 5: the window between two ellipses. */
  lemma FifthOfTen()
    ensures GeneratePagination(5, 10) == [Page(1), Ellipsis, Page(4), Page(5), Page(6), Ellipsis, Page(10)]
  {
  }

  /** Ten pages, current page 10: the fixed tail. */
  lemma LastOfTen()
    ensures GeneratePagination(10, 10) == [Page(1), Ellipsis, Page(6), Page(7), Page(8), Page(9), Page(10)]
  {
  }

  /** Six pages are listed in full. */
  lemma SixOfSix()
    ensures GeneratePagination(3, 6) == [Page(1), Page(2), Page(3), Page(4), Page(5), Page(6)]
  {
  }

  /** A single page, and no pages at all. */
  lemma OneAndNoPages()
    ensures GeneratePagination(1, 1) == [Page(1)]
    ensures GeneratePagination(1, 0) == []
  {
  }

}
