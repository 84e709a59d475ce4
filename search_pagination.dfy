/**
 * `SearchPagination`: the page-navigation bar under a paged search result. It derives first
 * and last flags from the index it shows and guards four navigation actions, each of which
 * may ask the owner to load one page (`loadPage(index, size)`).
 */
module SearchPagination {
  import opened Wrappers
  import opened Strings

  /** The fields of a paged response the bar reads. */
  datatype PagedResponse = PagedResponse(number: int, totalPages: int, size: int)

  datatype PaginationState = PaginationState(
    isFirstPage: bool,
    isLastPage: bool,
    currentPage: int,
    totalPages: int,
    pageSize: int)

  /** A call `loadPage(pageIndex, pageSize)`. */
  datatype PageRequest = PageRequest(pageIndex: int, pageSize: int)

  /** `usePaginationState`'s memoised derivation from the index shown and the response. */
  function DerivePaginationState(currentPageIndex: int, page: PagedResponse): (s: PaginationState)
    ensures s.isFirstPage <==> currentPageIndex == 0
    ensures s.isLastPage <==> currentPageIndex == page.totalPages - 1
    ensures s.currentPage == currentPageIndex && s.totalPages == page.totalPages && s.pageSize == page.size
  {
    PaginationState(currentPageIndex == 0, currentPageIndex == page.totalPages - 1,
                    currentPageIndex, page.totalPages, page.size)
  }

  /** The `currentPageIndex` state cell, set from `page.number` on mount and again by the
      effect whenever `page.number` changes. */
  class PageIndex {
    var currentPageIndex: int
    var syncedNumber: int

    /** Only the effect writes the cell, so it always holds the number last seen. */
    predicate Valid()
      reads this
    {
      currentPageIndex == syncedNumber
    }

    constructor (page: PagedResponse)
      ensures Valid()
      ensures currentPageIndex == page.number && syncedNumber == page.number
    {
      currentPageIndex := page.number;
      syncedNumber := page.number;
    }

    /** The effect on `[page.number]`: runs only when the number differs from the one last seen. */
    method Sync(page: PagedResponse)
      requires Valid()
      modifies this
      ensures Valid()
      ensures currentPageIndex == page.number && syncedNumber == page.number
      ensures old(syncedNumber) == page.number ==> currentPageIndex == old(currentPageIndex)
    {
      if page.number != syncedNumber {
        currentPageIndex := page.number;
        syncedNumber := page.number;
      }
    }

    /** The state the bar renders with. */
    function State(page: PagedResponse): (s: PaginationState)
      reads this
      ensures s.currentPage == currentPageIndex && s.totalPages == page.totalPages
    {
      DerivePaginationState(currentPageIndex, page)
    }
  }

  /** `goToFirst`. */
  function GoToFirst(s: PaginationState): (r: Option<PageRequest>)
    ensures r.Some? <==> !s.isFirstPage
    ensures r.Some? ==> r.value == PageRequest(0, s.pageSize)
  {
    if !s.isFirstPage then Some(PageRequest(0, s.pageSize)) else None
  }

  /** `goToPrevious`. */
  function GoToPrevious(s: PaginationState): (r: Option<PageRequest>)
    ensures r.Some? <==> s.currentPage > 0
    ensures r.Some? ==> r.value == PageRequest(s.currentPage - 1, s.pageSize)
  {
    if s.currentPage > 0 then Some(PageRequest(s.currentPage - 1, s.pageSize)) else None
  }

  /** `goToNext`. */
  function GoToNext(s: PaginationState): (r: Option<PageRequest>)
    ensures r.Some? <==> s.currentPage < s.totalPages - 1
    ensures r.Some? ==> r.value == PageRequest(s.currentPage + 1, s.pageSize)
  {
    if s.currentPage < s.totalPages - 1 then Some(PageRequest(s.currentPage + 1, s.pageSize)) else None
  }

  /** `goToLast`, as written: guarded only by the last-page flag. */
  function GoToLast(s: PaginationState): (r: Option<PageRequest>)
    ensures r.Some? <==> !s.isLastPage
    ensures r.Some? ==> r.value == PageRequest(s.totalPages - 1, s.pageSize)
  {
    if !s.isLastPage then Some(PageRequest(s.totalPages - 1, s.pageSize)) else None
  }

  /** `goToLast` with the guard `goToNext` uses, so an empty result asks for nothing. */
  function GoToLastGuarded(s: PaginationState): (r: Option<PageRequest>)
    ensures r.Some? <==> s.currentPage < s.totalPages - 1
    ensures r.Some? ==> r.value == PageRequest(s.totalPages - 1, s.pageSize)
  {
    if s.currentPage < s.totalPages - 1 then Some(PageRequest(s.totalPages - 1, s.pageSize)) else None
  }

  /** A request lies in `[0, totalPages - 1]`, moves away from the current page and keeps the size. */
  predicate GoodRequest(r: Option<PageRequest>, s: PaginationState) {
    r.Some? ==> 0 <= r.value.pageIndex < s.totalPages && r.value.pageIndex != s.currentPage
                && r.value.pageSize == s.pageSize
  }

  /** With at least one page and the shown index in range, every action asks only for an
      existing page other than the current one, with the page size unchanged. */
  lemma RequestsInRange(currentPageIndex: int, page: PagedResponse)
    requires page.totalPages >= 1 && 0 <= currentPageIndex < page.totalPages
    ensures var s := DerivePaginationState(currentPageIndex, page);
            GoodRequest(GoToFirst(s), s) && GoodRequest(GoToPrevious(s), s)
            && GoodRequest(GoToNext(s), s) && GoodRequest(GoToLast(s), s)
  {
  }

  /** With the index in range, each action asks for a page exactly when its control is
      enabled: first and previous are disabled on the first page, next and last on the last. */
  lemma ControlsMatchActions(currentPageIndex: int, page: PagedResponse)
    requires page.totalPages >= 1 && 0 <= currentPageIndex < page.totalPages
    ensures var s := DerivePaginationState(currentPageIndex, page);
            && (GoToFirst(s).Some? <==> !s.isFirstPage) && (GoToPrevious(s).Some? <==> !s.isFirstPage)
            && (GoToNext(s).Some? <==> !s.isLastPage) && (GoToLast(s).Some? <==> !s.isLastPage)
  {
  }

  /** An empty result (no pages, index 0) leaves the last-page control enabled, and it asks
      for page -1. */
  lemma EmptyResultRequestsMinusOne(size: int)
    ensures var s := DerivePaginationState(0, PagedResponse(0, 0, size));
            GoToLast(s) == Some(PageRequest(-1, size)) && !GoodRequest(GoToLast(s), s)
  {
  }

  /** The guarded `goToLast` asks only for an existing page for every page count, zero included. */
  lemma GuardedLastInRange(currentPageIndex: int, page: PagedResponse)
    requires page.totalPages >= 0 && 0 <= currentPageIndex
    ensures var s := DerivePaginationState(currentPageIndex, page);
            GoodRequest(GoToLastGuarded(s), s)
            && (page.totalPages >= 1 && currentPageIndex < page.totalPages ==> GoToLastGuarded(s) == GoToLast(s))
  {
  }

  /** The page indicator `{currentPage + 1} / {totalPages}`. */
  function PageIndicator(s: PaginationState): (r: string)
    ensures (IntToString(s.currentPage + 1) + " / ") <= r
  {
    IntToString(s.currentPage + 1) + " / " + IntToString(s.totalPages)
  }

  /** Two numerals around ` / ` split on spaces into the numerals and the slash. */
  lemma IndicatorPieces(a: string, b: string)
    requires IsDigits(a) && IsDigits(b)
    ensures Split(a + " / " + b, ' ') == [a, "/", b]
  {
    DigitsHaveNo(a, ' ');
    DigitsHaveNo(b, ' ');
    assert a + " / " + b == a + [' '] + ("/" + [' '] + b);
    SplitAtSeparator(a, "/" + [' '] + b, ' ');
    SplitAtSeparator("/", b, ' ');
    SplitWithoutSeparator(b, ' ');
  }

  /** The indicator splits on spaces into the one-based page number, `/` and the page
      count, which read back as those numbers. */
  lemma IndicatorReadsBack(s: PaginationState)
    requires s.currentPage >= 0 && s.totalPages >= 0
    ensures var pieces := Split(PageIndicator(s), ' ');
            |pieces| == 3 && pieces[1] == "/"
            && ParseInt(pieces[0]) == Some(s.currentPage + 1) && ParseInt(pieces[2]) == Some(s.totalPages)
  {
    var a, b := IntToString(s.currentPage + 1), IntToString(s.totalPages);
    assert Split(PageIndicator(s), ' ') == [a, "/", b] by {
      IndicatorPieces(a, b);
      assert PageIndicator(s) == a + " / " + b;
    }
    assert ParseInt(a) == Some(s.currentPage + 1) by { ParseIntOfIntToString(s.currentPage + 1); }
    assert ParseInt(b) == Some(s.totalPages) by { ParseIntOfIntToString(s.totalPages); }
  }
}
