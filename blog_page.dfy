/** The pagination of `src/components/pages/blog-page.tsx`: the window of
    page buttons, the first and last page shortcuts with their ellipses,
    the disabled previous and next buttons, and the results-range text. */
module BlogPage {
  import opened Wrappers
  import JsStrings

  /** The `pagination` object the blog API returns. */
  datatype PaginationInfo = PaginationInfo(currentPage: int, totalPages: int, limit: int, totalCount: int)

  const MAX_VISIBLE_PAGES: int := 5

  function Max(a: int, b: int): int {
    if a >= b then a else b
  }

  function Min(a: int, b: int): int {
    if a <= b then a else b
  }

  /** `Math.max(1, currentPage - Math.floor(maxVisiblePages / 2))`. */
  function WindowStart(p: PaginationInfo): int {
    Max(1, p.currentPage - MAX_VISIBLE_PAGES / 2)
  }

  /** `Math.min(totalPages, start + maxVisiblePages - 1)`. */
  function WindowEnd(p: PaginationInfo): int {
    Min(p.totalPages, WindowStart(p) + MAX_VISIBLE_PAGES - 1)
  }

  /** The numbers `start`, `start + 1`, ..., `end`. */
  function Range(start: int, end: int): (r: seq<int>)
    ensures |r| == if end < start then 0 else end - start + 1
    ensures forall k :: 0 <= k < |r| ==> r[k] == start + k
    decreases end - start
  {
    if end < start then [] else [start] + Range(start + 1, end)
  }

  /** What the `Pagination` component shows. */
  datatype Controls = Controls(
    prevDisabled: bool,
    firstShortcut: bool,
    leadingEllipsis: bool,
    pages: seq<int>,
    trailingEllipsis: bool,
    lastShortcut: bool,
    nextDisabled: bool)

  /** The page shown as the current one among the buttons. */
  predicate IsCurrent(p: PaginationInfo, page: int) {
    page == p.currentPage
  }

  /** The controls of the component, from its window. */
  function ControlsOf(p: PaginationInfo): Controls {
    var start := WindowStart(p);
    var end := WindowEnd(p);
    Controls(p.currentPage == 1, start > 1, start > 2, Range(start, end), end < p.totalPages - 1, end < p.totalPages,
             p.currentPage == p.totalPages)
  }

  /** The `Pagination` component: nothing without pagination data or with
      at most one page; otherwise the page buttons come from a loop over
      the window. */
  method Pagination(pagination: Option<PaginationInfo>) returns (r: Option<Controls>)
    ensures r.None? <==> pagination.None? || pagination.value.totalPages <= 1
    ensures r.Some? ==> r.value == ControlsOf(pagination.value)
  {
    if pagination.None? || pagination.value.totalPages <= 1 {
      return None;
    }
    var p := pagination.value;
    var pages: seq<int> := [];
    var start := Max(1, p.currentPage - MAX_VISIBLE_PAGES / 2);
    var end := Min(p.totalPages, start + MAX_VISIBLE_PAGES - 1);
    var i := start;
    while i <= end
      invariant start <= i <= Max(start, end + 1)
      invariant |pages| == i - start
      invariant forall k :: 0 <= k < |pages| ==> pages[k] == start + k
      decreases end - i
    {
      pages := pages + [i];
      i := i + 1;
    }
    assert pages == Range(start, end);
    r := Some(Controls(p.currentPage == 1, start > 1, start > 2, pages, end < p.totalPages - 1, end < p.totalPages,
                       p.currentPage == p.totalPages));
  }

  // ------------------------------------------------------------ properties

  /** The window starts at 1 at the earliest and ends at the last page at
      the latest; it holds the consecutive pages from its start to its end,
      at most five of them. */
  lemma {:induction false} WindowShape(p: PaginationInfo)
    requires p.totalPages >= 1
    ensures var start := WindowStart(p);
      var pages := ControlsOf(p).pages;
      1 <= start && WindowEnd(p) <= p.totalPages
      && |pages| <= MAX_VISIBLE_PAGES
      && (forall k :: 0 <= k < |pages| ==> pages[k] == start + k)
      && (forall k :: 0 <= k < |pages| ==> 1 <= pages[k] <= p.totalPages)
  {
  }

  /** A current page within the page count is among the buttons, and
      marked as the current one. */
  lemma {:induction false} CurrentShown(p: PaginationInfo)
    requires 1 <= p.currentPage <= p.totalPages
    ensures var pages := ControlsOf(p).pages;
      exists k :: 0 <= k < |pages| && IsCurrent(p, pages[k])
  {
    var pages := ControlsOf(p).pages;
    var k := p.currentPage - WindowStart(p);
    assert pages[k] == p.currentPage;
  }

  /** Up to the third-to-last page, five buttons are shown when there are
      at least five pages; from there on the window loses one button per
      page, down to three on the last page. */
  lemma {:induction false} WindowSize(p: PaginationInfo)
    requires 1 <= p.currentPage <= p.totalPages && p.totalPages >= MAX_VISIBLE_PAGES
    ensures var n := |ControlsOf(p).pages|;
      (p.currentPage <= p.totalPages - 2 ==> n == MAX_VISIBLE_PAGES)
      && (p.currentPage > p.totalPages - 2 && p.currentPage >= 3 ==> n == 3 + p.totalPages - p.currentPage)
  {
  }

  /** The page-1 shortcut is shown exactly when the window does not begin
      at page 1, and then with an ellipsis exactly when page 2 is not in
      the window either; likewise for the last page at the other end. So
      every page between 1 and the last is reachable in one click or
      hidden behind an ellipsis. */
  lemma {:induction false} Shortcuts(p: PaginationInfo)
    requires 1 <= p.currentPage <= p.totalPages
    ensures var c := ControlsOf(p);
      var pages := c.pages;
      (c.firstShortcut <==> 1 !in pages)
      && (c.leadingEllipsis <==> c.firstShortcut && 2 !in pages)
      && (c.lastShortcut <==> p.totalPages !in pages)
      && (c.trailingEllipsis <==> c.lastShortcut && p.totalPages - 1 !in pages)
  {
    FirstEnd(p);
    LastEnd(p);
  }

  /** Pages 1 and 2 are among the buttons exactly when the window reaches
      them. */
  lemma {:induction false} FirstEnd(p: PaginationInfo)
    requires 1 <= p.currentPage <= p.totalPages
    ensures var pages := ControlsOf(p).pages;
      (1 in pages <==> WindowStart(p) == 1)
      && (2 in pages <==> WindowStart(p) <= 2 && WindowEnd(p) >= 2)
  {
    var pages := ControlsOf(p).pages;
    var start := WindowStart(p);
    if start == 1 {
      assert pages[0] == 1;
    }
    if start <= 2 && WindowEnd(p) >= 2 {
      assert pages[2 - start] == 2;
    }
  }

  /** The last two pages are among the buttons exactly when the window
      reaches them. */
  lemma {:induction false} LastEnd(p: PaginationInfo)
    requires 1 <= p.currentPage <= p.totalPages
    ensures var pages := ControlsOf(p).pages;
      (p.totalPages in pages <==> WindowEnd(p) == p.totalPages)
      && (p.totalPages - 1 in pages <==> WindowEnd(p) >= p.totalPages - 1 && WindowStart(p) <= p.totalPages - 1)
  {
    var pages := ControlsOf(p).pages;
    var start := WindowStart(p);
    var end := WindowEnd(p);
    if end == p.totalPages {
      assert pages[end - start] == p.totalPages;
    }
    if end >= p.totalPages - 1 && start <= p.totalPages - 1 {
      assert pages[p.totalPages - 1 - start] == p.totalPages - 1;
    }
  }

  /** Previous is disabled exactly on page 1 and next exactly on the last
      page. */
  lemma {:induction false} PrevNext(p: PaginationInfo)
    ensures ControlsOf(p).prevDisabled <==> p.currentPage == 1
    ensures ControlsOf(p).nextDisabled <==> p.currentPage == p.totalPages
  {
  }

  // ------------------------------------------------------- results range

  /** The first and last result numbers of the range text. */
  function FirstShown(p: PaginationInfo): int {
    (p.currentPage - 1) * p.limit + 1
  }

  function LastShown(p: PaginationInfo): int {
    Min(p.currentPage * p.limit, p.totalCount)
  }

  /** The results line, in English for `en` and in Dutch otherwise. */
  function ResultsText(p: PaginationInfo, lang: string): string {
    var range := JsStrings.IntToString(FirstShown(p)) + "-" + JsStrings.IntToString(LastShown(p));
    if lang == "en" then "Showing " + range + " of " + JsStrings.IntToString(p.totalCount) + " articles"
    else "Toont " + range + " van " + JsStrings.IntToString(p.totalCount) + " artikelen"
  }

  /** The range never passes the total, spans at most one page of results,
      and is not empty when the page starts before the total. */
  lemma {:induction false} ResultsRange(p: PaginationInfo)
    requires p.currentPage >= 1 && p.limit >= 1
    ensures LastShown(p) <= p.totalCount
    ensures LastShown(p) - FirstShown(p) + 1 <= p.limit
    ensures (p.currentPage - 1) * p.limit < p.totalCount ==> 1 <= FirstShown(p) <= LastShown(p)
  {
  }

  /** What the page shows below the article grid: the empty-list message,
      or the listed articles followed by the results line when there is
      pagination data. */
  datatype ResultsArea = NoArticles(message: string) | Listed(resultsLine: Option<string>)

  /** `articles.length === 0 ? <message> : <>… {pagination && <results>}</>`. */
  function ResultsShown(articleCount: nat, pagination: Option<PaginationInfo>, lang: string): (r: ResultsArea)
    ensures r.NoArticles? <==> articleCount == 0
    ensures r.Listed? ==> (r.resultsLine.Some? <==> pagination.Some?)
    ensures r.Listed? && pagination.Some? ==> r.resultsLine.value == ResultsText(pagination.value, lang)
  {
    if articleCount == 0 then
      NoArticles(if lang == "en" then "No articles available yet." else "Nog geen artikelen beschikbaar.")
    else if pagination.None? then Listed(None)
    else Listed(Some(ResultsText(pagination.value, lang)))
  }

  /** With no articles no results line is shown, whatever the pagination
      data says: only the message, in English for `en` and in Dutch
      otherwise. */
  lemma {:induction false} ResultsEmpty(pagination: Option<PaginationInfo>, lang: string)
    ensures ResultsShown(0, pagination, lang) ==
      NoArticles(if lang == "en" then "No articles available yet." else "Nog geen artikelen beschikbaar.")
  {
  }

  /** A results line that is shown on a page that starts before the total
      names a non-empty range within the total. */
  lemma {:induction false} ShownRange(articleCount: nat, p: PaginationInfo, lang: string)
    requires articleCount > 0 && p.currentPage >= 1 && p.limit >= 1 && (p.currentPage - 1) * p.limit < p.totalCount
    ensures ResultsShown(articleCount, Some(p), lang) == Listed(Some(ResultsText(p, lang)))
    ensures 1 <= FirstShown(p) <= LastShown(p) <= p.totalCount
  {
    ResultsRange(p);
  }
}
