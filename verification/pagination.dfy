/** Pagination arithmetic of the list views: page <-> offset conversions, the 0-based and
    1-based page numbers of the widgets, and the page-count formulas, each list with its own. */
module Pagination {
  import opened Wrappers
  import opened MangadexTypes
  import opened RequestOptions

  /** Page size of the search results when the URL gives none. */
  const DEFAULT_RESULTS_LIMIT: int := 24

  /** `Math.floor(a / b)` for a non-zero divisor. Dafny's `/` rounds towards minus infinity
      only for a positive divisor, so a negative one is handled by flipping both signs. */
  function FloorDiv(a: int, b: int): (q: int)
    requires b != 0
    ensures b > 0 ==> q * b <= a < q * b + b
    ensures b < 0 ==> q * b >= a > q * b + b
  {
    if b > 0 then a / b else (-a) / (-b)
  }

  /** `Math.ceil(a / b)` for a positive divisor. */
  function CeilDiv(a: int, b: int): (q: int)
    requires b > 0
    ensures q * b - b < a <= q * b
  {
    -((-a) / b)
  }

  /** The page widget renders nothing for a count of at most one page. */
  predicate PaginationShown(pageCount: int) {
    pageCount > 1
  }

  /** Items are numbered from 0; item `i` is on page `i / limit`. */
  predicate ItemReachable(i: nat, limit: int, pageCount: int)
    requires limit > 0
  {
    i / limit < pageCount
  }

  /** A page holds at least one of `total` items. */
  predicate PageHasItems(p: nat, limit: int, total: int) {
    p * limit < total
  }

  // --- search results ---

  /** The result offset of the URL: 0 when absent. */
  function ResultsOffset(offsetParam: Option<int>): int {
    offsetParam.GetOr(0)
  }

  /** The page size of the URL: 24 when absent. */
  function ResultsLimit(limitParam: Option<int>): int {
    limitParam.GetOr(DEFAULT_RESULTS_LIMIT)
  }

  /** The current page, `floor(offset / limit)`; a zero limit gives no finite page. */
  function ResultsPage(offset: int, limit: int): (r: Option<int>)
    ensures limit == 0 <==> r.None?
    ensures limit > 0 ==> r.value * limit <= offset < r.value * limit + limit
  {
    if limit == 0 then None else Some(FloorDiv(offset, limit))
  }

  /** The page the results show for the URL's `offset` and `limit` parameters: page 0 without
      an offset, otherwise the page of `limit` results (24 by default) holding the offset. */
  function UrlPage(offsetParam: Option<int>, limitParam: Option<int>): (r: Option<int>)
    ensures r.None? <==> limitParam == Some(0)
    ensures offsetParam.None? && r.Some? ==> r.value == 0
    ensures limitParam.None? ==>
      r.Some? && r.value * DEFAULT_RESULTS_LIMIT <= offsetParam.GetOr(0) < r.value * DEFAULT_RESULTS_LIMIT + DEFAULT_RESULTS_LIMIT
    ensures limitParam.Some? && limitParam.value > 0 ==>
      r.Some? && r.value * limitParam.value <= offsetParam.GetOr(0) < r.value * limitParam.value + limitParam.value
  {
    ResultsPage(ResultsOffset(offsetParam), ResultsLimit(limitParam))
  }

  /** `goToPage`: the offset of page `p`, every other option kept. */
  function GoToPage(options: SearchOptions, p: int, limit: int): (r: SearchOptions)
    ensures r.offset == Some(p * limit)
    ensures r.(offset := options.offset) == options
    ensures limit > 0 && r.offset.value >= 0 ==> p >= 0
  {
    options.(offset := Some(p * limit))
  }

  /** The options `goToPage(p)` pushes. `useSearchManga` has already rewritten the URL's options
      object in place (encoded title, defaulted includes, clamped offset) before `goToPage` writes
      the offset into that same object, so the pushed options carry those rewrites too. */
  function PushedSearchOptions(url: SearchOptions, encode: string -> string, p: int, limitParam: Option<int>): (r: SearchOptions)
    ensures r.offset == Some(p * ResultsLimit(limitParam))
    ensures url.title.Some? && url.title.value != "" ==> r.title == Some(encode(url.title.value))
    ensures url.title.None? || url.title.value == "" ==> r.title == url.title
    ensures url.includes.None? ==> r.includes == Some([COVER_ART])
    ensures url.includes.Some? ==> r.includes == url.includes
    ensures r.(title := url.title, includes := url.includes, offset := url.offset) == url
  {
    GoToPage(UseSearchManga(url, true, encode, None, m => m).request.value, p, ResultsLimit(limitParam))
  }

  /** A page pushed by the widget reads back as that page, as long as the URL builder writes the
      offset and the limit parameter back unchanged. */
  lemma PushedPageReadsBack(url: SearchOptions, encode: string -> string, p: int, limitParam: Option<int>)
    requires limitParam.None? || limitParam.value > 0
    ensures UrlPage(PushedSearchOptions(url, encode, p, limitParam).offset, limitParam) == Some(p)
  {
    GoToPageRoundTrip(url, p, ResultsLimit(limitParam));
  }

  /** After `goToPage(p)` the page read back from the offset is `p`. */
  lemma GoToPageRoundTrip(options: SearchOptions, p: int, limit: int)
    requires limit > 0
    ensures ResultsPage(GoToPage(options, p, limit).offset.value, limit) == Some(p)
  {
    var q := ResultsPage(p * limit, limit).value;
    if q < p {
      MulMonotone(q + 1, p, limit);
    } else if q > p {
      MulMonotone(p + 1, q, limit);
    }
  }

  /** The page count of the search results, as written: `floor(total / limit)`, with total 0
      unless a successful response arrived (`response` is the search hook's success data, absent
      for a missing or failed response). A zero limit gives no finite count. */
  function ResultsPageCount(response: Option<Page<Manga>>, limit: int): (r: Option<int>)
    ensures limit == 0 <==> r.None?
    ensures response.None? && limit != 0 ==> r == Some(0)
    ensures response.Some? && limit > 0 ==> r.value == FloorPageCount(response.value.total, limit)
  {
    var total := if response.Some? then response.value.total else 0;
    if limit == 0 then None else Some(FloorDiv(total, limit))
  }

  // --- page counts ---

  /** `Math.floor(total / limit)`, the count of the search results and of the new-updates
      list. */
  function FloorPageCount(total: int, limit: int): (r: int)
    requires limit > 0
    ensures r * limit <= total < r * limit + limit
  {
    FloorDiv(total, limit)
  }

  /** `Math.floor(total / limit) + 1`, the count of the chapter list; `total` defaults to 0. */
  function ChapterListPageCount(total: Option<int>, limit: int): (r: int)
    requires limit > 0
    ensures total.None? || total.value == 0 ==> r == 1
    ensures total.Some? && total.value >= 0 ==> r >= 1
    ensures total.Some? ==> (r - 1) * limit <= total.value < r * limit
  {
    FloorDiv(total.GetOr(0), limit) + 1
  }

  /** `Math.ceil(total / limit)`: the count every list needs so that each item is on a page
      and no page is empty. */
  function CeilPageCount(total: int, limit: int): (r: int)
    requires limit > 0
    ensures total <= r * limit && (r - 1) * limit < total
  {
    CeilDiv(total, limit)
  }

  /** The ceiling count is exact: every item of the list is on a counted page, and every
      counted page holds an item. */
  lemma CeilPageCountExact(total: int, limit: int, i: nat, p: nat)
    requires limit > 0
    ensures i < total ==> ItemReachable(i, limit, CeilPageCount(total, limit))
    ensures p < CeilPageCount(total, limit) ==> PageHasItems(p, limit, total)
  {
    var n := CeilPageCount(total, limit);
    if i < total && i / limit >= n {
      MulMonotone(n, i / limit, limit);
    }
    if p < n {
      MulMonotone(p, n - 1, limit);
    }
  }

  /** The floor count drops the last, partial page: with one item more than a page (of at least
      two items), the count is 1, the widget is hidden and the item at index `limit` cannot be
      reached. */
  lemma FloorPageCountHidesLastPage(limit: int)
    requires limit > 1
    ensures FloorPageCount(limit + 1, limit) == 1
    ensures !PaginationShown(FloorPageCount(limit + 1, limit))
    ensures !ItemReachable(limit, limit, FloorPageCount(limit + 1, limit))
    ensures CeilPageCount(limit + 1, limit) == 2
    ensures PaginationShown(CeilPageCount(limit + 1, limit))
  {
    var q := FloorPageCount(limit + 1, limit);
    if q >= 2 {
      MulMonotone(2, q, limit);
    } else if q <= 0 {
      MulMonotone(q, 0, limit);
    }
    var d := CeilPageCount(limit + 1, limit);
    if d <= 1 {
      MulMonotone(d, 1, limit);
    } else if d >= 3 {
      MulMonotone(2, d - 1, limit);
    }
  }

  /** The floor-plus-one count adds an empty page whenever the total is a positive multiple of
      the page size. */
  lemma ChapterListExtraPage(limit: int, k: nat)
    requires limit > 0 && k > 0
    ensures ChapterListPageCount(Some(k * limit), limit) == k + 1
    ensures !PageHasItems(k, limit, k * limit)
    ensures CeilPageCount(k * limit, limit) == k
  {
    var c := ChapterListPageCount(Some(k * limit), limit);
    if c < k + 1 {
      MulMonotone(c, k, limit);
    } else if c > k + 1 {
      MulMonotone(k + 1, c - 1, limit);
    }
    var d := CeilPageCount(k * limit, limit);
    if d < k {
      MulMonotone(d, k - 1, limit);
    } else if d > k {
      MulMonotone(k, d - 1, limit);
    }
  }

  /** With no chapters the chapter list's count is 1 and its widget is hidden. */
  lemma EmptyChapterListHidesPagination(limit: int)
    requires limit > 0
    ensures !PaginationShown(ChapterListPageCount(None, limit))
    ensures !PaginationShown(ChapterListPageCount(Some(0), limit))
  {
  }

  /** `totalPage` of the home-page updates: starts at 0, becomes `ceil(total / limit)` once a
      non-zero total is known, and is left as it was (possibly stale) for a zero total. */
  function TotalPageAfter(previous: int, total: int, limit: int): (r: int)
    requires limit > 0
    ensures total == 0 ==> r == previous
    ensures total != 0 ==> (r - 1) * limit < total <= r * limit
  {
    if total == 0 then previous else CeilPageCount(total, limit)
  }

  /** After a non-zero total every update is on a counted page and every counted page holds an
      update; a zero total leaves whatever count was there, even one from an earlier total. */
  lemma UpdatesPageCountExact(previous: int, total: int, limit: int, i: nat, p: nat)
    requires limit > 0
    ensures total != 0 && i < total ==> ItemReachable(i, limit, TotalPageAfter(previous, total, limit))
    ensures total != 0 && p < TotalPageAfter(previous, total, limit) ==> PageHasItems(p, limit, total)
    ensures TotalPageAfter(TotalPageAfter(previous, total, limit), 0, limit) == TotalPageAfter(previous, total, limit)
  {
    if total != 0 {
      CeilPageCountExact(total, limit, i, p);
    }
  }

  // --- page numbers of the widgets ---

  /** Page of the home-page updates from the URL: `Number(param)`. An absent parameter reads
      as `Number(null)`, which is already 0, so the `?? 0` after it never applies. */
  function UpdatesPageParam(param: Option<int>): (r: int)
    ensures param.None? ==> r == 0
    ensures param.Some? ==> r == param.value
  {
    param.GetOr(0)
  }

  /** The home-page updates request: without a URL page it starts at offset 0, and the offset of
      a URL page within the ceiling reads back as that page. */
  lemma UpdatesPageRequest(param: Option<int>, groupId: Option<string>, lastUpdatesLimit: int)
    requires lastUpdatesLimit > 0
    ensures param.None? ==> LastUpdatesRequest(UpdatesPageParam(param), groupId, lastUpdatesLimit).offset == Some(0)
    ensures var page := UpdatesPageParam(param);
      lastUpdatesLimit * page <= OFFSET_CEILING ==>
        ResultsPage(LastUpdatesRequest(page, groupId, lastUpdatesLimit).offset.value, lastUpdatesLimit) == Some(page)
  {
    var page := UpdatesPageParam(param);
    if lastUpdatesLimit * page <= OFFSET_CEILING {
      assert lastUpdatesLimit * page == page * lastUpdatesLimit;
      GoToPageRoundTrip(SearchOptions(None, None, None, None, None, None, None), page, lastUpdatesLimit);
    }
  }

  /** The following list numbers pages from 1 while the widget counts from 0. */
  const FOLLOWING_FIRST_PAGE: int := 1

  /** What the page widget is given: the number of pages and the index to highlight. */
  datatype WidgetProps = WidgetProps(pageCount: int, forcePage: int)

  /** The following list's widget for its 1-based `page` and the backend's `last_page`: the
      highlighted index is a valid widget index exactly when the page is a valid page, and the
      first page highlights index 0. */
  function FollowingWidget(page: int, lastPage: int): (w: WidgetProps)
    ensures w.pageCount == lastPage
    ensures 0 <= w.forcePage < w.pageCount <==> FOLLOWING_FIRST_PAGE <= page <= lastPage
    ensures page == FOLLOWING_FIRST_PAGE ==> w.forcePage == 0
  {
    WidgetProps(lastPage, page - 1)
  }

  /** The page a selection of widget index `selected` moves the following list to: the widget
      then highlights that same index, and an index inside the widget gives a page of the list. */
  function SelectFollowingPage(selected: int): (page: int)
    ensures forall lastPage :: FollowingWidget(page, lastPage).forcePage == selected
    ensures forall lastPage :: 0 <= selected < FollowingWidget(page, lastPage).pageCount ==> FOLLOWING_FIRST_PAGE <= page <= lastPage
  {
    selected + 1
  }

  // --- chapter list of the detail page ---

  /** The chapter list offset of the detail page for its 0-based page. */
  function ChapterListOffset(page: int, chapterListLimit: int): int {
    page * chapterListLimit
  }

  /** The detail page's chapter request: the page offset reaches the feed request unchanged
      while it stays within the ceiling, and otherwise is clamped a page below it. */
  lemma ChapterListRequestOffset(page: nat, chapterListLimit: int)
    requires chapterListLimit > 0
    ensures var q := PrepareFeedOptions(ChapterQuery(None, None, None, None, None,
        Some(ChapterListOffset(page, chapterListLimit)), None), chapterListLimit);
      && (page * chapterListLimit <= OFFSET_CEILING ==> q.offset == Some(page * chapterListLimit))
      && (page * chapterListLimit > OFFSET_CEILING ==> q.offset == Some(OFFSET_CEILING - chapterListLimit))
      && q.limit == Some(chapterListLimit)
  {
  }

  /** "shown / total" of the chapter list: the response offset plus the rows it holds. */
  function ShownCount(response: Option<(int, int)>): (r: int)
    ensures response.None? ==> r == 0
    ensures response.Some? ==> r == response.value.0 + response.value.1
  {
    if response.Some? then response.value.0 + response.value.1 else 0
  }

  /** A full page or the last, partial page of a list of `total` rows shows how far the reader
      has got: the shown count never exceeds the total, and equals it on the last page. */
  lemma ShownCountOfPage(p: nat, limit: int, total: int)
    requires limit > 0 && PageHasItems(p, limit, total)
    ensures var rows := if total - p * limit < limit then total - p * limit else limit;
      && ShownCount(Some((p * limit, rows))) <= total
      && (p + 1 == CeilPageCount(total, limit) ==> ShownCount(Some((p * limit, rows))) == total)
  {
    var n := CeilPageCount(total, limit);
    if p + 1 == n && total - p * limit >= limit {
      assert total <= n * limit;
    }
  }
}
