/** Branch selection of the data loader, the "read now" button of the detail page, the cache
    refreshes the reader, the detail page and the update lists ask for, and the derived values
    of the following list. */
module Views {
  import opened Wrappers
  import opened Seqs
  import opened MangadexTypes
  import opened MangaCache
  import FeedGrouping
  import RequestOptions
  import Pagination

  // --- data loader ---

  /** What the data loader renders. */
  datatype Rendered = ErrorMessage(message: string) | Skeleton | Placeholder | Children

  /** The loader: an error wins over loading, loading shows the supplied skeleton or the
      default placeholder, otherwise the children. `error` is the message of a truthy error;
      `loadingText` is accepted and never read: the contract fixes the result from the other
      three inputs alone. */
  function DataLoader(isLoading: bool, error: Option<string>, hasSkeleton: bool, loadingText: Option<string>): (r: Rendered)
    ensures r.ErrorMessage? <==> error.Some?
    ensures error.Some? ==> r == ErrorMessage(error.value)
    ensures r == Children <==> error.None? && !isLoading
    ensures r == Skeleton <==> error.None? && isLoading && hasSkeleton
    ensures r == Placeholder <==> error.None? && isLoading && !hasSkeleton
  {
    if error.Some? then ErrorMessage(error.value)
    else if isLoading then (if hasSkeleton then Skeleton else Placeholder)
    else Children
  }

  // --- first-chapter button ---

  /** A chapter entry of the aggregate, and a volume with its chapters in enumeration order. */
  datatype AggregateChapter = AggregateChapter(id: string)
  datatype Volume = Volume(chapters: seq<AggregateChapter>)

  /** What a click on "read now" ends in. */
  datatype Outcome = Navigate(chapterId: string) | ErrorToast

  /** The outcome and the button's loading flag after the click. */
  datatype Click = Click(outcome: Outcome, loading: bool)

  /** The id of the first chapter of the first volume; later volumes are never consulted, and
      an empty id counts as none. */
  function FirstChapterId(volumes: seq<Volume>): (r: Option<string>)
    ensures r.Some? <==> |volumes| > 0 && |volumes[0].chapters| > 0 && volumes[0].chapters[0].id != ""
    ensures r.Some? ==> r.value == volumes[0].chapters[0].id
  {
    if |volumes| > 0 && |volumes[0].chapters| > 0 && volumes[0].chapters[0].id != ""
    then Some(volumes[0].chapters[0].id)
    else None
  }

  /** A click: the aggregate fetch either throws, or resolves with volumes (possibly none).
      Loading is cleared only on the resolved path. */
  function ReadFirstChapter(response: FetchResult<seq<Volume>>): (r: Click)
    ensures r.outcome.Navigate? <==> response.Resolved? && FirstChapterId(response.payload.GetOr([])).Some?
    ensures r.outcome.Navigate? ==> Some(r.outcome.chapterId) == FirstChapterId(response.payload.value)
    ensures r.loading <==> response.Thrown?
  {
    match response
    case Thrown => Click(ErrorToast, true)
    case Resolved(volumes) =>
      var id := FirstChapterId(volumes.GetOr([]));
      Click(if id.Some? then Navigate(id.value) else ErrorToast, false)
  }

  /** Only the first volume matters: an empty first volume gives the error toast even when a
      later volume has chapters, and a failed fetch gives the same toast but leaves the button
      loading. */
  lemma FirstVolumeDecides(volumes: seq<Volume>, later: Volume)
    requires |volumes| > 0
    ensures FirstChapterId(volumes) == FirstChapterId(volumes[..1])
    ensures ReadFirstChapter(Resolved(Some([Volume([]), later]))) == Click(ErrorToast, false)
    ensures ReadFirstChapter(Thrown) == Click(ErrorToast, true)
  {
  }

  // --- chapter reader ---

  /** The cache refresh the chapter reader asks for once the chapter's manga id is known: none
      for an absent or empty id, otherwise a refresh of that single id with default includes. */
  function ReaderRefresh(mangaId: Option<string>): (r: Option<SearchOptions>)
    ensures r.Some? <==> mangaId.Some? && mangaId.value != ""
    ensures r.Some? ==> r.value.ids == Some([mangaId.value]) && r.value.includes.None?
  {
    if mangaId.Some? && mangaId.value != "" then Some(SearchOptions(Some([mangaId.value]), None, None, None, None, None, None))
    else None
  }

  /** The reader fetches its manga, with cover art only, exactly when it is not cached yet. */
  lemma ReaderFetchesUncachedManga(mangas: Mangas, id: string)
    requires id != ""
    ensures var p := PlanRefresh(mangas, ReaderRefresh(Some(id)).value);
      && (id in mangas ==> p.request.NoRequest?)
      && (id !in mangas ==> p.request == GetMangaId(id, [COVER_ART]))
  {
    SingleStaleId(mangas, [COVER_ART], id);
    var p := PlanRefresh(mangas, ReaderRefresh(Some(id)).value);
    if id in mangas {
      assert p.options.ids == Some([]);
    } else {
      assert p.options.ids == Some([id]);
    }
  }

  // --- detail page ---

  /** The cache refresh of the detail page: its own id, asking for artist and author. */
  function DetailRefresh(mangaId: string): (r: SearchOptions)
    ensures r.ids == Some([mangaId]) && r.includes == Some([ARTIST, AUTHOR])
  {
    SearchOptions(Some([mangaId]), None, Some([ARTIST, AUTHOR]), None, None, None, None)
  }

  /** With two includes the filter looks at the cached entry: the detail page fetches its manga,
      with cover art appended, exactly when it is uncached or lacks author or artist attributes. */
  lemma DetailPageFetchesIncompleteEntry(mangas: Mangas, id: string)
    ensures var p := PlanRefresh(mangas, DetailRefresh(id));
      var incomplete := id !in mangas || AuthorAttributesMissing(mangas[id]) || ArtistAttributesMissing(mangas[id]);
      && (incomplete ==> p.request == GetMangaId(id, [ARTIST, AUTHOR, COVER_ART]))
      && (!incomplete ==> p.request.NoRequest?)
  {
    var includes := [ARTIST, AUTHOR];
    DetailIncludes(mangas, id);
    SingleStaleId(mangas, includes, id);
    var p := PlanRefresh(mangas, DetailRefresh(id));
    if NeedsRefresh(mangas, includes, id) {
      assert p.options.ids == Some([id]);
    } else {
      assert p.options.ids == Some([]);
    }
  }

  lemma DetailIncludes(mangas: Mangas, id: string)
    ensures NeedsRefresh(mangas, [ARTIST, AUTHOR], id) <==>
      id !in mangas || AuthorAttributesMissing(mangas[id]) || ArtistAttributesMissing(mangas[id])
    ensures WithCoverArt([ARTIST, AUTHOR]) == [ARTIST, AUTHOR, COVER_ART]
  {
    assert AUTHOR in [ARTIST, AUTHOR] && ARTIST in [ARTIST, AUTHOR];
    assert COVER_ART !in [ARTIST, AUTHOR];
  }

  /** The filter on a one-id list keeps the id exactly when it needs a refresh. */
  lemma SingleStaleId(mangas: Mangas, includes: seq<string>, id: string)
    ensures StaleIds(mangas, includes, [id]) == if NeedsRefresh(mangas, includes, id) then [id] else []
  {
    var keep := (x: string) => NeedsRefresh(mangas, includes, x);
    assert [id][1..] == [];
    assert Filter([id], keep) == (if keep(id) then [id] else []) + Filter([id][1..], keep);
    assert Uniq([id]) == [id] by { assert [id][..0] == []; }
  }

  // --- new-updates lists ---

  /** The refreshes a list asks for once its data arrives: a cache refresh and a statistics
      refresh of the same ids. */
  datatype ListRefresh = ListRefresh(options: SearchOptions, statisticsIds: seq<string>)

  /** The refreshes of the two new-updates lists: nothing for a missing or empty feed,
      otherwise the feed's manga ids, duplicates kept, with default includes. */
  function FeedRefresh(chapters: Option<seq<Chapter>>): (r: Option<ListRefresh>)
    ensures r.Some? <==> chapters.Some? && |chapters.value| > 0
    ensures r.Some? ==>
      && r.value.options.ids == Some(r.value.statisticsIds)
      && r.value.options.includes.None?
      && forall m :: m in r.value.statisticsIds <==>
        exists i :: 0 <= i < |chapters.value| && FeedGrouping.MangaIdOf(chapters.value[i], FeedGrouping.NormalisedMangaField) == Some(m)
  {
    if chapters.None? || |chapters.value| == 0 then None
    else
      var ids := FeedGrouping.FeedIds(chapters.value, FeedGrouping.NormalisedMangaField);
      forall m ensures m in ids <==>
        exists i :: 0 <= i < |chapters.value| && FeedGrouping.MangaIdOf(chapters.value[i], FeedGrouping.NormalisedMangaField) == Some(m)
      {
        FeedGrouping.FeedIdsMembers(chapters.value, FeedGrouping.NormalisedMangaField, m);
      }
      Some(ListRefresh(SearchOptions(Some(ids), None, None, None, None, None, None), ids))
  }

  /** The feed's cache refresh fetches exactly the feed's manga not yet cached, each once, and
      issues no request when every chapter's manga is cached. */
  lemma FeedRefreshFetchesUncached(mangas: Mangas, chs: seq<Chapter>)
    requires |chs| > 0
    ensures var ids := FeedGrouping.FeedIds(chs, FeedGrouping.NormalisedMangaField);
      var p := PlanRefresh(mangas, FeedRefresh(Some(chs)).value.options);
      && p.options.ids == Some(Uniq(Filter(ids, id => id !in mangas)))
      && p.options.includes == Some([COVER_ART])
      && (p.request.NoRequest? <==> forall id :: id in ids ==> id in mangas)
  {
    var options := FeedRefresh(Some(chs)).value.options;
    SingleIncludeKeepsOnlyUncached(mangas, options);
  }

  /** The home-page updates list after a render: the chapters shown, the refreshes asked for
      and the page count of the widget. */
  datatype UpdatesView = UpdatesView(chapters: seq<Chapter>, refresh: Option<ListRefresh>, totalPage: int)

  /** The updates list for the feed response so far (none before it arrives) and the page count
      of the previous render: the response's chapters, a refresh whenever there are any, and a
      page count that follows only a non-zero total. */
  function UpdatesListAfter(response: Option<Page<Chapter>>, previousTotalPage: int, lastUpdatesLimit: int): (v: UpdatesView)
    requires lastUpdatesLimit > 0
    ensures response.None? ==> v.chapters == [] && v.refresh.None? && v.totalPage == previousTotalPage
    ensures response.Some? ==> v.chapters == response.value.data
    ensures v.refresh.Some? <==> response.Some? && |response.value.data| > 0
    ensures v.refresh.Some? ==> v.refresh == FeedRefresh(Some(response.value.data))
    ensures response.Some? && response.value.total == 0 ==> v.totalPage == previousTotalPage
    ensures response.Some? && response.value.total != 0 ==>
      (v.totalPage - 1) * lastUpdatesLimit < response.value.total <= v.totalPage * lastUpdatesLimit
  {
    var chapters := RequestOptions.ChaptersOf(response);
    var total := RequestOptions.LastUpdatesTotal(response);
    UpdatesView(chapters, FeedRefresh(Some(chapters)), Pagination.TotalPageAfter(previousTotalPage, total, lastUpdatesLimit))
  }

  /** Once a response with a non-zero total arrived, every update of the feed is on a page the
      widget offers and every offered page holds updates; a later response with a zero total
      keeps that count. */
  lemma UpdatesListPagesCoverFeed(response: Page<Chapter>, previousTotalPage: int, lastUpdatesLimit: int, i: nat, p: nat)
    requires lastUpdatesLimit > 0 && response.total != 0
    ensures var n := UpdatesListAfter(Some(response), previousTotalPage, lastUpdatesLimit).totalPage;
      && (i < response.total ==> Pagination.ItemReachable(i, lastUpdatesLimit, n))
      && (p < n ==> Pagination.PageHasItems(p, lastUpdatesLimit, response.total))
      && UpdatesListAfter(Some(response.(total := 0)), n, lastUpdatesLimit).totalPage == n
  {
    Pagination.UpdatesPageCountExact(previousTotalPage, response.total, lastUpdatesLimit, i, p);
  }

  // --- following list ---

  /** A row of the reading list served by the app's backend. */
  datatype FollowEntry = FollowEntry(
    seriesUuid: string,
    latestChapterUuid: string,
    title: Option<string>,
    chapterTitle: Option<string>)

  const UNTITLED_CHAPTER: string := "Không tên"

  /** The row title: the backend's title, else the catalog title of the cached manga as
      `catalogTitle` gives it. */
  function EntryTitle(e: FollowEntry, mangas: Mangas, catalogTitle: Option<Manga> -> string): (r: string)
    ensures e.title.Some? && e.title.value != "" ==> r == e.title.value
    ensures e.title.None? || e.title.value == "" ==>
      r == catalogTitle(if e.seriesUuid in mangas then Some(mangas[e.seriesUuid]) else None)
  {
    if e.title.Some? && e.title.value != "" then e.title.value
    else catalogTitle(if e.seriesUuid in mangas then Some(mangas[e.seriesUuid]) else None)
  }

  /** The row's chapter label: the chapter title, else "Không tên". */
  function EntryChapterTitle(e: FollowEntry): (r: string)
    ensures r != ""
    ensures e.chapterTitle.Some? && e.chapterTitle.value != "" ==> r == e.chapterTitle.value
    ensures e.chapterTitle.None? || e.chapterTitle.value == "" ==> r == UNTITLED_CHAPTER
  {
    if e.chapterTitle.Some? && e.chapterTitle.value != "" then e.chapterTitle.value else UNTITLED_CHAPTER
  }

  function SeriesIds(entries: seq<FollowEntry>): (r: seq<string>)
    ensures |r| == |entries| && forall i :: 0 <= i < |r| ==> r[i] == entries[i].seriesUuid
  {
    seq(|entries|, i requires 0 <= i < |entries| => entries[i].seriesUuid)
  }

  /** The refreshes the list asks for once its data arrives: a cache refresh of the listed
      series with only `cover_art` included, and a statistics refresh of the same ids. */

  function FollowingRefresh(data: Option<seq<FollowEntry>>): (r: Option<ListRefresh>)
    ensures data.None? <==> r.None?
    ensures data.Some? ==>
      && r.value.options.ids == Some(r.value.statisticsIds)
      && r.value.statisticsIds == SeriesIds(data.value)
      && r.value.options.includes == Some([COVER_ART])
  {
    if data.None? then None
    else
      var ids := SeriesIds(data.value);
      Some(ListRefresh(SearchOptions(Some(ids), None, Some([COVER_ART]), None, None, None, None), ids))
  }

  /** The list's cache refresh fetches exactly the listed series not yet cached, each once,
      and never issues a request when all are cached. */
  lemma FollowingRefreshFetchesUncached(mangas: Mangas, entries: seq<FollowEntry>)
    ensures var p := PlanRefresh(mangas, FollowingRefresh(Some(entries)).value.options);
      && p.options.ids == Some(Uniq(Filter(SeriesIds(entries), id => id !in mangas)))
      && p.options.includes == Some([COVER_ART])
      && (p.request.NoRequest? <==> forall i :: 0 <= i < |entries| ==> entries[i].seriesUuid in mangas)
  {
    var options := FollowingRefresh(Some(entries)).value.options;
    SingleIncludeKeepsOnlyUncached(mangas, options);
    var ids := SeriesIds(entries);
    var p := PlanRefresh(mangas, options);
    if p.request.NoRequest? {
      forall i | 0 <= i < |entries| ensures entries[i].seriesUuid in mangas {
        assert ids[i] in ids;
      }
    }
  }
}
