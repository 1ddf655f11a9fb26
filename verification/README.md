# customdex client rules in Dafny

A Dafny model of the decision logic of customdex. customdex is a Vietnamese manga-reading web client over the MangaDex catalog. The model covers these parts:

- the id-keyed manga cache and the statistics cache of the catalog context: which ids a refresh fetches, which request it sends, and how responses are written;
- the option shaping of the data hooks: forced filters, defaults and the deep-pagination offset clamp at 10000;
- the grouping of a chapter feed by manga, for the recent-chapters hook (three chapters per manga) and the two new-updates lists (no cap);
- the chapter reader's navigation state: current index, previous/next/go-to, other translations, and the chapter select;
- the advanced-search form: the three-state tag toggle and the sort select that sets the order object;
- the pagination arithmetic of every list, each with its own page-count formula;
- the text rules of the detail page: the description cut at 300 characters with its "[Xem thêm]" marker, the marker wrapping of the Markdown component, and the tag and row separators;
- the data loader, the "read now" button, the cache refreshes the reader, the detail page and the lists ask for, and the derived values of the following list;
- the input schemas of the catalog and chapter API procedures, as predicates over JSON values.

Responses from the network are inputs. A fetch either resolves, with or without a payload (`FetchResult`), or throws. The relationship normaliser (`extend`), the URI encoder and the catalog-title helper are function parameters. The page-size constants of the chapter list and of the latest-updates feed are positive parameters (`chapterListLimit`, `lastUpdatesLimit`), because their values are not among the modelled files.

Modules: `Wrappers`, `Seqs` (the lodash `uniq`, filter and remove), `MangadexTypes`, `MangaCache`, `RequestOptions`, `FeedGrouping`, `ChapterNavigation`, `SearchForm`, `Pagination`, `TextRules`, `Views` and `Validators`.

Two behaviours of the code are easy to misread:

- A cache refresh does not merge fields. Each returned id replaces its whole cached entry, so a cached author can disappear (`MangaCache.RefreshReplacesWholeEntry`).
- An expanded long description has no "[Thu gọn]" marker after it, so it cannot be collapsed again (see Findings).

## Model

| member | source | states |
|---|---|---|
| MangaCache.WithCoverArt | src/app/_components/contexts/mangadex.tsx:69-71 | afterwards `cover_art` is in the list; nothing else is added; the old list is an unchanged prefix, so `cover_art` is appended at the end and only when missing |
| MangaCache.StaleIds | src/app/_components/contexts/mangadex.tsx:50-67 | the kept ids are duplicate-free, and an id is kept exactly when it was requested and still needs a refresh |
| MangaCache.PlanRefresh | src/app/_components/contexts/mangadex.tsx:45-102 | an absent include list becomes `[cover_art]` before the filter and `cover_art` is appended after it; no ids means a batch search without ids; zero remaining ids means no request, exactly when every requested id is fresh; one remaining id means a single fetch of that id with the final include list; otherwise a batch search with limit 100 and all four ratings |
| MangaCache.AddMangas | src/app/_components/contexts/mangadex.tsx:120-132 | the keys become the old keys plus the listed ids; an unlisted key keeps its entry |
| MangaCache.AddMangasLastWins | src/app/_components/contexts/mangadex.tsx:123-129 | each listed id holds the normalised last manga listed under it |
| MangaCache.StoreOne | src/app/_components/contexts/mangadex.tsx:77-91 | the single fetch rejects exactly when it throws; a payload replaces only the requested key; no payload leaves the cache as it was |
| MangaCache.StoreBatch | src/app/_components/contexts/mangadex.tsx:101-115 | the batch path never rejects; a payload is added as by `addMangas`; a thrown or empty response leaves the cache as it was |
| MangaCache.UpdateMangas | src/app/_components/contexts/mangadex.tsx:45-118 | no request leaves the cache unchanged; the refresh rejects exactly when the single fetch throws; a single-fetch payload is stored under the requested id and a batch payload is added as by `addMangas`; any other outcome leaves the cache unchanged; no key is lost; a new key is the single-fetch id or an id of the batch payload |
| MangaCache.MissingStatistics | src/app/_components/contexts/mangadex.tsx:136 | the ids sent are duplicate-free, and exactly the requested ids without statistics |
| MangaCache.UpdateMangaStatistics | src/app/_components/contexts/mangadex.tsx:134-151 | no request exactly when every id has statistics; the ids sent are the missing ones; after a payload the keys are the union and response keys win; otherwise the cache is unchanged |
| MangaCache.PopulatedEntriesAreNotRefetched | src/app/_components/contexts/mangadex.tsx:55-65 | when every requested id is cached with author and artist attributes, nothing is fetched and the cache is unchanged |
| MangaCache.SingleIncludeKeepsOnlyUncached | src/app/_components/contexts/mangadex.tsx:52-54 | with a one-element include list (an absent list included), exactly the uncached ids are kept, deduplicated |
| MangaCache.SingleIdScenario | src/app/_components/contexts/mangadex.tsx:76-81 | one uncached id requested with `[author]` becomes a single fetch with includes `[author, cover_art]` |
| MangaCache.BatchScenario | src/app/_components/contexts/mangadex.tsx:93-102 | three uncached ids become one batch search carrying those ids, limit 100 and the four ratings in source order |
| MangaCache.RefreshReplacesWholeEntry | src/app/_components/contexts/mangadex.tsx:83-88 | a fetched entry without an author replaces a cached one that had an author; fields are not merged |
| RequestOptions.ClampOffsetBounds | src/app/_components/hooks/mangadex/useSearchManga.tsx:20-22 | a clamped offset never exceeds 10000; a rewritten one lies one page below 10000; clamping twice changes nothing; 10001 is rewritten and 10000 is not |
| RequestOptions.PrepareSearchOptions | src/app/_components/hooks/mangadex/useSearchManga.tsx:14-22 | a non-empty title is replaced by its encoding; an absent include list becomes `[cover_art]`; an offset above 10000 becomes 10000 minus `limit or 10`; every other field is unchanged |
| RequestOptions.MangaList | src/app/_components/hooks/mangadex/useSearchManga.tsx:28-37 | the list is empty unless a response arrived with result "ok"; otherwise it holds each returned manga normalised, in order |
| RequestOptions.UseSearchManga | src/app/_components/hooks/mangadex/useSearchManga.tsx:23-39 | when disabled nothing is requested and the list is empty, whatever the response would be; when enabled the prepared options are requested |
| RequestOptions.PrepareFeedOptions | src/app/_components/hooks/mangadex/useChapterList.tsx:13-32 | language `vi`, includes scanlation group and user, order volume then chapter descending, all four ratings and the chapter-list limit are forced; the offset is clamped against that limit |
| RequestOptions.FeedOptionsIgnoreForcedFields | src/app/_components/hooks/mangadex/useChapterList.tsx:14-29 | callers that differ only in the forced fields send the same request |
| RequestOptions.LastUpdatesRequest | src/app/_components/hooks/mangadex/useLastUpdates.tsx:18-36 | offset is page times the limit, clamped above 10000; the page size is the limit; the request asks for Vietnamese, safe and suggestive, readable-at descending, scanlation group and manga; there is a group filter only for a non-empty group id |
| RequestOptions.MangaPageOffset | src/app/_components/hooks/mangadex/useManga.tsx:22-23 | page and limit default to 0 and 32; the offset is the start of the requested page: a multiple of the limit whose quotient is the page, 0 without a page |
| RequestOptions.MangaPageIsNotClamped | src/app/_components/hooks/mangadex/useManga.tsx:22-23 | a page past the 10000 ceiling is requested at its own offset, while the updates feed would move the same page back to one page below the ceiling |
| RequestOptions.CoverUrlRoundTrip | src/app/_components/hooks/mangadex/useManga.tsx:54-56 | a cover URL gives back the manga id and the file name it was built from, for ids without a slash |
| RequestOptions.CoverManga | src/app/_components/hooks/mangadex/useManga.tsx:46-62 | the manga is kept whole; the file name comes from the first cover-art relationship; a URL is built exactly when that name is non-empty, and is null otherwise |
| RequestOptions.UseManga | src/app/_components/hooks/mangadex/useManga.tsx:44-69 | one covered entry per returned manga, in order; total 0 without a response; loading exactly while there is neither data nor error |
| FeedGrouping.MangaIdOf | src/app/_components/hooks/mangadex/useRecentChapters.tsx:17-18 | a chapter yields a manga id only if it is non-empty; a chapter without one is skipped |
| FeedGrouping.FeedIds | src/app/_components/nettrom/trang-chu/new-updated-titles.tsx:262-276 | the ids sent to the two cache refreshes are at most one per chapter |
| FeedGrouping.FeedIdsMembers | src/app/_components/nettrom/trang-chu/new-updated-titles.tsx:265 | an id is among the refreshed ids exactly when some chapter of the feed carries it as its manga id |
| FeedGrouping.FeedIdsAligned | src/app/_components/nettrom/common/new-updates.tsx:43 | when every chapter carries a manga id, nothing is filtered out: the ids are the chapters' manga ids, one per chapter in feed order |
| FeedGrouping.FeedIdsHaveChapters | src/app/_components/nettrom/common/new-updates.tsx:29-54 | a manga is refreshed exactly when it has a bucket of chapters in the list |
| FeedGrouping.Capped | src/app/_components/nettrom/trang-chu/new-updated-titles.tsx:164 | a tile shows a prefix of its bucket, of length the smaller of the bucket size and the cap |
| FeedGrouping.GroupByManga | src/app/_components/hooks/mangadex/useRecentChapters.tsx:13-31 | the grouping loop computes the reference grouping: one group per distinct manga id in order of first appearance, each holding that manga's first chapters up to the cap, in feed order |
| FeedGrouping.GroupedSnoc | src/app/_components/nettrom/common/new-updates.tsx:29-38 | appending a chapter to the feed is one iteration of the bucketing loop on the reference grouping |
| FeedGrouping.GroupsWellFormed | src/app/_components/hooks/mangadex/useRecentChapters.tsx:20-27 | every group is non-empty under a positive cap or no cap, holds at most the cap, and holds only feed chapters of its own manga; group ids are distinct |
| FeedGrouping.EveryKeptChapterIsGrouped | src/app/_components/nettrom/trang-chu/new-updated-titles.tsx:251-260 | without a cap, every chapter with a manga id lands in the bucket of that manga |
| FeedGrouping.GroupCount | src/app/_components/hooks/mangadex/useRecentChapters.tsx:16-30 | there are as many groups as distinct manga ids among the chapters |
| FeedGrouping.TileMatchesRecentGroup | src/app/_components/nettrom/common/new-updates.tsx:171 | the first three chapters of an uncapped bucket are exactly the capped group of the recent-chapters hook |
| ChapterNavigation.CurrentIndex | src/app/_components/contexts/chapter.tsx:73-76 | the index is -1 exactly when no entry matches; otherwise it is the first matching position |
| ChapterNavigation.CanPrev | src/app/_components/contexts/chapter.tsx:77 | "previous" is enabled exactly when the chapter is listed and its first occurrence is not the head |
| ChapterNavigation.CanNext | src/app/_components/contexts/chapter.tsx:78-79 | "next" is enabled exactly when the chapter occurs before the last position |
| ChapterNavigation.Prev | src/app/_components/contexts/chapter.tsx:84-88 | moves to the entry before the current one when enabled, and otherwise changes nothing |
| ChapterNavigation.Next | src/app/_components/contexts/chapter.tsx:90-97 | moves to the entry after the current one when enabled, and otherwise changes nothing |
| ChapterNavigation.GoTo | src/app/_components/contexts/chapter.tsx:99-104 | sets the chapter id unconditionally and keeps the list |
| ChapterNavigation.Others | src/app/_components/contexts/chapter.tsx:81-82 | the current entry's other translations when it is listed, and none otherwise |
| ChapterNavigation.IndexOfListed | src/app/_components/contexts/chapter.tsx:74 | with distinct ids, the index of a listed id is its position |
| ChapterNavigation.GoToListed | src/app/_components/contexts/chapter.tsx:99-104 | with distinct ids, going to a listed id selects its position |
| ChapterNavigation.NextThenPrev | src/app/_components/contexts/chapter.tsx:84-97 | with distinct ids, an enabled `next` moves the index up by one and `prev` then restores the reader |
| ChapterNavigation.PrevThenNext | src/app/_components/contexts/chapter.tsx:84-97 | with distinct ids, an enabled `prev` moves the index down by one and `next` then restores the reader |
| ChapterNavigation.ChapterLabelKinds | src/app/_components/nettrom/chuong/chapter-control-bar.tsx:77-82 | the label starts with "Tập " exactly when a volume is known, is "Oneshot" exactly when neither number is, and otherwise ends with the chapter number |
| ChapterNavigation.ChapterOptions | src/app/_components/nettrom/chuong/chapter-control-bar.tsx:75-85 | one option per chapter, in list order, valued by the chapter id and captioned by the label rule |
| ChapterNavigation.ChooseOption | src/app/_components/nettrom/chuong/chapter-control-bar.tsx:72-74 | with distinct ids, choosing option i moves the reader to position i |
| ChapterNavigation.SelectValue | src/app/_components/nettrom/chuong/chapter-control-bar.tsx:71 | the select shows the chapter id, or "Đang tải..." when it is absent or empty |
| SearchForm.GetTagState | src/app/_components/nettrom/tim-kiem/search-manga-form.tsx:225-229 | included exactly when in the included list, which wins; excluded exactly when only in the excluded list |
| SearchForm.ToggleTagState | src/app/_components/nettrom/tim-kiem/search-manga-form.tsx:231-251 | neutral appends to the included list; included removes every occurrence from it and appends to the excluded list; excluded removes every occurrence from that list and leaves the included list alone |
| SearchForm.ToggleSteps | src/app/_components/nettrom/tim-kiem/search-manga-form.tsx:234-250 | a click moves the clicked tag one step along neutral, included, excluded, and changes no other tag |
| SearchForm.ToggleCycle | src/app/_components/nettrom/tim-kiem/search-manga-form.tsx:231-251 | three clicks restore every tag's state |
| SearchForm.SetOrder | src/app/_components/nettrom/tim-kiem/search-manga-form.tsx:302-327 | a select value "0" to "5" replaces the order by its single key and direction; any other value keeps the order |
| SearchForm.DeriveOrderType | src/app/_components/nettrom/tim-kiem/search-manga-form.tsx:273-295 | the value is the first of "0" to "5", in that order, whose key the order carries with that value's direction; there is none exactly when the order carries none of the six |
| SearchForm.NoneCarriedBelowAll | src/app/_components/nettrom/tim-kiem/search-manga-form.tsx:273-295 | "none of the first n values is carried" holds exactly when no value below n is carried, which is the form the none case of `DeriveOrderType` takes |
| SearchForm.InitialOrderType | src/app/_components/nettrom/tim-kiem/search-manga-form.tsx:267-297 | a non-empty URL value, or no order, keeps the normalised value; otherwise a derivable order decides, and an order from which no value derives keeps the normalised value |
| SearchForm.OrderTypeRoundTrip | src/app/_components/nettrom/tim-kiem/search-manga-form.tsx:273-327 | deriving the select value from the order each value sets gives that value back |
| SearchForm.DerivedOrderTypeIsSound | src/app/_components/nettrom/tim-kiem/search-manga-form.tsx:273-295 | a derived value names a key of the order with its direction; for a single-key order, setting it gives the same order back |
| Pagination.UrlPage | src/app/_components/nettrom/tim-kiem/manga-results.tsx:20-23 | without an offset the page is 0; without a limit the page is the one of 24 results holding the offset; a positive limit gives the page holding the offset; only a zero limit gives no page |
| Pagination.ResultsPage | src/app/_components/nettrom/tim-kiem/manga-results.tsx:23 | for a positive limit, the page is the one whose item range contains the offset; a zero limit has no page |
| Pagination.GoToPage | src/app/_components/nettrom/tim-kiem/manga-results.tsx:25-28 | the offset becomes the start of page `p`, `p` times the limit; every other option is kept |
| Pagination.GoToPageRoundTrip | src/app/_components/nettrom/tim-kiem/manga-results.tsx:23-26 | for a positive limit, the page read back after `goToPage(p)` is `p` |
| Pagination.PushedSearchOptions | src/app/_components/nettrom/tim-kiem/manga-results.tsx:14-28 | the pushed options are the URL options as `useSearchManga` rewrote them in place: the title encoded when non-empty, includes defaulted to `[cover_art]`, and the offset set to the new page's start; every other field is the URL's |
| Pagination.PushedPageReadsBack | src/app/_components/nettrom/tim-kiem/manga-results.tsx:20-28 | with a positive or absent limit, the page read back from the pushed offset is the page the widget asked for |
| Pagination.ResultsPageCount | src/app/_components/nettrom/tim-kiem/manga-results.tsx:94 | the count is the floor count of the response total; it is 0 unless a successful response has arrived |
| Pagination.FloorPageCount | src/app/_components/nettrom/common/new-updates.tsx:204 | the count times the limit is at most the total, and one more page would pass it |
| Pagination.ChapterListPageCount | src/app/_components/nettrom/truyen-tranh/chapter-list.tsx:77-81 | the count is at least 1, exactly 1 for no total, and one more than the number of full pages |
| Pagination.CeilPageCount | src/app/_components/nettrom/trang-chu/new-updated-titles.tsx:278-281 | the count pages cover the total, and one page fewer would not |
| Pagination.CeilPageCountExact | src/app/_components/nettrom/trang-chu/new-updated-titles.tsx:280 | every item lies on a counted page, and every counted page holds an item |
| Pagination.FloorPageCountHidesLastPage | src/app/_components/nettrom/tim-kiem/manga-results.tsx:94 | one item more than a page gives a floor count of 1; the widget is hidden and the last item unreachable; the ceiling count is 2 |
| Pagination.ChapterListExtraPage | src/app/_components/nettrom/truyen-tranh/chapter-list.tsx:77-81 | a total of k full pages gives k+1 pages, the last one empty; the ceiling count is k |
| Pagination.EmptyChapterListHidesPagination | src/app/_components/nettrom/Pagination.tsx:4 | with no chapters the chapter-list count is 1 and the widget renders nothing |
| Pagination.TotalPageAfter | src/app/_components/nettrom/trang-chu/new-updated-titles.tsx:278-281 | a zero total leaves the page count as it was; any other total gives the least count whose pages cover the total |
| Pagination.UpdatesPageCountExact | src/app/_components/nettrom/trang-chu/new-updated-titles.tsx:278-281 | after a non-zero total every update is on a counted page and every counted page holds updates; a later zero total keeps the count, even a stale one |
| Pagination.UpdatesPageParam | src/app/_components/nettrom/trang-chu/new-updated-titles.tsx:241 | the page is 0 without a URL page and the URL page otherwise; the `?? 0` fallback never applies |
| Pagination.UpdatesPageRequest | src/app/_components/hooks/mangadex/useLastUpdates.tsx:18-21 | without a URL page the updates request starts at offset 0; a URL page within the ceiling is requested at an offset that reads back as that page |
| Pagination.FollowingWidget | src/app/_components/nettrom/theo-doi/following-list.tsx:142-146 | the widget gets the backend's last page as its count; the highlighted index is a valid widget index exactly when the 1-based page is a valid page; page 1 highlights index 0 |
| Pagination.SelectFollowingPage | src/app/_components/nettrom/theo-doi/following-list.tsx:142-146 | after selecting an index, the widget highlights that same index whatever the page count, and an index inside the widget gives a page between 1 and the last page |
| Pagination.ChapterListRequestOffset | src/app/_components/nettrom/truyen-tranh/manga.tsx:37-40 | the detail page's chapter request has offset page times the limit while within 10000, and is clamped beyond it |
| Pagination.ShownCount | src/app/_components/nettrom/truyen-tranh/chapter-list.tsx:87 | the shown count is 0 without a response, and the response's offset plus its number of rows otherwise |
| Pagination.ShownCountOfPage | src/app/_components/nettrom/truyen-tranh/chapter-list.tsx:84-88 | the shown count of a page never exceeds the total, and equals it on the last page |
| TextRules.WrapMarkerFree | src/app/_components/nettrom/Markdown.tsx:10-13 | text with neither marker passes through unchanged |
| TextRules.WrapAtMarker | src/app/_components/nettrom/Markdown.tsx:11-12 | every marker, wherever it occurs, becomes a span holding the marker text verbatim, with the text around it wrapped independently |
| TextRules.DescriptionText | src/app/_components/nettrom/truyen-tranh/manga.tsx:250-256 | a non-empty Vietnamese description wins; otherwise a non-empty English one; the text is empty exactly when neither is non-empty or the manga is not loaded |
| TextRules.DescriptionContentCases | src/app/_components/nettrom/truyen-tranh/manga.tsx:249-267 | collapsed, a text of at most 300 characters is shown whole and a longer one as its first 300 followed by "... [Xem thêm]"; expanded, the text is shown whole |
| TextRules.ClickToggle | src/app/_components/nettrom/truyen-tranh/manga.tsx:269-277 | a click flips the state exactly when its target text is one of the two markers |
| TextRules.CollapsedDescriptionExpands | src/app/_components/nettrom/truyen-tranh/manga.tsx:253-267 | a long collapsed description renders its cut text and a clickable "[Xem thêm]" that expands it |
| TextRules.ExpandedDescriptionCannotCollapse | src/app/_components/nettrom/truyen-tranh/manga.tsx:258-266 | an expanded long description renders with no marker, so nothing can collapse it |
| TextRules.IntendedDescriptionToggles | src/app/_components/nettrom/truyen-tranh/manga.tsx:258-267 | with the corrected content, a long description carries the marker that flips it in both states, and agrees with the code while collapsed |
| TextRules.ShortDescriptionUnchanged | src/app/_components/nettrom/truyen-tranh/manga.tsx:258-264 | a short description is shown whole, with no marker, in both states and by both definitions |
| TextRules.TagLineIsJoin | src/app/_components/nettrom/truyen-tranh/manga.tsx:155-173 | the tag line is the names joined by ", ", with nothing after the last |
| TextRules.RowSeparated | src/app/_components/nettrom/truyen-tranh/chapter-list.tsx:41 | every chapter row except the last gets the separator, by the same rule as the tag dividers |
| Views.DataLoader | src/app/_components/DataLoader.tsx:11-39 | an error wins over loading; loading shows the skeleton if one is given and the placeholder otherwise; the children show exactly when there is neither; the loading text plays no part |
| Views.FirstChapterId | src/app/_components/nettrom/truyen-tranh/first-chapter-button.tsx:19-21 | the target is the non-empty id of the first chapter of the first volume, and nothing otherwise |
| Views.ReadFirstChapter | src/app/_components/nettrom/truyen-tranh/first-chapter-button.tsx:13-31 | navigation happens exactly when the fetch resolved with a first chapter; the button stays loading exactly when the fetch threw |
| Views.FirstVolumeDecides | src/app/_components/nettrom/truyen-tranh/first-chapter-button.tsx:19-30 | later volumes are never consulted; an empty first volume gives the error toast, and so does a thrown fetch, which leaves the button loading |
| Views.ReaderRefresh | src/app/_components/contexts/chapter.tsx:106-110 | the reader asks for a refresh of its manga id with default includes exactly when that id is non-empty |
| Views.ReaderFetchesUncachedManga | src/app/_components/contexts/chapter.tsx:106-110 | the reader's refresh fetches the manga with cover art exactly when it is not cached |
| Views.DetailRefresh | src/app/_components/nettrom/truyen-tranh/manga.tsx:60-67 | the detail page refreshes its own id, asking for artist and author |
| Views.DetailPageFetchesIncompleteEntry | src/app/_components/nettrom/truyen-tranh/manga.tsx:60-67 | the detail page fetches its manga, with cover art appended, exactly when it is uncached or lacks author or artist attributes |
| Views.EntryTitle | src/app/_components/nettrom/theo-doi/following-list.tsx:59-60 | a non-empty backend title is kept; otherwise the catalog title of the cached manga is shown |
| Views.EntryChapterTitle | src/app/_components/nettrom/theo-doi/following-list.tsx:121 | the chapter label is the chapter title when that is non-empty, and exactly "Không tên" otherwise |
| Views.SeriesIds | src/app/_components/nettrom/theo-doi/following-list.tsx:31 | one id per entry, in order |
| Views.FeedRefresh | src/app/_components/nettrom/common/new-updates.tsx:40-54 | no refresh for a missing or empty feed; otherwise a cache refresh with default includes and a statistics refresh of the same ids, which are the feed's manga ids |
| Views.FeedRefreshFetchesUncached | src/app/_components/nettrom/trang-chu/new-updated-titles.tsx:262-276 | the feed's cache refresh fetches exactly the feed's uncached manga with cover art, each once, and sends nothing when all are cached |
| Views.UpdatesListAfter | src/app/_components/nettrom/trang-chu/new-updated-titles.tsx:241-281 | before a response: no chapters, no refresh, page count unchanged; after it: the response's chapters, a refresh exactly when there are any, and a page count that changes only for a non-zero total, to the least count covering it |
| Views.UpdatesListPagesCoverFeed | src/app/_components/nettrom/trang-chu/new-updated-titles.tsx:278-281 | once a non-zero total arrived, every update is on an offered page and every offered page holds updates; a later zero total keeps the count |
| Views.FollowingRefresh | src/app/_components/nettrom/theo-doi/following-list.tsx:29-34 | no refresh before data; after it, a cover-art-only cache refresh and a statistics refresh of exactly the listed series |
| Views.FollowingRefreshFetchesUncached | src/app/_components/nettrom/theo-doi/following-list.tsx:29-34 | the list's cache refresh fetches exactly the uncached listed series, each once, and sends nothing when all are cached |
| Validators.EmptyObjectIsValid | src/server/api/routers/mangadex.ts:21-37 | every search and chapter-list field is optional, so the empty object passes; a non-object never passes; the by-id schema needs its id |
| Validators.NullIsNotMissing | src/server/api/routers/chapter.ts:35-47 | `null` under any key the search, chapter-list or by-id schemas declare is refused, whatever else the input holds |
| Validators.UndeclaredKeysIgnored | src/server/api/routers/mangadex.ts:21-37 | `null` under a key a schema does not declare is accepted exactly when leaving the key out is |
| Validators.ChapterIncludes | src/server/api/routers/chapter.ts:6-10 | the chapter procedures refuse cover art, author and artist, which the catalog procedures accept, and accept scanlation group and user |
| Validators.FollowedCountOrder | src/server/api/routers/mangadex.ts:67-74 | adding any `followedCount` value to an order leaves `getSearchManga`'s order check as it was, while `searchManga` also needs the value to be "desc" |
| Validators.SearchMangaIsStricter | src/server/api/routers/mangadex.ts:59-78 | every input `searchManga` accepts, `getSearchManga` accepts too |
| Validators.AppRatingsAccepted | src/server/api/routers/mangadex.ts:6-11 | the four-rating list of the app's requests passes the rating check, and adding any other entry fails it |
| Validators.ParseStrings | src/server/api/routers/chapter.ts:38 | a string array parses exactly when every element is a string, and gives those strings in order |
| Validators.StringsRoundTrip | src/server/api/routers/chapter.ts:38 | an encoded list of strings parses back to itself |
| Validators.ParseById | src/server/api/routers/mangadex.ts:45-50 | a by-id input parses exactly when the schema holds; the parse keeps the id, has includes exactly when the key is present, and takes them from the allowed list |
| Validators.ByIdRoundTrip | src/server/api/routers/chapter.ts:13-19 | a request whose includes come from the allowed list parses back to itself |

## Left out

- HTTP and transport: the request functions of the API client, the axios instance and the statistics path building. Responses are inputs (`FetchResult`: resolved with or without a payload, or thrown).
- The relationship normaliser, the catalog-title and cover-art helpers, the URL parameter normaliser and the search-URL builder are not part of this model. The normaliser and the title helper are function parameters; the URL parameter normaliser is represented by its result (`normalised`).
- The values of the chapter-list and latest-updates page sizes are not part of this model. They are parameters.
- Concurrency: stale `mangas` / `mangaStatistics` closures, overlapping fetches, React state batching and render timing. Each refresh is modelled against the cache it starts from.
- SWR and tRPC caching and key-based deduplication: library behaviour. The search hook's null key is modelled as "no request".
- Zod's stripping of unknown keys: library behaviour. The validators accept undeclared keys and say nothing about the parsed output, except for the by-id parse. JSON numbers are integers, so zod's refusal of NaN and its handling of non-integral numbers are not modelled.
- JavaScript object key order: the new-updates lists iterate their buckets with `Object.entries`, and the "read now" button takes the first volume and chapter with `Object.values` (first-chapter-button.tsx:19-21). Both put integer-like keys first. The model keeps first-appearance order, which is what the recent-chapters `Map` does.
- `parseInt` and `Number` on malformed URL parameters (NaN), and the infinite page count of a zero limit: a zero limit gives no page (`None`) instead.
- `slice(0, 300)` counts UTF-16 code units. The model counts characters, which agrees for text within the Basic Multilingual Plane.
- Floating point: the rating rounding, `toFixed` and view-count formatting.
- Dates and relative-time formatting.
- Browser side effects: `history.pushState`, `document.title`, scrolling, the reader's keyboard listener, the reading-history write and toasts (the toast is an outcome value).
- The page state of the new-updates list: it starts at 0 and is set to the selected widget index, with no arithmetic.
- The request body of `useManga`: only its offset and the covered response are modelled; its fixed filters (Vietnamese, four ratings, latest-chapter order, cover art, has-chapters) are not.
- The debounced title search of the search form (a timer), the form submit and reset.
- The search results' `addMangas` and statistics side effects, which reuse the modelled cache operations.
- The search-URL builder: `Pagination.PushedSearchOptions` gives the options object that is pushed, not the URL. Whether an already encoded title is encoded again on the next load depends on that builder, so it is not decided.

## Findings

| source | as written | input that shows it | evidently intended | confidence | as-written member | corrected member |
|---|---|---|---|---|---|---|
| src/app/_components/nettrom/tim-kiem/manga-results.tsx:94 | the page count is `Math.floor(total / limit)` (also in new-updates.tsx:204) | limit 24, total 25: one page is counted, the widget is hidden and result 24 cannot be reached | `Math.ceil(total / limit)`, as the home page uses | high (not executed) | Pagination.FloorPageCountHidesLastPage | Pagination.CeilPageCountExact |
| src/app/_components/nettrom/truyen-tranh/chapter-list.tsx:77-81 | the page count is `Math.floor(total / limit) + 1` | total equal to twice the limit: three pages, the third empty | `Math.ceil(total / limit)` | medium (not executed) | Pagination.ChapterListExtraPage | Pagination.CeilPageCountExact |
| src/app/_components/nettrom/truyen-tranh/manga.tsx:258-266 | the " [Thu gọn]" suffix is chosen only when `isExpanded` holds, inside a branch `isExpanded` has already ruled out | any marker-free description longer than 300 characters, expanded: no marker is rendered, so it cannot be collapsed | an expanded long description ends with " [Thu gọn]", which collapses it | high (not executed) | TextRules.ExpandedDescriptionCannotCollapse | TextRules.IntendedDescriptionToggles |
