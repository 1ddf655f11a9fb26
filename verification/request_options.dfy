/** Request-option shaping in the data hooks: defaults, forced filters and the deep-pagination
    offset clamp applied before a catalog request, and the views derived from the response. */
module RequestOptions {
  import opened Wrappers
  import opened MangadexTypes

  /** The catalog refuses offsets beyond this ceiling. */
  const OFFSET_CEILING: int := 10000
  /** The limit the search clamp assumes when none (or 0) is given: `limit || 10`. */
  const DEFAULT_CLAMP_LIMIT: int := 10
  /** `useManga` defaults. */
  const DEFAULT_MANGA_PAGE: int := 0
  const DEFAULT_MANGA_LIMIT: int := 32
  const COVER_BASE_URL: string := "https://uploads.mangadex.org/covers/"
  const VIETNAMESE: string := "vi"
  const RESULT_OK: string := "ok"

  /** The offset clamp: an offset strictly above the ceiling is moved back so that one page of
      `limit` items ends at the ceiling; any other offset is kept. */
  function ClampOffset(offset: int, limit: int): int {
    if offset > OFFSET_CEILING then OFFSET_CEILING - limit else offset
  }

  /** The clamp keeps every offset it leaves alone within the ceiling, puts a rewritten one a
      full page below the ceiling, and is idempotent for page sizes within the ceiling. */
  lemma ClampOffsetBounds(offset: int, limit: int)
    requires 0 <= limit <= OFFSET_CEILING
    ensures ClampOffset(offset, limit) <= OFFSET_CEILING
    ensures ClampOffset(offset, limit) != offset ==> ClampOffset(offset, limit) + limit == OFFSET_CEILING
    ensures ClampOffset(ClampOffset(offset, limit), limit) == ClampOffset(offset, limit)
    ensures ClampOffset(10001, limit) == OFFSET_CEILING - limit
    ensures ClampOffset(10000, limit) == 10000
  {
  }

  /** `limit || 10`: an absent or zero limit reads as 10. */
  function LimitOrDefault(limit: Option<int>): int {
    if limit.Some? && limit.value != 0 then limit.value else DEFAULT_CLAMP_LIMIT
  }

  /** `useSearchManga` option rewriting: a non-empty title is URI-encoded by `encode`, an absent
      include list becomes `[cover_art]`, and an offset above the ceiling is clamped using
      `limit || 10`. Nothing else changes. */
  function PrepareSearchOptions(options: SearchOptions, encode: string -> string): (r: SearchOptions)
    ensures options.title.Some? && options.title.value != "" ==> r.title == Some(encode(options.title.value))
    ensures options.title.None? || options.title.value == "" ==> r.title == options.title
    ensures r.includes.Some?
    ensures options.includes.None? ==> r.includes == Some([COVER_ART])
    ensures options.includes.Some? ==> r.includes == options.includes
    ensures options.offset.Some? && options.offset.value > OFFSET_CEILING ==>
      r.offset == Some(OFFSET_CEILING - LimitOrDefault(options.limit))
    ensures options.offset.None? || options.offset.value <= OFFSET_CEILING ==> r.offset == options.offset
    ensures r.(title := options.title, includes := options.includes, offset := options.offset) == options
  {
    var title := if options.title.Some? && options.title.value != "" then Some(encode(options.title.value)) else options.title;
    var includes := Some(options.includes.GetOr([COVER_ART]));
    var offset :=
      if options.offset.Some? && options.offset.value != 0 && options.offset.value > OFFSET_CEILING
      then Some(OFFSET_CEILING - LimitOrDefault(options.limit))
      else options.offset;
    options.(title := title, includes := includes, offset := offset)
  }

  /** The search response: `result` is "ok" on success. */
  datatype SearchResponse = SearchResponse(result: string, page: Page<Manga>)

  /** What `useSearchManga` exposes: the request issued (None for the null key) and the list. */
  datatype SearchView = SearchView(request: Option<SearchOptions>, mangaList: seq<Manga>)

  /** `mangaList`: empty unless a response arrived with result "ok"; otherwise each returned
      manga normalised by `extend`, in order. */
  function MangaList(response: Option<SearchResponse>, extend: Manga -> Manga): (r: seq<Manga>)
    ensures response.None? || response.value.result != RESULT_OK ==> r == []
    ensures response.Some? && response.value.result == RESULT_OK ==>
      && |r| == |response.value.page.data|
      && forall i :: 0 <= i < |r| ==> r[i] == extend(response.value.page.data[i])
  {
    if response.Some? && response.value.result == RESULT_OK then
      seq(|response.value.page.data|, i requires 0 <= i < |response.value.page.data| => extend(response.value.page.data[i]))
    else []
  }

  /** `useSearchManga`: with `enable` false the key is null, so nothing is fetched and the list
      stays empty whatever `response` would have been. */
  function UseSearchManga(
    options: SearchOptions, enable: bool, encode: string -> string,
    response: Option<SearchResponse>, extend: Manga -> Manga): (v: SearchView)
    ensures !enable ==> v.request.None? && v.mangaList == []
    ensures enable ==> v.request == Some(PrepareSearchOptions(options, encode))
    ensures enable ==> v.mangaList == MangaList(response, extend)
  {
    if enable then SearchView(Some(PrepareSearchOptions(options, encode)), MangaList(response, extend))
    else SearchView(None, [])
  }

  const FEED_ORDER: Order := map["volume" := Desc, "chapter" := Desc]

  /** `useChapterList` option rewriting: language, includes, order, ratings and limit are
      forced whatever the caller passed; only the offset survives, clamped against the forced
      limit. */
  function PrepareFeedOptions(options: ChapterQuery, chapterListLimit: int): (r: ChapterQuery)
    ensures r.translatedLanguage == Some([VIETNAMESE])
    ensures r.includes == Some([SCANLATION_GROUP, USER])
    ensures r.order == Some(FEED_ORDER)
    ensures r.contentRating == Some(ALL_CONTENT_RATINGS)
    ensures r.limit == Some(chapterListLimit)
    ensures options.offset.Some? && options.offset.value > OFFSET_CEILING ==>
      r.offset == Some(OFFSET_CEILING - chapterListLimit)
    ensures options.offset.None? || options.offset.value <= OFFSET_CEILING ==> r.offset == options.offset
    ensures r.groups == options.groups
  {
    var offset :=
      if options.offset.Some? && options.offset.value != 0 && options.offset.value > OFFSET_CEILING
      then Some(OFFSET_CEILING - chapterListLimit)
      else options.offset;
    options.(
      translatedLanguage := Some([VIETNAMESE]),
      includes := Some([SCANLATION_GROUP, USER]),
      order := Some(FEED_ORDER),
      contentRating := Some(ALL_CONTENT_RATINGS),
      limit := Some(chapterListLimit),
      offset := offset)
  }

  /** Two callers that differ only in the forced fields get the same request. */
  lemma FeedOptionsIgnoreForcedFields(a: ChapterQuery, b: ChapterQuery, chapterListLimit: int)
    requires a.offset == b.offset && a.groups == b.groups
    ensures PrepareFeedOptions(a, chapterListLimit) == PrepareFeedOptions(b, chapterListLimit)
  {
  }

  /** `chapters` of a hook over a chapter response: empty when no response has arrived. */
  function ChaptersOf(response: Option<Page<Chapter>>): seq<Chapter> {
    if response.Some? then response.value.data else []
  }

  /** `useLastUpdates` request: page-based offset clamped against the page size, Vietnamese
      chapters with safe and suggestive ratings, newest readable first, and a group filter only
      for a non-empty group id. */
  function LastUpdatesRequest(page: int, groupId: Option<string>, lastUpdatesLimit: int): (r: ChapterQuery)
    ensures lastUpdatesLimit * page <= OFFSET_CEILING ==> r.offset == Some(lastUpdatesLimit * page)
    ensures lastUpdatesLimit * page > OFFSET_CEILING ==> r.offset == Some(OFFSET_CEILING - lastUpdatesLimit)
    ensures r.limit == Some(lastUpdatesLimit)
    ensures r.translatedLanguage == Some([VIETNAMESE])
    ensures r.includes == Some([SCANLATION_GROUP, MANGA])
    ensures r.contentRating == Some([SAFE, SUGGESTIVE])
    ensures r.order == Some(map["readableAt" := Desc])
    ensures groupId.Some? && groupId.value != "" ==> r.groups == Some([groupId.value])
    ensures groupId.None? || groupId.value == "" ==> r.groups.None?
  {
    ChapterQuery(
      translatedLanguage := Some([VIETNAMESE]),
      includes := Some([SCANLATION_GROUP, MANGA]),
      order := Some(map["readableAt" := Desc]),
      contentRating := Some([SAFE, SUGGESTIVE]),
      limit := Some(lastUpdatesLimit),
      offset := Some(ClampOffset(lastUpdatesLimit * page, lastUpdatesLimit)),
      groups := if groupId.Some? && groupId.value != "" then Some([groupId.value]) else None)
  }

  /** `total` of `useLastUpdates`: 0 until a response arrives, then the response total. */
  function LastUpdatesTotal(response: Option<Page<Chapter>>): int {
    if response.Some? then response.value.total else 0
  }

  /** `useManga` offset: page and limit default to 0 and 32, and the offset is the start of the
      requested page, with no clamp. */
  function MangaPageOffset(page: Option<int>, limit: Option<int>): (offset: int)
    ensures page.None? ==> offset == 0
    ensures limit.None? ==>
      offset % DEFAULT_MANGA_LIMIT == 0 && offset / DEFAULT_MANGA_LIMIT == page.GetOr(DEFAULT_MANGA_PAGE)
    ensures limit.Some? && limit.value > 0 ==>
      offset % limit.value == 0 && offset / limit.value == page.GetOr(DEFAULT_MANGA_PAGE)
  {
    var p := page.GetOr(DEFAULT_MANGA_PAGE);
    var l := limit.GetOr(DEFAULT_MANGA_LIMIT);
    if l > 0 then PageStartDivides(p, l); p * l else p * l
  }

  /** The start of page `p` of size `l` is a multiple of `l` whose quotient is `p`. */
  lemma PageStartDivides(p: int, l: int)
    requires l > 0
    ensures (p * l) % l == 0 && (p * l) / l == p
  {
    var q, r := (p * l) / l, (p * l) % l;
    assert p * l == q * l + r && 0 <= r < l;
    if q < p {
      assert (q + 1) * l <= p * l by { MulMonotone(q + 1, p, l); }
    } else if q > p {
      assert (p + 1) * l <= q * l by { MulMonotone(p + 1, q, l); }
    }
  }

  lemma MulMonotone(a: int, b: int, c: int)
    requires a <= b && c > 0
    ensures a * c <= b * c
  {
  }

  /** Unlike the updates feed, `useManga` does not clamp: a page whose offset lies past the
      ceiling is requested as it is, while the updates feed would move the same page back below
      the ceiling. */
  lemma MangaPageIsNotClamped(p: int)
    requires DEFAULT_MANGA_LIMIT * p > OFFSET_CEILING
    ensures MangaPageOffset(Some(p), None) > OFFSET_CEILING
    ensures LastUpdatesRequest(p, None, DEFAULT_MANGA_LIMIT).offset == Some(OFFSET_CEILING - DEFAULT_MANGA_LIMIT)
  {
    assert MangaPageOffset(Some(p), None) == p * DEFAULT_MANGA_LIMIT;
  }

  /** A manga of `useManga` with its cover fields added; every original field is kept. */
  datatype CoveredManga = CoveredManga(manga: Manga, coverFileName: Option<string>, coverUrl: Option<string>)

  /** The file name of the first cover-art relationship, when that stub carries one. */
  function CoverFileName(m: Manga): Option<string> {
    var rel := FirstOfKind(m.relationships, COVER_ART);
    if rel.Some? && rel.value.attributes.Some? then rel.value.attributes.value.fileName else None
  }

  function CoverUrlOf(id: string, fileName: string): string {
    COVER_BASE_URL + id + "/" + fileName
  }

  /** The first position of `c` in `s`, if any. */
  function IndexOf(s: string, c: char): (r: Option<nat>)
    ensures r.Some? ==> r.value < |s| && s[r.value] == c && c !in s[..r.value]
    ensures r.None? ==> c !in s
    decreases |s|
  {
    if |s| == 0 then None
    else if s[0] == c then Some(0)
    else
      var r := IndexOf(s[1..], c);
      if r.Some? then
        assert s[..r.value + 1] == [s[0]] + s[1..][..r.value];
        Some(r.value + 1)
      else None
  }

  lemma {:induction false} IndexOfAfterPrefix(a: string, c: char, b: string)
    requires c !in a
    ensures IndexOf(a + [c] + b, c) == Some(|a|)
    decreases |a|
  {
    if |a| > 0 {
      assert (a + [c] + b)[1..] == a[1..] + [c] + b;
      IndexOfAfterPrefix(a[1..], c, b);
    }
  }

  /** Splits a cover URL back into manga id and file name; the id ends at the first slash
      after the base. */
  function ParseCoverUrl(url: string): Option<(string, string)> {
    if |url| >= |COVER_BASE_URL| && url[..|COVER_BASE_URL|] == COVER_BASE_URL then
      var rest := url[|COVER_BASE_URL|..];
      var k := IndexOf(rest, '/');
      if k.Some? then Some((rest[..k.value], rest[k.value + 1..])) else None
    else None
  }

  /** A cover URL determines its manga id and file name whenever the id has no slash. */
  lemma CoverUrlRoundTrip(id: string, fileName: string)
    requires '/' !in id
    ensures ParseCoverUrl(CoverUrlOf(id, fileName)) == Some((id, fileName))
  {
    var url := CoverUrlOf(id, fileName);
    var rest := id + "/" + fileName;
    assert url == COVER_BASE_URL + rest;
    assert url[..|COVER_BASE_URL|] == COVER_BASE_URL;
    assert url[|COVER_BASE_URL|..] == rest;
    IndexOfAfterPrefix(id, '/', fileName);
    assert rest[..|id|] == id;
    assert rest[|id| + 1..] == fileName;
  }

  /** The cover URL rule: built from the id and the file name when the name is non-empty,
      otherwise null. */
  function CoverManga(m: Manga): (r: CoveredManga)
    ensures r.manga == m
    ensures r.coverFileName == CoverFileName(m)
    ensures r.coverUrl.Some? <==> CoverFileName(m).Some? && CoverFileName(m).value != ""
    ensures r.coverUrl.Some? ==> r.coverUrl.value == CoverUrlOf(m.id, CoverFileName(m).value)
  {
    var fileName := CoverFileName(m);
    var url := if fileName.Some? && fileName.value != "" then Some(CoverUrlOf(m.id, fileName.value)) else None;
    CoveredManga(m, fileName, url)
  }

  /** The view `useManga` returns. */
  datatype MangaView = MangaView(mangas: seq<CoveredManga>, total: int, isLoading: bool)

  /** `useManga`: one covered entry per returned manga in order, total 0 without a response,
      loading exactly while there is neither a response nor an error. */
  function UseManga(response: Option<Page<Manga>>, failed: bool): (v: MangaView)
    ensures response.None? ==> v.mangas == [] && v.total == 0
    ensures response.Some? ==>
      && |v.mangas| == |response.value.data|
      && (forall i :: 0 <= i < |v.mangas| ==> v.mangas[i] == CoverManga(response.value.data[i]))
      && v.total == response.value.total
    ensures v.isLoading <==> response.None? && !failed
  {
    match response
    case None => MangaView([], 0, !failed)
    case Some(p) => MangaView(seq(|p.data|, i requires 0 <= i < |p.data| => CoverManga(p.data[i])), p.total, false)
  }
}
