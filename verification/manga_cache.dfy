/** The id-keyed manga cache and the statistics cache of the catalog context provider:
    which ids a refresh fetches, which request it issues, and how responses are written. */
module MangaCache {
  import opened Wrappers
  import opened Seqs
  import opened MangadexTypes

  type Mangas = map<string, Manga>
  type Statistics = map<string, MangaStatistic>

  /** The network request a refresh issues, if any. */
  datatype Request =
    | NoRequest
    | GetMangaId(id: string, includes: seq<string>)
    | GetSearchManga(options: SearchOptions)

  /** The rewritten options together with the request they lead to. */
  datatype Plan = Plan(options: SearchOptions, request: Request)

  /** Cache after a refresh; `rejected` when the returned promise rejects. */
  datatype Refresh = Refresh(mangas: Mangas, rejected: bool)

  /** Statistics cache after a refresh, with the ids sent (None when no request went out). */
  datatype StatisticsRefresh = StatisticsRefresh(statistics: Statistics, requested: Option<seq<string>>)

  const BATCH_LIMIT: int := 100

  function IdsOf(list: seq<Manga>): set<string> {
    set m | m in list :: m.id
  }

  predicate AuthorAttributesMissing(m: Manga) {
    m.author.None? || m.author.value.attributes.None?
  }

  predicate ArtistAttributesMissing(m: Manga) {
    m.artist.None? || m.artist.value.attributes.None?
  }

  /** The include list after defaulting: an absent list becomes `[cover_art]`. */
  function DefaultIncludes(includes: Option<seq<string>>): seq<string> {
    includes.GetOr([COVER_ART])
  }

  /** Whether a requested id still has to be fetched. `includes` is the defaulted list, before
      `cover_art` is appended: a single-element list counts every cached entry as fresh. */
  predicate NeedsRefresh(mangas: Mangas, includes: seq<string>, id: string) {
    if id !in mangas then true
    else if |includes| == 1 then false
    else
      (AUTHOR in includes && AuthorAttributesMissing(mangas[id]))
      || (ARTIST in includes && ArtistAttributesMissing(mangas[id]))
  }

  /** `cover_art` appended at the end unless already present. */
  function WithCoverArt(includes: seq<string>): (r: seq<string>)
    ensures COVER_ART in r
    ensures forall x :: x in r <==> x in includes || x == COVER_ART
    ensures |includes| <= |r| <= |includes| + 1
    ensures r[..|includes|] == includes
  {
    if COVER_ART in includes then includes else includes + [COVER_ART]
  }

  /** The ids left after dropping fresh entries and duplicates. */
  function StaleIds(mangas: Mangas, includes: seq<string>, ids: seq<string>): (r: seq<string>)
    ensures NoDuplicates(r)
    ensures forall id :: id in r <==> id in ids && NeedsRefresh(mangas, includes, id)
  {
    Uniq(Filter(ids, id => NeedsRefresh(mangas, includes, id)))
  }

  /** `updateMangas` up to the request: include defaulting, the id filter, the cover-art
      append and the dispatch on the number of remaining ids. */
  function PlanRefresh(mangas: Mangas, options: SearchOptions): (p: Plan)
    ensures p.options.includes == Some(WithCoverArt(DefaultIncludes(options.includes)))
    ensures options.includes.None? ==> p.options.includes == Some([COVER_ART])
    ensures options.ids.None? ==> p.request.GetSearchManga? && p.options.ids.None?
    ensures options.ids.Some? ==>
      p.options.ids == Some(StaleIds(mangas, DefaultIncludes(options.includes), options.ids.value))
    ensures p.request.NoRequest? <==>
      options.ids.Some?
      && forall id :: id in options.ids.value ==> !NeedsRefresh(mangas, DefaultIncludes(options.includes), id)
    ensures p.request.NoRequest? ==> p.options.ids == Some([])
    ensures p.request.GetMangaId? ==>
      && p.options.ids == Some([p.request.id])
      && p.request.id in options.ids.value
      && NeedsRefresh(mangas, DefaultIncludes(options.includes), p.request.id)
      && p.request.includes == p.options.includes.value
    ensures p.request.GetSearchManga? ==>
      && p.request.options == p.options
      && p.options.limit == Some(BATCH_LIMIT)
      && p.options.contentRating == Some(ALL_CONTENT_RATINGS)
      && (p.options.ids.None? || |p.options.ids.value| >= 2)
    ensures !p.request.GetSearchManga? ==>
      p.options.limit == options.limit && p.options.contentRating == options.contentRating
    ensures p.options.(ids := options.ids, includes := options.includes, limit := options.limit,
      contentRating := options.contentRating) == options
  {
    var includes := DefaultIncludes(options.includes);
    var ids := if options.ids.Some? then Some(StaleIds(mangas, includes, options.ids.value)) else None;
    var prepared := options.(ids := ids, includes := Some(WithCoverArt(includes)));
    if ids.Some? && |ids.value| == 0 then
      Plan(prepared, NoRequest)
    else if ids.Some? && |ids.value| == 1 then
      assert ids.value == [ids.value[0]] && ids.value[0] in ids.value;
      Plan(prepared, GetMangaId(ids.value[0], prepared.includes.value))
    else
      assert ids.Some? ==> ids.value[0] in ids.value;
      var batch := prepared.(limit := Some(BATCH_LIMIT), contentRating := Some(ALL_CONTENT_RATINGS));
      Plan(batch, GetSearchManga(batch))
  }

  /** `addMangas`: every listed manga is normalised by `extend` and stored under its own id,
      replacing the previous entry; the last duplicate wins. */
  function AddMangas(mangas: Mangas, list: seq<Manga>, extend: Manga -> Manga): (r: Mangas)
    ensures r.Keys == mangas.Keys + IdsOf(list)
    ensures forall k :: k in mangas && k !in IdsOf(list) ==> r[k] == mangas[k]
    decreases |list|
  {
    if |list| == 0 then mangas
    else
      var init := list[..|list| - 1];
      var last := list[|list| - 1];
      assert IdsOf(list) == IdsOf(init) + {last.id} by {
        assert list == init + [last];
      }
      AddMangas(mangas, init, extend)[last.id := extend(last)]
  }

  /** Of several listed mangas with the same id, the last one is stored. */
  lemma {:induction false} AddMangasLastWins(mangas: Mangas, list: seq<Manga>, extend: Manga -> Manga, i: nat)
    requires i < |list| && forall j :: i < j < |list| ==> list[j].id != list[i].id
    ensures list[i].id in AddMangas(mangas, list, extend)
    ensures AddMangas(mangas, list, extend)[list[i].id] == extend(list[i])
    decreases |list|
  {
    if i < |list| - 1 {
      var init := list[..|list| - 1];
      assert init[i] == list[i];
      AddMangasLastWins(mangas, init, extend, i);
      assert list[|list| - 1].id != list[i].id;
    }
  }

  /** The single-id path: no try/catch, so a thrown fetch rejects the refresh. The entry is
      written under the requested id, whatever id the response carries. */
  function StoreOne(mangas: Mangas, id: string, response: FetchResult<Manga>, extend: Manga -> Manga): (r: Refresh)
    ensures r.rejected <==> response.Thrown?
    ensures response.Resolved? && response.payload.Some? ==>
      r.mangas == mangas[id := extend(response.payload.value)]
    ensures !(response.Resolved? && response.payload.Some?) ==> r.mangas == mangas
  {
    match response
    case Thrown => Refresh(mangas, true)
    case Resolved(None) => Refresh(mangas, false)
    case Resolved(Some(m)) => Refresh(mangas[id := extend(m)], false)
  }

  /** The batch path: errors are caught and logged, leaving the cache as it was. */
  function StoreBatch(mangas: Mangas, response: FetchResult<seq<Manga>>, extend: Manga -> Manga): (r: Refresh)
    ensures !r.rejected
    ensures response.Resolved? && response.payload.Some? ==>
      r.mangas == AddMangas(mangas, response.payload.value, extend)
    ensures !(response.Resolved? && response.payload.Some?) ==> r.mangas == mangas
  {
    match response
    case Resolved(Some(list)) => Refresh(AddMangas(mangas, list, extend), false)
    case _ => Refresh(mangas, false)
  }

  /** `updateMangas` end to end, given the response each possible request would get. */
  function UpdateMangas(
    mangas: Mangas, options: SearchOptions,
    single: FetchResult<Manga>, batch: FetchResult<seq<Manga>>, extend: Manga -> Manga): (r: Refresh)
    ensures PlanRefresh(mangas, options).request.NoRequest? ==> r == Refresh(mangas, false)
    ensures r.rejected ==> r.mangas == mangas
    ensures forall k :: k in mangas ==> k in r.mangas
    ensures forall k :: k in r.mangas && k !in mangas ==> (
      (PlanRefresh(mangas, options).request.GetMangaId? && k == PlanRefresh(mangas, options).request.id)
      || (PlanRefresh(mangas, options).request.GetSearchManga? && batch.Resolved? && batch.payload.Some?
          && k in IdsOf(batch.payload.value)))
    ensures r.rejected <==> PlanRefresh(mangas, options).request.GetMangaId? && single.Thrown?
    ensures PlanRefresh(mangas, options).request.GetMangaId? && single.Resolved? && single.payload.Some? ==>
      r.mangas == mangas[PlanRefresh(mangas, options).request.id := extend(single.payload.value)]
    ensures PlanRefresh(mangas, options).request.GetSearchManga? && batch.Resolved? && batch.payload.Some? ==>
      r.mangas == AddMangas(mangas, batch.payload.value, extend)
    ensures (!(PlanRefresh(mangas, options).request.GetMangaId? && single.Resolved? && single.payload.Some?)
      && !(PlanRefresh(mangas, options).request.GetSearchManga? && batch.Resolved? && batch.payload.Some?)) ==>
      r.mangas == mangas
  {
    var plan := PlanRefresh(mangas, options);
    match plan.request
    case NoRequest => Refresh(mangas, false)
    case GetMangaId(id, _) => StoreOne(mangas, id, single, extend)
    case GetSearchManga(_) => StoreBatch(mangas, batch, extend)
  }

  /** The ids a statistics refresh sends: those without statistics yet, without duplicates. */
  function MissingStatistics(statistics: Statistics, ids: seq<string>): (r: seq<string>)
    ensures NoDuplicates(r)
    ensures forall id :: id in r <==> id in ids && id !in statistics
  {
    Uniq(Filter(ids, id => id !in statistics))
  }

  /** `updateMangaStatistics`: no request when every id already has statistics; otherwise the
      response map is merged over the cache, response keys winning. Errors are swallowed. */
  function UpdateMangaStatistics(statistics: Statistics, ids: seq<string>, response: FetchResult<Statistics>): (r: StatisticsRefresh)
    ensures r.requested.None? <==> forall id :: id in ids ==> id in statistics
    ensures r.requested.Some? ==> r.requested.value == MissingStatistics(statistics, ids)
    ensures r.requested.None? || !(response.Resolved? && response.payload.Some?) ==> r.statistics == statistics
    ensures r.requested.Some? && response.Resolved? && response.payload.Some? ==>
      && r.statistics.Keys == statistics.Keys + response.payload.value.Keys
      && (forall k :: k in response.payload.value ==> r.statistics[k] == response.payload.value[k])
      && (forall k :: k in statistics && k !in response.payload.value ==> r.statistics[k] == statistics[k])
  {
    var missing := MissingStatistics(statistics, ids);
    if |missing| == 0 then
      StatisticsRefresh(statistics, None)
    else
      var merged := match response
        case Resolved(Some(s)) => statistics + s
        case _ => statistics;
      assert missing[0] in missing;
      StatisticsRefresh(merged, Some(missing))
  }

  /** A requested id whose entry already carries author and artist attributes is never
      refetched: when every requested id is such an entry, the refresh is a no-op. */
  lemma PopulatedEntriesAreNotRefetched(
    mangas: Mangas, options: SearchOptions,
    single: FetchResult<Manga>, batch: FetchResult<seq<Manga>>, extend: Manga -> Manga)
    requires options.ids.Some?
    requires forall id :: id in options.ids.value ==>
      id in mangas && !AuthorAttributesMissing(mangas[id]) && !ArtistAttributesMissing(mangas[id])
    ensures PlanRefresh(mangas, options).request.NoRequest?
    ensures UpdateMangas(mangas, options, single, batch, extend) == Refresh(mangas, false)
  {
  }

  /** With a single-element include list (an absent list included, which defaults to
      `[cover_art]`), the filter keeps exactly the uncached ids: a cached entry missing its
      author is not refetched even when `[author]` is asked for. */
  lemma SingleIncludeKeepsOnlyUncached(mangas: Mangas, options: SearchOptions)
    requires options.ids.Some?
    requires |DefaultIncludes(options.includes)| == 1
    ensures PlanRefresh(mangas, options).options.ids
      == Some(Uniq(Filter(options.ids.value, id => id !in mangas)))
  {
    var includes := DefaultIncludes(options.includes);
    FilterCongruent(options.ids.value, id => NeedsRefresh(mangas, includes, id), id => id !in mangas);
  }

  /** One uncached id asked for with `[author]`: a single-entity fetch whose include list has
      `cover_art` appended after `author`. */
  lemma SingleIdScenario()
    ensures PlanRefresh(map[], SearchOptions(Some(["m1"]), None, Some([AUTHOR]), None, None, None, None)).request
      == GetMangaId("m1", [AUTHOR, COVER_ART])
  {
    var ids := ["m1"];
    var p := PlanRefresh(map[], SearchOptions(Some(ids), None, Some([AUTHOR]), None, None, None, None));
    assert p.options.ids == Some(ids) by {
      var keep := id => NeedsRefresh(map[], [AUTHOR], id);
      assert Filter(ids, keep) == ids by {
        assert ids[1..] == [];
        assert Filter(ids, keep) == [ids[0]] + Filter(ids[1..], keep);
      }
      UniqOfDistinct(ids);
    }
    assert p.options.includes == Some(WithCoverArt(DefaultIncludes(Some([AUTHOR]))));
    assert DefaultIncludes(Some([AUTHOR])) == [AUTHOR];
    assert COVER_ART !in [AUTHOR];
    assert WithCoverArt([AUTHOR]) == [AUTHOR] + [COVER_ART];
    assert p.request.GetMangaId?;
  }

  /** Three uncached ids: one batched search with limit 100, all four ratings and the ids
      folded into the query. */
  lemma BatchScenario()
    ensures PlanRefresh(map[], SearchOptions(Some(["m1", "m2", "m3"]), None, Some([COVER_ART]), None, None, None, None)).request
      == GetSearchManga(SearchOptions(Some(["m1", "m2", "m3"]), None, Some([COVER_ART]), Some(100), None, Some([EROTICA, PORNOGRAPHIC, SAFE, SUGGESTIVE]), None))
  {
    var ids := ["m1", "m2", "m3"];
    assert StaleIds(map[], [COVER_ART], ids) == ids by {
      assert Filter(ids, id => NeedsRefresh(map[], [COVER_ART], id)) == ids;
      UniqOfDistinct(ids);
    }
  }


  /** A fresh single-entity response replaces the entry wholesale: fields the old entry had and
      the new one lacks are lost (no per-field merge). */
  lemma RefreshReplacesWholeEntry(mangas: Mangas, id: string, fetched: Manga, author: Relationship)
    requires id in mangas && mangas[id].author == Some(author)
    requires fetched.author.None?
    ensures StoreOne(mangas, id, Resolved(Some(fetched)), m => m).mangas[id].author.None?
  {
  }
}
