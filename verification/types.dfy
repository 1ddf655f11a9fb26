/** The catalog entities the client handles, reduced to the fields its decision rules read. */
module MangadexTypes {
  import opened Wrappers

  // Relationship types a request may ask the catalog to inline (`Static.Includes`).
  const MANGA: string := "manga"
  const COVER_ART: string := "cover_art"
  const AUTHOR: string := "author"
  const ARTIST: string := "artist"
  const SCANLATION_GROUP: string := "scanlation_group"
  const USER: string := "user"

  // Content-rating tiers (`Static.MangaContentRating`).
  const SAFE: string := "safe"
  const SUGGESTIVE: string := "suggestive"
  const EROTICA: string := "erotica"
  const PORNOGRAPHIC: string := "pornographic"
  /** Every tier, as the catalog and feed requests list them to lift the default filter. */
  const ALL_CONTENT_RATINGS: seq<string> := [EROTICA, PORNOGRAPHIC, SAFE, SUGGESTIVE]

  /** Sort direction of one order key (`Static.Order`). */
  datatype Direction = Asc | Desc

  /** An order object such as `{ volume: desc, chapter: desc }`: sort key to direction. */
  type Order = map<string, Direction>

  /** The inlined attributes of a relationship stub; only the cover file name is read here. */
  datatype RelationshipAttributes = RelationshipAttributes(fileName: Option<string>)

  /** A typed reference from an entity to a related record, with attributes when included. */
  datatype Relationship = Relationship(kind: string, id: string, attributes: Option<RelationshipAttributes>)

  /** The first relationship of the given type, if any (`find`). */
  function FirstOfKind(relationships: seq<Relationship>, kind: string): (r: Option<Relationship>)
    ensures r.Some? ==> r.value in relationships && r.value.kind == kind
    ensures r.None? <==> forall x :: x in relationships ==> x.kind != kind
    ensures r.Some? ==> exists i :: (0 <= i < |relationships| && relationships[i] == r.value
      && forall j :: 0 <= j < i ==> relationships[j].kind != kind)
    decreases |relationships|
  {
    if |relationships| == 0 then None
    else if relationships[0].kind == kind then Some(relationships[0])
    else
      FirstOfKind(relationships[1..], kind)
  }

  /** Localised description map; only the two languages the detail page reads. */
  datatype Description = Description(vi: Option<string>, en: Option<string>)

  /** A manga as held by the cache: the raw relationship list plus the author and artist
      fields the relationship normaliser fills in. */
  datatype Manga = Manga(
    id: string,
    relationships: seq<Relationship>,
    author: Option<Relationship>,
    artist: Option<Relationship>,
    description: Description,
    tagNames: seq<string>)

  /** A chapter of a feed; `manga` is the parent field filled in by the normaliser. */
  datatype Chapter = Chapter(
    id: string,
    volume: string,
    chapter: string,
    relationships: seq<Relationship>,
    manga: Option<Relationship>)

  /** Per-manga statistics (the floating-point rating is not modelled). */
  datatype MangaStatistic = MangaStatistic(follows: int, repliesCount: int)

  /** Options of a catalog search request (`GetSearchMangaRequestOptions`), the fields read
      or rewritten on the client. */
  datatype SearchOptions = SearchOptions(
    ids: Option<seq<string>>,
    title: Option<string>,
    includes: Option<seq<string>>,
    limit: Option<int>,
    offset: Option<int>,
    contentRating: Option<seq<string>>,
    order: Option<Order>)

  /** Options of a chapter feed or chapter list request. */
  datatype ChapterQuery = ChapterQuery(
    translatedLanguage: Option<seq<string>>,
    includes: Option<seq<string>>,
    order: Option<Order>,
    contentRating: Option<seq<string>>,
    limit: Option<int>,
    offset: Option<int>,
    groups: Option<seq<string>>)

  /** The part of a paginated catalog response the client reads. */
  datatype Page<T> = Page(data: seq<T>, total: int)
}
