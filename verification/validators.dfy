/** The input schemas of the catalog and chapter procedures of the API router, as predicates
    over JSON values, with the typed parse of the two by-id procedures. */
module Validators {
  import opened Wrappers
  import opened MangadexTypes

  /** A JSON value as it reaches the router (numbers as integers). */
  datatype Json =
    | JNull
    | JBool(b: bool)
    | JNum(n: int)
    | JStr(s: string)
    | JArr(items: seq<Json>)
    | JObj(fields: map<string, Json>)

  const DESC: string := "desc"

  /** Allowed entries of `contentRating`. */
  const CONTENT_RATINGS: seq<string> := [SAFE, SUGGESTIVE, EROTICA, PORNOGRAPHIC]
  /** Allowed entries of `includes` for the catalog procedures. */
  const MANGA_INCLUDES: seq<string> := [MANGA, COVER_ART, AUTHOR, ARTIST]
  /** Allowed entries of `includes` for the chapter procedures. */
  const CHAPTER_INCLUDES: seq<string> := [SCANLATION_GROUP, MANGA, USER]
  /** Allowed values of `hasAvailableChapters`. */
  const AVAILABLE_CHAPTERS: seq<string> := ["0", "1", "true", "false"]

  /** The keys `getSearchManga` declares. */
  const SEARCH_KEYS: seq<string> :=
    ["limit", "offset", "availableTranslatedLanguage", "contentRating", "includes", "hasAvailableChapters", "order"]
  /** The keys `searchManga` declares. */
  const EXTENDED_SEARCH_KEYS: seq<string> := SEARCH_KEYS + ["title", "createdAtSince"]
  /** The keys the chapter-list procedure declares. */
  const CHAPTER_LIST_KEYS: seq<string> :=
    ["limit", "offset", "ids", "title", "groups", "uploader", "manga", "volume", "chapter", "translatedLanguage", "includes"]
  /** The keys the by-id procedures declare. */
  const BY_ID_KEYS: seq<string> := ["id", "includes"]

  predicate IsNumber(j: Json) {
    j.JNum?
  }

  predicate IsString(j: Json) {
    j.JStr?
  }

  /** A string out of a fixed list (`z.enum`). */
  predicate IsEnum(j: Json, values: seq<string>) {
    j.JStr? && j.s in values
  }

  predicate IsStringArray(j: Json) {
    j.JArr? && forall i :: 0 <= i < |j.items| ==> j.items[i].JStr?
  }

  predicate IsEnumArray(j: Json, values: seq<string>) {
    j.JArr? && forall i :: 0 <= i < |j.items| ==> IsEnum(j.items[i], values)
  }

  /** `.optional()`: the key may be missing, but a present value (null included) must match. */
  predicate OptionalField(o: map<string, Json>, key: string, valid: Json -> bool) {
    key !in o || valid(o[key])
  }

  /** `order` of `getSearchManga`: only `latestUploadedChapter` is declared, and must be "desc". */
  predicate IsSearchOrder(j: Json) {
    j.JObj? && OptionalField(j.fields, "latestUploadedChapter", v => IsEnum(v, [DESC]))
  }

  /** `order` of `searchManga`: `followedCount` is declared too, and must also be "desc". */
  predicate IsExtendedSearchOrder(j: Json) {
    && IsSearchOrder(j)
    && OptionalField(j.fields, "followedCount", v => IsEnum(v, [DESC]))
  }

  /** The fields `getSearchManga` and `searchManga` share. */
  predicate SearchFields(o: map<string, Json>) {
    && OptionalField(o, "limit", IsNumber)
    && OptionalField(o, "offset", IsNumber)
    && OptionalField(o, "availableTranslatedLanguage", IsStringArray)
    && OptionalField(o, "contentRating", v => IsEnumArray(v, CONTENT_RATINGS))
    && OptionalField(o, "includes", v => IsEnumArray(v, MANGA_INCLUDES))
    && OptionalField(o, "hasAvailableChapters", v => IsEnum(v, AVAILABLE_CHAPTERS))
  }

  predicate ValidGetSearchManga(j: Json) {
    j.JObj? && SearchFields(j.fields) && OptionalField(j.fields, "order", IsSearchOrder)
  }

  predicate ValidSearchManga(j: Json) {
    && j.JObj?
    && SearchFields(j.fields)
    && OptionalField(j.fields, "order", IsExtendedSearchOrder)
    && OptionalField(j.fields, "title", IsString)
    && OptionalField(j.fields, "createdAtSince", IsString)
  }

  /** `getMangaById` and `getChapterById`: a required string id and optional includes from the
      procedure's own list. */
  predicate ValidById(j: Json, allowedIncludes: seq<string>) {
    && j.JObj?
    && "id" in j.fields && j.fields["id"].JStr?
    && OptionalField(j.fields, "includes", v => IsEnumArray(v, allowedIncludes))
  }

  predicate ValidGetChapterList(j: Json) {
    && j.JObj?
    && OptionalField(j.fields, "limit", IsNumber)
    && OptionalField(j.fields, "offset", IsNumber)
    && OptionalField(j.fields, "ids", IsStringArray)
    && OptionalField(j.fields, "title", IsString)
    && OptionalField(j.fields, "groups", IsStringArray)
    && OptionalField(j.fields, "uploader", IsString)
    && OptionalField(j.fields, "manga", IsString)
    && OptionalField(j.fields, "volume", IsString)
    && OptionalField(j.fields, "chapter", IsString)
    && OptionalField(j.fields, "translatedLanguage", IsStringArray)
    && OptionalField(j.fields, "includes", v => IsEnumArray(v, CHAPTER_INCLUDES))
  }

  /** Every field of the search and chapter-list procedures is optional: the empty object
      passes, and a non-object never does. */
  lemma EmptyObjectIsValid(j: Json)
    ensures ValidGetSearchManga(JObj(map[])) && ValidSearchManga(JObj(map[])) && ValidGetChapterList(JObj(map[]))
    ensures !j.JObj? ==> !ValidGetSearchManga(j) && !ValidSearchManga(j) && !ValidGetChapterList(j)
    ensures !ValidById(JObj(map[]), MANGA_INCLUDES)
  {
  }

  /** No declared field is nullable: `null` under any declared key fails, whatever the rest of
      the input, where leaving the key out would have been accepted. */
  lemma NullIsNotMissing(o: map<string, Json>, k: string, allowedIncludes: seq<string>)
    ensures k in SEARCH_KEYS ==> !ValidGetSearchManga(JObj(o[k := JNull]))
    ensures k in EXTENDED_SEARCH_KEYS ==> !ValidSearchManga(JObj(o[k := JNull]))
    ensures k in CHAPTER_LIST_KEYS ==> !ValidGetChapterList(JObj(o[k := JNull]))
    ensures k in BY_ID_KEYS ==> !ValidById(JObj(o[k := JNull]), allowedIncludes)
  {
  }

  /** A key a schema does not declare is not looked at: `null` under it is the same as leaving
      it out. */
  lemma UndeclaredKeysIgnored(o: map<string, Json>, k: string)
    ensures k !in SEARCH_KEYS ==> (ValidGetSearchManga(JObj(o[k := JNull])) <==> ValidGetSearchManga(JObj(o - {k})))
    ensures k !in EXTENDED_SEARCH_KEYS ==> (ValidSearchManga(JObj(o[k := JNull])) <==> ValidSearchManga(JObj(o - {k})))
    ensures k !in CHAPTER_LIST_KEYS ==> (ValidGetChapterList(JObj(o[k := JNull])) <==> ValidGetChapterList(JObj(o - {k})))
  {
  }

  /** The chapter procedures take a different include list from the catalog ones: cover art,
      author and artist are refused, the uploader and the scanlation group accepted. */
  lemma ChapterIncludes(id: string, kind: string)
    ensures kind in [COVER_ART, AUTHOR, ARTIST] ==>
      && !ValidById(JObj(map["id" := JStr(id), "includes" := JArr([JStr(kind)])]), CHAPTER_INCLUDES)
      && !ValidGetChapterList(JObj(map["includes" := JArr([JStr(kind)])]))
      && ValidById(JObj(map["id" := JStr(id), "includes" := JArr([JStr(kind)])]), MANGA_INCLUDES)
    ensures kind in [SCANLATION_GROUP, USER] ==>
      ValidGetChapterList(JObj(map["includes" := JArr([JStr(kind)])]))
  {
    var bad := JObj(map["id" := JStr(id), "includes" := JArr([JStr(kind)])]);
    assert bad.fields["includes"].items[0] == JStr(kind);
    var list := JObj(map["includes" := JArr([JStr(kind)])]);
    assert list.fields["includes"].items[0] == JStr(kind);
  }

  /** The two search procedures differ on `order.followedCount`: `getSearchManga` does not
      declare it and lets any value through, `searchManga` insists on "desc". */
  lemma FollowedCountOrder(order: map<string, Json>, v: Json)
    ensures IsSearchOrder(JObj(order["followedCount" := v])) <==> IsSearchOrder(JObj(order))
    ensures IsExtendedSearchOrder(JObj(order["followedCount" := v])) <==> IsSearchOrder(JObj(order)) && v == JStr(DESC)
    ensures ValidGetSearchManga(JObj(map["order" := JObj(map["followedCount" := v])]))
    ensures ValidSearchManga(JObj(map["order" := JObj(map["followedCount" := v])])) <==> v == JStr(DESC)
  {
  }

  /** Every input `searchManga` accepts is accepted by `getSearchManga`. */
  lemma SearchMangaIsStricter(j: Json)
    requires ValidSearchManga(j)
    ensures ValidGetSearchManga(j)
  {
  }

  /** The rating list the app's own catalog requests carry passes the schema's rating check,
      and a list with any other entry does not. */
  lemma AppRatingsAccepted(other: string)
    requires other !in CONTENT_RATINGS
    ensures IsEnumArray(JArr(EncodeStrings(ALL_CONTENT_RATINGS)), CONTENT_RATINGS)
    ensures !IsEnumArray(JArr(EncodeStrings(ALL_CONTENT_RATINGS + [other])), CONTENT_RATINGS)
  {
    var items := EncodeStrings(ALL_CONTENT_RATINGS);
    forall i | 0 <= i < |items| ensures IsEnum(items[i], CONTENT_RATINGS) {
      assert ALL_CONTENT_RATINGS[i] in CONTENT_RATINGS;
    }
    var bad := EncodeStrings(ALL_CONTENT_RATINGS + [other]);
    assert bad[4] == JStr(other);
  }

  // --- typed parse of the by-id procedures ---

  /** The parsed input of a by-id procedure. */
  datatype ByIdInput = ByIdInput(id: string, includes: Option<seq<string>>)

  /** The strings of an array of strings; fails at the first non-string element. */
  function ParseStrings(items: seq<Json>): (r: Option<seq<string>>)
    ensures r.Some? <==> forall i :: 0 <= i < |items| ==> items[i].JStr?
    ensures r.Some? ==> |r.value| == |items| && forall i :: 0 <= i < |items| ==> items[i] == JStr(r.value[i])
    decreases |items|
  {
    if |items| == 0 then Some([])
    else if !items[0].JStr? then None
    else
      var rest := ParseStrings(items[1..]);
      if rest.None? then None else Some([items[0].s] + rest.value)
  }

  function EncodeStrings(ss: seq<string>): (r: seq<Json>)
    ensures |r| == |ss|
  {
    seq(|ss|, i requires 0 <= i < |ss| => JStr(ss[i]))
  }

  /** Decoding an encoded list of strings gives the list back. */
  lemma {:induction false} StringsRoundTrip(ss: seq<string>)
    ensures ParseStrings(EncodeStrings(ss)) == Some(ss)
    decreases |ss|
  {
    if |ss| > 0 {
      assert EncodeStrings(ss)[1..] == EncodeStrings(ss[1..]);
      StringsRoundTrip(ss[1..]);
      assert [ss[0]] + ss[1..] == ss;
    }
  }

  /** The by-id schema as a parse: the input is accepted exactly when the validator holds. */
  function ParseById(j: Json, allowedIncludes: seq<string>): (r: Option<ByIdInput>)
    ensures r.Some? <==> ValidById(j, allowedIncludes)
    ensures r.Some? ==> Some(JStr(r.value.id)) == (if "id" in j.fields then Some(j.fields["id"]) else None)
    ensures r.Some? ==> (r.value.includes.None? <==> "includes" !in j.fields)
    ensures r.Some? && r.value.includes.Some? ==> forall x :: x in r.value.includes.value ==> x in allowedIncludes
  {
    if !ValidById(j, allowedIncludes) then None
    else
      var includes :=
        if "includes" in j.fields then ParseStrings(j.fields["includes"].items) else None;
      if "includes" in j.fields then
        assert includes.Some?;
        assert forall x :: x in includes.value ==> x in allowedIncludes by {
          forall x | x in includes.value ensures x in allowedIncludes {
            var i :| 0 <= i < |includes.value| && includes.value[i] == x;
            assert j.fields["includes"].items[i] == JStr(x);
          }
        }
        Some(ByIdInput(j.fields["id"].s, includes))
      else
        Some(ByIdInput(j.fields["id"].s, None))
  }

  function EncodeById(x: ByIdInput): Json {
    if x.includes.Some? then JObj(map["id" := JStr(x.id), "includes" := JArr(EncodeStrings(x.includes.value))])
    else JObj(map["id" := JStr(x.id)])
  }

  /** A request whose includes come from the allowed list passes the schema unchanged. */
  lemma ByIdRoundTrip(x: ByIdInput, allowedIncludes: seq<string>)
    requires x.includes.Some? ==> forall s :: s in x.includes.value ==> s in allowedIncludes
    ensures ParseById(EncodeById(x), allowedIncludes) == Some(x)
  {
    if x.includes.Some? {
      var items := EncodeStrings(x.includes.value);
      StringsRoundTrip(x.includes.value);
      assert forall i :: 0 <= i < |items| ==> IsEnum(items[i], allowedIncludes) by {
        forall i | 0 <= i < |items| ensures IsEnum(items[i], allowedIncludes) {
          assert x.includes.value[i] in x.includes.value;
        }
      }
    }
  }
}
