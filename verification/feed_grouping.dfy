/** Grouping of a chapter feed by manga: the recent-chapters hook (at most three chapters per
    manga) and the two new-updates lists (no cap, the tile shows the first three). */
module FeedGrouping {
  import opened Wrappers
  import opened Seqs
  import opened MangadexTypes

  /** Chapters a tile or a recent-chapters group shows per manga. */
  const TILE_CHAPTERS: nat := 3

  /** Where a chapter's manga id is read from: the first "manga" relationship stub
      (`useRecentChapters`) or the normalised `manga` field (the new-updates lists). */
  datatype IdSource = FirstMangaRelationship | NormalisedMangaField

  /** A bucket: a manga id and its chapters in feed order. */
  datatype Group = Group(mangaId: string, chapters: seq<Chapter>)

  /** The manga id of a chapter; a missing or empty id (falsy) means the chapter is skipped. */
  function MangaIdOf(c: Chapter, src: IdSource): (r: Option<string>)
    ensures r.Some? ==> r.value != ""
  {
    var rel := match src
      case FirstMangaRelationship => FirstOfKind(c.relationships, MANGA)
      case NormalisedMangaField => c.manga;
    if rel.Some? && rel.value.id != "" then Some(rel.value.id) else None
  }

  /** The manga ids of the chapters that have one, in feed order with duplicates: the list the
      new-updates lists send to the cache refresh and to the statistics refresh. */
  function FeedIds(chs: seq<Chapter>, src: IdSource): (r: seq<string>)
    ensures |r| <= |chs|
    decreases |chs|
  {
    if |chs| == 0 then []
    else
      var init := FeedIds(chs[..|chs| - 1], src);
      match MangaIdOf(chs[|chs| - 1], src)
      case Some(m) => init + [m]
      case None => init
  }

  /** The chapters of manga `m`, in feed order. */
  function ChaptersOfManga(chs: seq<Chapter>, src: IdSource, m: string): (r: seq<Chapter>)
    ensures forall c :: c in r <==> c in chs && MangaIdOf(c, src) == Some(m)
    ensures |r| <= |chs|
    decreases |chs|
  {
    if |chs| == 0 then []
    else
      var init := chs[..|chs| - 1];
      assert chs == init + [chs[|chs| - 1]];
      ChaptersOfManga(init, src, m) + (if MangaIdOf(chs[|chs| - 1], src) == Some(m) then [chs[|chs| - 1]] else [])
  }

  /** The first `cap` elements, or all of them when there is no cap. */
  function Capped(s: seq<Chapter>, cap: Option<nat>): (r: seq<Chapter>)
    ensures cap.None? ==> r == s
    ensures cap.Some? ==> |r| == if |s| < cap.value then |s| else cap.value
    ensures r == s[..|r|]
  {
    if cap.Some? && |s| > cap.value then s[..cap.value] else s
  }

  /** The reference grouping: one group per distinct manga id in order of first appearance,
      holding that manga's first `cap` chapters in feed order. */
  function Grouped(chs: seq<Chapter>, src: IdSource, cap: Option<nat>): seq<Group> {
    var ids := Uniq(FeedIds(chs, src));
    seq(|ids|, i requires 0 <= i < |ids| => GroupOf(chs, src, cap, ids[i]))
  }

  /** The group of manga `m`: its first `cap` chapters in feed order. */
  function GroupOf(chs: seq<Chapter>, src: IdSource, cap: Option<nat>, m: string): Group {
    Group(m, Capped(ChaptersOfManga(chs, src, m), cap))
  }

  /** The position of the group of manga `m`, if there is one (`Map.has` / `Map.get`). */
  function GroupIndex(groups: seq<Group>, m: string): (r: Option<nat>)
    ensures r.Some? ==> r.value < |groups| && groups[r.value].mangaId == m
    ensures r.None? ==> forall i :: 0 <= i < |groups| ==> groups[i].mangaId != m
    decreases |groups|
  {
    if |groups| == 0 then None
    else
      var r := GroupIndex(groups[..|groups| - 1], m);
      if r.Some? then r
      else if groups[|groups| - 1].mangaId == m then Some(|groups| - 1)
      else None
  }

  /** One iteration of the source loop for a chapter whose manga id is `m`: create the bucket if
      it is new, then push the chapter if the bucket is under the cap. */
  function AddChapter(groups: seq<Group>, m: string, c: Chapter, cap: Option<nat>): seq<Group> {
    var k := GroupIndex(groups, m);
    var existing := if k.Some? then groups[k.value].chapters else [];
    var chapters := if cap.None? || |existing| < cap.value then existing + [c] else existing;
    if k.Some? then groups[k.value := Group(m, chapters)] else groups + [Group(m, chapters)]
  }

  /** The grouping loop of the source, over the feed in order. */
  method GroupByManga(chs: seq<Chapter>, src: IdSource, cap: Option<nat>) returns (groups: seq<Group>)
    ensures groups == Grouped(chs, src, cap)
  {
    groups := [];
    var i := 0;
    while i < |chs|
      invariant 0 <= i <= |chs|
      invariant groups == Grouped(chs[..i], src, cap)
    {
      assert chs[..i + 1] == chs[..i] + [chs[i]];
      GroupedSnoc(chs[..i], chs[i], src, cap);
      var m := MangaIdOf(chs[i], src);
      if m.Some? {
        groups := AddChapter(groups, m.value, chs[i], cap);
      }
      i := i + 1;
    }
    assert chs[..|chs|] == chs;
  }

  lemma FeedIdsSnoc(chs: seq<Chapter>, c: Chapter, src: IdSource)
    ensures FeedIds(chs + [c], src) == FeedIds(chs, src) + (if MangaIdOf(c, src).Some? then [MangaIdOf(c, src).value] else [])
  {
    assert (chs + [c])[..|chs|] == chs;
  }

  lemma ChaptersOfMangaSnoc(chs: seq<Chapter>, c: Chapter, src: IdSource, m: string)
    ensures ChaptersOfManga(chs + [c], src, m)
      == ChaptersOfManga(chs, src, m) + (if MangaIdOf(c, src) == Some(m) then [c] else [])
  {
    assert (chs + [c])[..|chs|] == chs;
  }

  /** A manga id occurs in the feed ids exactly when the manga has a chapter in the feed. */
  lemma {:induction false} FeedIdsHaveChapters(chs: seq<Chapter>, src: IdSource, m: string)
    ensures m in FeedIds(chs, src) <==> |ChaptersOfManga(chs, src, m)| > 0
    decreases |chs|
  {
    if |chs| > 0 {
      var init := chs[..|chs| - 1];
      assert chs == init + [chs[|chs| - 1]];
      FeedIdsHaveChapters(init, src, m);
      FeedIdsSnoc(init, chs[|chs| - 1], src);
      ChaptersOfMangaSnoc(init, chs[|chs| - 1], src, m);
    }
  }

  /** The feed ids are exactly the manga ids the chapters carry. */
  lemma {:induction false} FeedIdsMembers(chs: seq<Chapter>, src: IdSource, m: string)
    ensures m in FeedIds(chs, src) <==> exists i :: 0 <= i < |chs| && MangaIdOf(chs[i], src) == Some(m)
    decreases |chs|
  {
    if |chs| > 0 {
      var front := chs[..|chs| - 1];
      var last := chs[|chs| - 1];
      assert chs == front + [last];
      FeedIdsMembers(front, src, m);
      FeedIdsSnoc(front, last, src);
      if m in FeedIds(chs, src) && m !in FeedIds(front, src) {
        assert MangaIdOf(chs[|chs| - 1], src) == Some(m);
      }
      if i :| 0 <= i < |chs| && MangaIdOf(chs[i], src) == Some(m) {
        if i < |front| {
          assert front[i] == chs[i];
        }
      }
    }
  }

  /** When every chapter carries a manga id, the feed ids are those ids chapter by chapter. */
  lemma {:induction false} FeedIdsAligned(chs: seq<Chapter>, src: IdSource)
    requires forall i :: 0 <= i < |chs| ==> MangaIdOf(chs[i], src).Some?
    ensures |FeedIds(chs, src)| == |chs|
    ensures forall i :: 0 <= i < |chs| ==> MangaIdOf(chs[i], src) == Some(FeedIds(chs, src)[i])
    decreases |chs|
  {
    if |chs| > 0 {
      var front := chs[..|chs| - 1];
      forall i | 0 <= i < |front| ensures MangaIdOf(front[i], src).Some? {
        assert front[i] == chs[i];
      }
      FeedIdsAligned(front, src);
      var r := FeedIds(chs, src);
      assert r == FeedIds(front, src) + [MangaIdOf(chs[|chs| - 1], src).value];
      forall i | 0 <= i < |chs| ensures MangaIdOf(chs[i], src) == Some(r[i]) {
        if i < |front| {
          assert front[i] == chs[i] && r[i] == FeedIds(front, src)[i];
        }
      }
    }
  }

  /** In groups without duplicate ids, `GroupIndex` finds the unique group of the id. */
  lemma GroupIndexUnique(groups: seq<Group>, i: nat)
    requires i < |groups|
    requires forall a, b :: 0 <= a < b < |groups| ==> groups[a].mangaId != groups[b].mangaId
    ensures GroupIndex(groups, groups[i].mangaId) == Some(i)
  {
    var r := GroupIndex(groups, groups[i].mangaId);
    assert r.Some?;
  }

  /** Pushing onto a capped bucket when it is under the cap is capping the longer list. */
  lemma CappedSnoc(s: seq<Chapter>, c: Chapter, cap: Option<nat>)
    ensures Capped(s + [c], cap)
      == if cap.None? || |Capped(s, cap)| < cap.value then Capped(s, cap) + [c] else Capped(s, cap)
  {
    if cap.Some? && |s| >= cap.value {
      assert (s + [c])[..cap.value] == s[..cap.value];
    }
  }

  lemma ChaptersOfOtherManga(chs: seq<Chapter>, c: Chapter, src: IdSource, m: string)
    requires MangaIdOf(c, src) != Some(m)
    ensures ChaptersOfManga(chs + [c], src, m) == ChaptersOfManga(chs, src, m)
  {
    ChaptersOfMangaSnoc(chs, c, src, m);
  }

  /** A chapter with no manga id changes no group. */
  lemma GroupedSnocSkipped(chs: seq<Chapter>, c: Chapter, src: IdSource, cap: Option<nat>)
    requires MangaIdOf(c, src).None?
    ensures Grouped(chs + [c], src, cap) == Grouped(chs, src, cap)
  {
    FeedIdsSnoc(chs, c, src);
    var ids := Uniq(FeedIds(chs, src));
    forall j | 0 <= j < |ids|
      ensures ChaptersOfManga(chs + [c], src, ids[j]) == ChaptersOfManga(chs, src, ids[j])
    {
      ChaptersOfOtherManga(chs, c, src, ids[j]);
    }
  }

  lemma AddChapterExisting(groups: seq<Group>, k: nat, m: string, c: Chapter, cap: Option<nat>)
    requires GroupIndex(groups, m) == Some(k)
    ensures AddChapter(groups, m, c, cap)
      == groups[k := Group(m, if cap.None? || |groups[k].chapters| < cap.value then groups[k].chapters + [c] else groups[k].chapters)]
  {
  }

  lemma NoGroupIndex(groups: seq<Group>, m: string)
    requires forall j :: 0 <= j < |groups| ==> groups[j].mangaId != m
    ensures GroupIndex(groups, m).None?
  {
  }

  lemma AddChapterNew(groups: seq<Group>, m: string, c: Chapter, cap: Option<nat>)
    requires GroupIndex(groups, m).None?
    ensures AddChapter(groups, m, c, cap) == groups + [Group(m, if cap.None? || 0 < cap.value then [c] else [])]
  {
    assert [] + [c] == [c];
  }

  lemma UpdatedAt(after: seq<Group>, before: seq<Group>, k: nat, g: Group)
    requires k < |before| == |after| && after[k] == g
    requires forall j :: 0 <= j < |before| && j != k ==> after[j] == before[j]
    ensures after == before[k := g]
  {
  }

  lemma AppendedAt(after: seq<Group>, before: seq<Group>, g: Group)
    requires |after| == |before| + 1 && after[|before|] == g
    requires forall j :: 0 <= j < |before| ==> after[j] == before[j]
    ensures after == before + [g]
  {
  }

  /** The reference grouping holds the group of each distinct feed id, position by position. */
  lemma GroupedShape(chs: seq<Chapter>, src: IdSource, cap: Option<nat>)
    ensures var ids := Uniq(FeedIds(chs, src));
      && |Grouped(chs, src, cap)| == |ids|
      && forall j :: 0 <= j < |ids| ==> Grouped(chs, src, cap)[j] == GroupOf(chs, src, cap, ids[j])
  {
  }

  lemma DistinctAt(ids: seq<string>, a: nat, b: nat)
    requires NoDuplicates(ids) && a < |ids| && b < |ids| && a != b
    ensures ids[a] != ids[b]
  {
  }

  /** A chapter of manga `m` leaves the group of every other manga as it was. */
  lemma OtherGroupsUnchanged(chs: seq<Chapter>, c: Chapter, src: IdSource, cap: Option<nat>, m: string, x: string)
    requires MangaIdOf(c, src) == Some(m) && x != m
    ensures GroupOf(chs + [c], src, cap, x) == GroupOf(chs, src, cap, x)
  {
    ChaptersOfOtherManga(chs, c, src, x);
  }

  /** A chapter of manga `m` is pushed onto the group of `m` when that group is under the cap. */
  lemma OwnGroupGrows(chs: seq<Chapter>, c: Chapter, src: IdSource, cap: Option<nat>, m: string)
    requires MangaIdOf(c, src) == Some(m)
    ensures var existing := GroupOf(chs, src, cap, m).chapters;
      GroupOf(chs + [c], src, cap, m)
        == Group(m, if cap.None? || |existing| < cap.value then existing + [c] else existing)
  {
    ChaptersOfMangaSnoc(chs, c, src, m);
    CappedSnoc(ChaptersOfManga(chs, src, m), c, cap);
  }

  /** The group at position `j` of the reference grouping is the group of the `j`-th distinct id. */
  lemma GroupedAt(chs: seq<Chapter>, src: IdSource, cap: Option<nat>, j: nat)
    requires j < |Uniq(FeedIds(chs, src))|
    ensures |Grouped(chs, src, cap)| == |Uniq(FeedIds(chs, src))|
    ensures Grouped(chs, src, cap)[j] == GroupOf(chs, src, cap, Uniq(FeedIds(chs, src))[j])
  {
  }

  /** A chapter of a manga already seen changes no other group of the reference grouping. */
  lemma GroupsBesideUnchanged(chs: seq<Chapter>, c: Chapter, src: IdSource, cap: Option<nat>, m: string, k: nat)
    requires MangaIdOf(c, src) == Some(m)
    requires Uniq(FeedIds(chs + [c], src)) == Uniq(FeedIds(chs, src))
    requires k < |Uniq(FeedIds(chs, src))| && Uniq(FeedIds(chs, src))[k] == m
    ensures |Grouped(chs + [c], src, cap)| == |Grouped(chs, src, cap)|
    ensures forall j :: 0 <= j < |Grouped(chs, src, cap)| && j != k ==>
      Grouped(chs + [c], src, cap)[j] == Grouped(chs, src, cap)[j]
  {
    var ids := Uniq(FeedIds(chs, src));
    GroupedAt(chs, src, cap, k);
    GroupedAt(chs + [c], src, cap, k);
    forall j | 0 <= j < |Grouped(chs, src, cap)| && j != k
      ensures Grouped(chs + [c], src, cap)[j] == Grouped(chs, src, cap)[j]
    {
      GroupedAt(chs, src, cap, j);
      GroupedAt(chs + [c], src, cap, j);
      DistinctAt(ids, j, k);
      OtherGroupsUnchanged(chs, c, src, cap, m, ids[j]);
    }
  }

  /** On the reference grouping, one loop iteration for a manga already seen updates the
      group at its position in place. */
  lemma AddToSeenGroup(chs: seq<Chapter>, c: Chapter, src: IdSource, cap: Option<nat>, m: string, k: nat)
    requires k < |Uniq(FeedIds(chs, src))| && Uniq(FeedIds(chs, src))[k] == m
    ensures var before := Grouped(chs, src, cap);
      && k < |before|
      && AddChapter(before, m, c, cap) == before[k := GrownGroup(before[k], c, cap)]
  {
    var before := Grouped(chs, src, cap);
    GroupedShape(chs, src, cap);
    GroupIndexUnique(before, k);
    AddChapterExisting(before, k, m, c, cap);
  }

  /** A group with chapter `c` pushed if it is under the cap. */
  function GrownGroup(g: Group, c: Chapter, cap: Option<nat>): Group {
    Group(g.mangaId, if cap.None? || |g.chapters| < cap.value then g.chapters + [c] else g.chapters)
  }

  /** In the grouping of the longer feed, the group of `m` is its old group grown by `c`. */
  lemma SeenGroupGrows(chs: seq<Chapter>, c: Chapter, src: IdSource, cap: Option<nat>, m: string, k: nat)
    requires MangaIdOf(c, src) == Some(m)
    requires Uniq(FeedIds(chs + [c], src)) == Uniq(FeedIds(chs, src))
    requires k < |Uniq(FeedIds(chs, src))| && Uniq(FeedIds(chs, src))[k] == m
    ensures k < |Grouped(chs, src, cap)| == |Grouped(chs + [c], src, cap)|
    ensures Grouped(chs + [c], src, cap)[k] == GrownGroup(Grouped(chs, src, cap)[k], c, cap)
  {
    GroupedShape(chs, src, cap);
    GroupedShape(chs + [c], src, cap);
    OwnGroupGrows(chs, c, src, cap, m);
  }

  /** A chapter of a manga already seen goes to that manga's bucket, if under the cap. */
  lemma GroupedSnocExisting(chs: seq<Chapter>, c: Chapter, src: IdSource, cap: Option<nat>, m: string)
    requires MangaIdOf(c, src) == Some(m) && m in FeedIds(chs, src)
    ensures Grouped(chs + [c], src, cap) == AddChapter(Grouped(chs, src, cap), m, c, cap)
  {
    var ids := Uniq(FeedIds(chs, src));
    assert Uniq(FeedIds(chs + [c], src)) == ids by {
      FeedIdsSnoc(chs, c, src);
      UniqSnoc(FeedIds(chs, src), m);
    }
    var k :| 0 <= k < |ids| && ids[k] == m;
    var before := Grouped(chs, src, cap);
    AddToSeenGroup(chs, c, src, cap, m, k);
    SeenGroupGrows(chs, c, src, cap, m, k);
    GroupsBesideUnchanged(chs, c, src, cap, m, k);
    UpdatedAt(Grouped(chs + [c], src, cap), before, k, GrownGroup(before[k], c, cap));
  }

  /** The group a first chapter opens: the chapter alone, or nothing under a zero cap. */
  function OpenedGroup(m: string, c: Chapter, cap: Option<nat>): Group {
    Group(m, if cap.None? || 0 < cap.value then [c] else [])
  }

  /** On the reference grouping, one loop iteration for a manga not seen yet appends its group. */
  lemma AddToUnseenGroup(chs: seq<Chapter>, c: Chapter, src: IdSource, cap: Option<nat>, m: string)
    requires m !in FeedIds(chs, src)
    ensures AddChapter(Grouped(chs, src, cap), m, c, cap) == Grouped(chs, src, cap) + [OpenedGroup(m, c, cap)]
  {
    var ids := Uniq(FeedIds(chs, src));
    var before := Grouped(chs, src, cap);
    forall j | 0 <= j < |before| ensures before[j].mangaId != m {
      GroupedAt(chs, src, cap, j);
      assert ids[j] in ids;
    }
    NoGroupIndex(before, m);
    AddChapterNew(before, m, c, cap);
  }

  /** A chapter of a manga not seen yet leaves the earlier groups as they were. */
  lemma GroupsBeforeUnchanged(chs: seq<Chapter>, c: Chapter, src: IdSource, cap: Option<nat>, m: string)
    requires MangaIdOf(c, src) == Some(m)
    requires Uniq(FeedIds(chs + [c], src)) == Uniq(FeedIds(chs, src)) + [m]
    ensures |Grouped(chs + [c], src, cap)| == |Grouped(chs, src, cap)| + 1
    ensures forall j :: 0 <= j < |Grouped(chs, src, cap)| ==>
      Grouped(chs + [c], src, cap)[j] == Grouped(chs, src, cap)[j]
  {
    var ids := Uniq(FeedIds(chs, src));
    forall j | 0 <= j < |Grouped(chs, src, cap)|
      ensures Grouped(chs + [c], src, cap)[j] == Grouped(chs, src, cap)[j]
    {
      GroupedAt(chs, src, cap, j);
      GroupedAt(chs + [c], src, cap, j);
      DistinctAt(ids + [m], j, |ids|);
      OtherGroupsUnchanged(chs, c, src, cap, m, ids[j]);
    }
  }

  /** The group a chapter of a manga not seen yet opens is the last one. */
  lemma UnseenGroupOpens(chs: seq<Chapter>, c: Chapter, src: IdSource, cap: Option<nat>, m: string)
    requires MangaIdOf(c, src) == Some(m) && m !in FeedIds(chs, src)
    requires Uniq(FeedIds(chs + [c], src)) == Uniq(FeedIds(chs, src)) + [m]
    ensures |Grouped(chs, src, cap)| < |Grouped(chs + [c], src, cap)|
    ensures Grouped(chs + [c], src, cap)[|Grouped(chs, src, cap)|] == OpenedGroup(m, c, cap)
  {
    var ids := Uniq(FeedIds(chs, src));
    var n := |ids|;
    assert Grouped(chs + [c], src, cap)[n] == GroupOf(chs + [c], src, cap, m) by {
      assert (ids + [m])[n] == m;
      GroupedAt(chs + [c], src, cap, n);
    }
    FirstChapterOpens(chs, c, src, cap, m);
  }

  /** The group of a manga whose first chapter is `c` holds `c` alone, or nothing under a zero cap. */
  lemma FirstChapterOpens(chs: seq<Chapter>, c: Chapter, src: IdSource, cap: Option<nat>, m: string)
    requires MangaIdOf(c, src) == Some(m) && m !in FeedIds(chs, src)
    ensures GroupOf(chs + [c], src, cap, m) == OpenedGroup(m, c, cap)
  {
    assert GroupOf(chs, src, cap, m).chapters == [] by {
      FeedIdsHaveChapters(chs, src, m);
    }
    OwnGroupGrows(chs, c, src, cap, m);
    assert [] + [c] == [c];
  }

  /** A chapter of a manga not seen before opens a new bucket at the end. */
  lemma GroupedSnocNew(chs: seq<Chapter>, c: Chapter, src: IdSource, cap: Option<nat>, m: string)
    requires MangaIdOf(c, src) == Some(m) && m !in FeedIds(chs, src)
    ensures Grouped(chs + [c], src, cap) == AddChapter(Grouped(chs, src, cap), m, c, cap)
  {
    assert Uniq(FeedIds(chs + [c], src)) == Uniq(FeedIds(chs, src)) + [m] by {
      FeedIdsSnoc(chs, c, src);
      UniqSnoc(FeedIds(chs, src), m);
    }
    AddToUnseenGroup(chs, c, src, cap, m);
    GroupsBeforeUnchanged(chs, c, src, cap, m);
    UnseenGroupOpens(chs, c, src, cap, m);
    AppendedAt(Grouped(chs + [c], src, cap), Grouped(chs, src, cap), OpenedGroup(m, c, cap));
  }

  /** Appending a chapter to the feed is one iteration of the source loop on the groups. */
  lemma GroupedSnoc(chs: seq<Chapter>, c: Chapter, src: IdSource, cap: Option<nat>)
    ensures Grouped(chs + [c], src, cap)
      == if MangaIdOf(c, src).Some? then AddChapter(Grouped(chs, src, cap), MangaIdOf(c, src).value, c, cap)
         else Grouped(chs, src, cap)
  {
    match MangaIdOf(c, src)
    case None => GroupedSnocSkipped(chs, c, src, cap);
    case Some(m) =>
      if m in FeedIds(chs, src) {
        GroupedSnocExisting(chs, c, src, cap, m);
      } else {
        GroupedSnocNew(chs, c, src, cap, m);
      }
  }

  /** Every group is non-empty when the cap is positive, holds at most `cap` chapters, and holds
      only chapters of its own manga taken from the feed; group ids are distinct. */
  lemma GroupsWellFormed(chs: seq<Chapter>, src: IdSource, cap: Option<nat>)
    ensures forall i :: 0 <= i < |Grouped(chs, src, cap)| ==>
      var g := Grouped(chs, src, cap)[i];
      && (cap.None? || 0 < cap.value ==> |g.chapters| > 0)
      && (cap.Some? ==> |g.chapters| <= cap.value)
      && (forall c :: c in g.chapters ==> c in chs && MangaIdOf(c, src) == Some(g.mangaId))
    ensures forall a, b :: 0 <= a < b < |Grouped(chs, src, cap)| ==>
      Grouped(chs, src, cap)[a].mangaId != Grouped(chs, src, cap)[b].mangaId
  {
    var groups := Grouped(chs, src, cap);
    var ids := Uniq(FeedIds(chs, src));
    forall i | 0 <= i < |groups|
      ensures cap.None? || 0 < cap.value ==> |groups[i].chapters| > 0
    {
      FeedIdsHaveChapters(chs, src, ids[i]);
    }
  }

  /** Every chapter that has a manga id lands in the group of that manga when there is no cap. */
  lemma EveryKeptChapterIsGrouped(chs: seq<Chapter>, src: IdSource, c: Chapter)
    requires c in chs && MangaIdOf(c, src).Some?
    ensures exists i :: (0 <= i < |Grouped(chs, src, None)|
      && Grouped(chs, src, None)[i].mangaId == MangaIdOf(c, src).value
      && c in Grouped(chs, src, None)[i].chapters)
  {
    var m := MangaIdOf(c, src).value;
    FeedIdsHaveChapters(chs, src, m);
    var ids := Uniq(FeedIds(chs, src));
    assert m in ids;
    var i :| 0 <= i < |ids| && ids[i] == m;
    assert Grouped(chs, src, None)[i].mangaId == m;
  }

  /** There are as many groups as distinct manga ids among the chapters. */
  lemma GroupCount(chs: seq<Chapter>, src: IdSource, cap: Option<nat>)
    ensures |Grouped(chs, src, cap)| == |set m | m in FeedIds(chs, src)|
  {
    var ids := Uniq(FeedIds(chs, src));
    DistinctCardinality(ids);
    assert (set m | m in ids) == (set m | m in FeedIds(chs, src));
  }

  /** A tile of the new-updates lists shows what a recent-chapters group holds: the first three
      chapters of the uncapped bucket are the capped group. */
  lemma TileMatchesRecentGroup(chs: seq<Chapter>, src: IdSource, i: nat)
    requires i < |Grouped(chs, src, None)|
    ensures |Grouped(chs, src, Some(TILE_CHAPTERS))| == |Grouped(chs, src, None)|
    ensures Capped(Grouped(chs, src, None)[i].chapters, Some(TILE_CHAPTERS))
      == Grouped(chs, src, Some(TILE_CHAPTERS))[i].chapters
  {
  }
}
