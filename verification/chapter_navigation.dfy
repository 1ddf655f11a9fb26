/** The chapter reader's navigation state (the chapter context) and the chapter select of the
    reader's control bar. */
module ChapterNavigation {
  import opened Wrappers

  /** An entry of the aggregate chapter list: its id, volume and chapter numbers ("none" when
      absent) and the ids of the other translations of the same chapter. */
  datatype ChapterItem = ChapterItem(id: string, volume: string, chapter: string, others: seq<string>)

  /** The reader state: the chapter being read (absent before the route parameter is known)
      and the aggregate list it is read from. */
  datatype Reader = Reader(chapterId: Option<string>, chapters: seq<ChapterItem>)

  const NONE: string := "none"
  const ONESHOT: string := "Oneshot"
  const LOADING: string := "Đang tải..."

  /** The chapter being read occurs in the list. */
  predicate Found(s: Reader) {
    exists i :: 0 <= i < |s.chapters| && Some(s.chapters[i].id) == s.chapterId
  }

  predicate DistinctIds(chapters: seq<ChapterItem>) {
    forall i, j :: 0 <= i < j < |chapters| ==> chapters[i].id != chapters[j].id
  }

  /** `findIndex`: the first position holding the current chapter, or -1. */
  function CurrentIndex(chapters: seq<ChapterItem>, chapterId: Option<string>): (r: int)
    ensures -1 <= r < |chapters|
    ensures r == -1 <==> forall i :: 0 <= i < |chapters| ==> Some(chapters[i].id) != chapterId
    ensures r >= 0 ==> Some(chapters[r].id) == chapterId
    ensures forall i :: 0 <= i < r ==> Some(chapters[i].id) != chapterId
  {
    if |chapters| == 0 then -1
    else if Some(chapters[0].id) == chapterId then 0
    else
      var k := CurrentIndex(chapters[1..], chapterId);
      if k == -1 then -1 else k + 1
  }

  function Index(s: Reader): int {
    CurrentIndex(s.chapters, s.chapterId)
  }

  /** The "previous" button is enabled exactly when the current chapter is in the list and its
      first occurrence is not the head of the list. */
  function CanPrev(s: Reader): (r: bool)
    ensures r <==> Found(s) && Some(s.chapters[0].id) != s.chapterId
  {
    Index(s) > 0
  }

  /** The "next" button is enabled exactly when the current chapter occurs somewhere before the
      last position. */
  function CanNext(s: Reader): (r: bool)
    ensures r <==> exists i :: 0 <= i < |s.chapters| - 1 && Some(s.chapters[i].id) == s.chapterId
  {
    var k := Index(s);
    k >= 0 && k < |s.chapters| - 1
  }

  /** `prev`: move to the chapter before the current one, or stay. */
  function Prev(s: Reader): (r: Reader)
    ensures r.chapters == s.chapters
    ensures CanPrev(s) ==> r.chapterId == Some(s.chapters[Index(s) - 1].id)
    ensures !CanPrev(s) ==> r == s
  {
    if CanPrev(s) then s.(chapterId := Some(s.chapters[Index(s) - 1].id)) else s
  }

  /** `next`: move to the chapter after the current one, or stay. */
  function Next(s: Reader): (r: Reader)
    ensures r.chapters == s.chapters
    ensures CanNext(s) ==> r.chapterId == Some(s.chapters[Index(s) + 1].id)
    ensures !CanNext(s) ==> r == s
  {
    if CanNext(s) then s.(chapterId := Some(s.chapters[Index(s) + 1].id)) else s
  }

  /** `goTo`: jump to any id, listed or not. */
  function GoTo(s: Reader, id: string): (r: Reader)
    ensures r.chapters == s.chapters && r.chapterId == Some(id)
  {
    s.(chapterId := Some(id))
  }

  /** The other translations of the current chapter; none when it is not listed. */
  function Others(s: Reader): (r: seq<string>)
    ensures !Found(s) ==> r == []
    ensures Found(s) ==> r == s.chapters[Index(s)].others
  {
    var k := Index(s);
    if k >= 0 then s.chapters[k].others else []
  }

  /** With distinct ids, the index of a listed chapter is its position. */
  lemma IndexOfListed(chapters: seq<ChapterItem>, i: nat)
    requires DistinctIds(chapters) && i < |chapters|
    ensures CurrentIndex(chapters, Some(chapters[i].id)) == i
  {
  }

  /** With distinct ids, `goTo` an id of the list selects that position. */
  lemma GoToListed(s: Reader, i: nat)
    requires DistinctIds(s.chapters) && i < |s.chapters|
    ensures Index(GoTo(s, s.chapters[i].id)) == i
    ensures Found(GoTo(s, s.chapters[i].id))
  {
    IndexOfListed(s.chapters, i);
  }

  /** With distinct ids, `next` moves the index up by one and `prev` then brings the reader back. */
  lemma NextThenPrev(s: Reader)
    requires DistinctIds(s.chapters) && CanNext(s)
    ensures Index(Next(s)) == Index(s) + 1
    ensures CanPrev(Next(s)) && Prev(Next(s)) == s
  {
    var k := Index(s);
    IndexOfListed(s.chapters, k + 1);
    IndexOfListed(s.chapters, k);
  }

  /** With distinct ids, `prev` moves the index down by one and `next` then brings the reader back. */
  lemma PrevThenNext(s: Reader)
    requires DistinctIds(s.chapters) && CanPrev(s)
    ensures Index(Prev(s)) == Index(s) - 1
    ensures CanNext(Prev(s)) && Next(Prev(s)) == s
  {
    var k := Index(s);
    IndexOfListed(s.chapters, k - 1);
    IndexOfListed(s.chapters, k);
  }

  /** An option of the chapter select. */
  datatype SelectItem = SelectItem(caption: string, value: string)

  /** The option label: volume and chapter, chapter alone, or "Oneshot". */
  function ChapterLabel(volume: string, chapter: string): string {
    if volume != NONE then "Tập " + volume + " Chương " + chapter
    else if chapter != NONE then "Chương " + chapter
    else ONESHOT
  }

  /** The label names the volume exactly when there is one, and reads "Oneshot" exactly when
      neither number is known. */
  lemma ChapterLabelKinds(volume: string, chapter: string)
    ensures var l := ChapterLabel(volume, chapter);
      && (volume != NONE <==> |l| >= 4 && l[..4] == "Tập ")
      && (l == ONESHOT <==> volume == NONE && chapter == NONE)
      && (l != ONESHOT ==> |l| >= |chapter| && l[|l| - |chapter|..] == chapter)
  {
    var l := ChapterLabel(volume, chapter);
    if volume != NONE {
      assert l[0] == 'T' && ONESHOT[0] == 'O';
    } else if chapter != NONE {
      assert l[0] == 'C' && ONESHOT[0] == 'O';
      assert |l| >= 4 ==> l[..4][0] == 'C' && "Tập "[0] == 'T';
    } else {
      assert l[..4][0] == 'O';
    }
  }

  /** The select lists one option per chapter, in list order, valued by the chapter id. */
  function ChapterOptions(chapters: seq<ChapterItem>): (r: seq<SelectItem>)
    ensures |r| == |chapters|
    ensures forall i :: 0 <= i < |r| ==>
      r[i].value == chapters[i].id && r[i].caption == ChapterLabel(chapters[i].volume, chapters[i].chapter)
  {
    seq(|chapters|, i requires 0 <= i < |chapters| => SelectItem(ChapterLabel(chapters[i].volume, chapters[i].chapter), chapters[i].id))
  }

  /** Choosing an option goes to the chapter of that option. */
  lemma ChooseOption(s: Reader, i: nat)
    requires DistinctIds(s.chapters) && i < |s.chapters|
    ensures Index(GoTo(s, ChapterOptions(s.chapters)[i].value)) == i
  {
    GoToListed(s, i);
  }

  /** The select shows the current chapter id, or the loading text while it is absent or empty. */
  function SelectValue(chapterId: Option<string>): (r: string)
    ensures chapterId.Some? && chapterId.value != "" ==> r == chapterId.value
    ensures chapterId.None? || chapterId.value == "" ==> r == LOADING
    ensures r != ""
  {
    if chapterId.Some? && chapterId.value != "" then chapterId.value else LOADING
  }
}
