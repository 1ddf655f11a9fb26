/** Text rules of the detail page: the description shown (truncated with a "show more" marker),
    the wrapping of the markers into clickable spans by the Markdown component, the toggle on
    a click, and the separators between tags and between chapter rows. */
module TextRules {
  import opened Wrappers
  import opened MangadexTypes

  /** The "show more" and "show less" markers. */
  const EXPAND: string := "[Xem thêm]"
  const COLLAPSE: string := "[Thu gọn]"

  /** Descriptions longer than this are truncated while collapsed. */
  const DESCRIPTION_LIMIT: nat := 300
  const ELLIPSIS: string := "... "
  const TAG_SEPARATOR: string := ", "

  const SPAN_OPEN: string := "<span class=\"cursor-pointer text-blue-500 hover:underline\" data-action=\"toggle\">"
  const SPAN_CLOSE: string := "</span>"

  predicate IsMarker(m: string) {
    m == EXPAND || m == COLLAPSE
  }

  predicate StartsWith(s: string, p: string) {
    |p| <= |s| && s[..|p|] == p
  }

  /** No marker occurs anywhere in `s`. */
  predicate MarkerFree(s: string) {
    forall i :: 0 <= i <= |s| ==> !StartsWith(s[i..], EXPAND) && !StartsWith(s[i..], COLLAPSE)
  }

  /** The clickable element a marker is replaced by; its text is the marker itself. */
  function Span(m: string): string {
    SPAN_OPEN + m + SPAN_CLOSE
  }

  /** The global regex replacement of the Markdown component: scanning left to right, each
      marker is replaced by its span and scanning resumes after it. */
  function Wrap(s: string): string
    decreases |s|
  {
    if |s| == 0 then ""
    else if StartsWith(s, EXPAND) then Span(EXPAND) + Wrap(s[|EXPAND|..])
    else if StartsWith(s, COLLAPSE) then Span(COLLAPSE) + Wrap(s[|COLLAPSE|..])
    else [s[0]] + Wrap(s[1..])
  }

  lemma MarkerShapes()
    ensures |EXPAND| == 10 && |COLLAPSE| == 9
    ensures EXPAND[0] == '[' && COLLAPSE[0] == '['
    ensures EXPAND[9] == ']' && COLLAPSE[8] == ']'
    ensures forall j :: 1 <= j < |EXPAND| ==> EXPAND[j] != '['
    ensures forall j :: 1 <= j < |COLLAPSE| ==> COLLAPSE[j] != '['
    ensures EXPAND[1] != COLLAPSE[1]
  {
  }

  /** Text without markers passes through the Markdown component unchanged. */
  lemma {:induction false} WrapMarkerFree(s: string)
    requires MarkerFree(s)
    ensures Wrap(s) == s
    decreases |s|
  {
    if |s| > 0 {
      assert s[0..] == s;
      assert !StartsWith(s, EXPAND) && !StartsWith(s, COLLAPSE);
      forall i | 0 <= i <= |s[1..]|
        ensures !StartsWith(s[1..][i..], EXPAND) && !StartsWith(s[1..][i..], COLLAPSE)
      {
        assert s[1..][i..] == s[i + 1..];
      }
      WrapMarkerFree(s[1..]);
    }
  }

  /** A prefix that reaches past the end of `a` agrees with `b` at that point. */
  lemma PrefixOverlap(a: string, b: string, p: string)
    requires StartsWith(a + b, p) && |a| < |p|
    ensures |b| > 0 && p[|a|] == b[0]
  {
    assert (a + b)[|a|] == b[0];
  }

  /** The replacement can be split just before a '[': no marker reaches across that point,
      since a marker holds '[' only at its start. */
  lemma {:induction false} WrapSplit(a: string, b: string)
    requires |b| > 0 && b[0] == '['
    ensures Wrap(a + b) == Wrap(a) + Wrap(b)
    decreases |a|
  {
    MarkerShapes();
    var s := a + b;
    if |a| == 0 {
      assert s == b;
    } else if StartsWith(s, EXPAND) {
      if |a| < |EXPAND| {
        PrefixOverlap(a, b, EXPAND);
        assert false;
      }
      assert a[..|EXPAND|] == s[..|EXPAND|];
      assert s[|EXPAND|..] == a[|EXPAND|..] + b;
      WrapSplit(a[|EXPAND|..], b);
    } else if StartsWith(s, COLLAPSE) {
      if |a| < |COLLAPSE| {
        PrefixOverlap(a, b, COLLAPSE);
        assert false;
      }
      assert a[..|COLLAPSE|] == s[..|COLLAPSE|];
      assert s[|COLLAPSE|..] == a[|COLLAPSE|..] + b;
      WrapSplit(a[|COLLAPSE|..], b);
    } else {
      assert s[1..] == a[1..] + b;
      WrapSplit(a[1..], b);
    }
  }

  /** Every marker is wrapped, wherever it occurs, with the marker text kept verbatim inside
      the span. */
  lemma WrapAtMarker(a: string, m: string, c: string)
    requires IsMarker(m)
    ensures Wrap(a + m + c) == Wrap(a) + Span(m) + Wrap(c)
  {
    MarkerShapes();
    assert a + m + c == a + (m + c);
    WrapSplit(a, m + c);
    var s := m + c;
    assert s[..|m|] == m;
    assert s[|m|..] == c;
  }

  /** A prefix of marker-free text is marker-free. */
  lemma MarkerFreePrefix(t: string, n: nat)
    requires MarkerFree(t) && n <= |t|
    ensures MarkerFree(t[..n])
  {
    forall i | 0 <= i <= n
      ensures !StartsWith(t[..n][i..], EXPAND) && !StartsWith(t[..n][i..], COLLAPSE)
    {
      assert t[..n][i..] == t[i..n];
      if i + |EXPAND| <= n {
        assert t[i..n][..|EXPAND|] == t[i..][..|EXPAND|];
      }
      if i + |COLLAPSE| <= n {
        assert t[i..n][..|COLLAPSE|] == t[i..][..|COLLAPSE|];
      }
    }
  }

  /** Appending text without a ']' cannot complete a marker. */
  lemma MarkerFreeExtend(x: string, y: string)
    requires MarkerFree(x) && ']' !in y
    ensures MarkerFree(x + y)
  {
    MarkerShapes();
    var s := x + y;
    forall i | 0 <= i <= |s|
      ensures !StartsWith(s[i..], EXPAND) && !StartsWith(s[i..], COLLAPSE)
    {
      if i + |EXPAND| <= |s| {
        if i + |EXPAND| <= |x| {
          assert s[i..][..|EXPAND|] == x[i..][..|EXPAND|];
        } else {
          assert s[i..][9] == y[i + 9 - |x|];
        }
      }
      if i + |COLLAPSE| <= |s| {
        if i + |COLLAPSE| <= |x| {
          assert s[i..][..|COLLAPSE|] == x[i..][..|COLLAPSE|];
        } else {
          assert s[i..][8] == y[i + 8 - |x|];
        }
      }
    }
  }

  /** The description source: Vietnamese, else English, else empty; an empty text counts as
      missing, and so does a manga not yet loaded. */
  function DescriptionText(d: Option<Description>): (r: string)
    ensures d.Some? && d.value.vi.Some? && d.value.vi.value != "" ==> r == d.value.vi.value
    ensures d.Some? && (d.value.vi.None? || d.value.vi.value == "") && d.value.en.Some? && d.value.en.value != "" ==>
      r == d.value.en.value
    ensures r == "" <==>
      d.None? || ((d.value.vi.None? || d.value.vi.value == "") && (d.value.en.None? || d.value.en.value == ""))
    ensures r == "" || (d.Some? && (Some(r) == d.value.vi || Some(r) == d.value.en))
  {
    if d.None? then ""
    else if d.value.vi.Some? && d.value.vi.value != "" then d.value.vi.value
    else if d.value.en.Some? && d.value.en.value != "" then d.value.en.value
    else ""
  }

  /** The description content as the detail page builds it. The " [Thu gọn]" suffix sits
      behind a test that an expanded description has already failed, so it is never chosen. */
  function DescriptionContent(text: string, expanded: bool): string {
    (if expanded then text else text[..if |text| < DESCRIPTION_LIMIT then |text| else DESCRIPTION_LIMIT])
    + (if expanded || |text| <= DESCRIPTION_LIMIT then ""
       else if expanded then " " + COLLAPSE
       else ELLIPSIS + EXPAND)
  }

  /** What the detail page shows: a short text as it is; a long one cut to its first 300
      characters and followed by "... [Xem thêm]" while collapsed; and when expanded, the full
      text with nothing after it. */
  lemma DescriptionContentCases(text: string, expanded: bool)
    ensures !expanded && |text| <= DESCRIPTION_LIMIT ==> DescriptionContent(text, expanded) == text
    ensures !expanded && |text| > DESCRIPTION_LIMIT ==>
      DescriptionContent(text, expanded) == text[..DESCRIPTION_LIMIT] + ELLIPSIS + EXPAND
    ensures expanded ==> DescriptionContent(text, expanded) == text
  {
    assert text[..|text|] == text;
  }

  /** A click toggles the description exactly when it lands on an element whose text is one
      of the two markers. */
  function ClickToggle(expanded: bool, targetText: Option<string>): (r: bool)
    ensures r != expanded <==> targetText.Some? && IsMarker(targetText.value)
  {
    if targetText.Some? && (targetText.value == EXPAND || targetText.value == COLLAPSE) then !expanded
    else expanded
  }

  /** A long collapsed description renders its cut text followed by a clickable "[Xem thêm]"
      that expands it. */
  lemma CollapsedDescriptionExpands(text: string)
    requires MarkerFree(text) && |text| > DESCRIPTION_LIMIT
    ensures Wrap(DescriptionContent(text, false)) == text[..DESCRIPTION_LIMIT] + ELLIPSIS + Span(EXPAND)
    ensures ClickToggle(false, Some(EXPAND))
  {
    var cut := text[..DESCRIPTION_LIMIT];
    DescriptionContentCases(text, false);
    MarkerFreePrefix(text, DESCRIPTION_LIMIT);
    MarkerFreeExtend(cut, ELLIPSIS);
    WrapMarkerFree(cut + ELLIPSIS);
    WrapAtMarker(cut + ELLIPSIS, EXPAND, "");
    assert cut + ELLIPSIS + EXPAND + "" == cut + ELLIPSIS + EXPAND;
  }

  /** Once a long description without markers of its own is expanded, the rendered text has no
      marker left, so no element can be clicked to collapse it again. */
  lemma ExpandedDescriptionCannotCollapse(text: string)
    requires MarkerFree(text) && |text| > DESCRIPTION_LIMIT
    ensures DescriptionContent(text, true) == text
    ensures MarkerFree(DescriptionContent(text, true))
    ensures Wrap(DescriptionContent(text, true)) == text
  {
    DescriptionContentCases(text, true);
    WrapMarkerFree(text);
  }

  /** The content the page evidently means to show: a long expanded description ends with the
      "[Thu gọn]" marker. */
  function IntendedDescriptionContent(text: string, expanded: bool): string {
    if |text| <= DESCRIPTION_LIMIT then text
    else if expanded then text + " " + COLLAPSE
    else text[..DESCRIPTION_LIMIT] + ELLIPSIS + EXPAND
  }

  /** With the intended content, a long description always carries the clickable marker that
      flips it, in both states; collapsed, it agrees with the page as written. */
  lemma IntendedDescriptionToggles(text: string)
    requires MarkerFree(text) && |text| > DESCRIPTION_LIMIT
    ensures IntendedDescriptionContent(text, false) == DescriptionContent(text, false)
    ensures Wrap(IntendedDescriptionContent(text, true)) == text + " " + Span(COLLAPSE)
    ensures !ClickToggle(true, Some(COLLAPSE))
    ensures Wrap(IntendedDescriptionContent(text, false)) == text[..DESCRIPTION_LIMIT] + ELLIPSIS + Span(EXPAND)
    ensures ClickToggle(false, Some(EXPAND))
  {
    DescriptionContentCases(text, false);
    CollapsedDescriptionExpands(text);
    MarkerFreeExtend(text, " ");
    WrapMarkerFree(text + " ");
    WrapAtMarker(text + " ", COLLAPSE, "");
    assert text + " " + COLLAPSE + "" == text + " " + COLLAPSE;
  }

  /** A short description is shown whole in both states, with no marker. */
  lemma ShortDescriptionUnchanged(text: string, expanded: bool)
    requires |text| <= DESCRIPTION_LIMIT
    ensures IntendedDescriptionContent(text, expanded) == DescriptionContent(text, expanded) == text
  {
    DescriptionContentCases(text, expanded);
  }

  // --- separators ---

  /** The divider rendered after item `idx` of `count` tags: ", " except after the last. */
  function TagDivider(idx: int, count: int): string {
    if idx != count - 1 then TAG_SEPARATOR else ""
  }

  /** The tag line as rendered: each tag name followed by its divider. */
  function TagLine(names: seq<string>): string {
    Concat(seq(|names|, i requires 0 <= i < |names| => names[i] + TagDivider(i, |names|)))
  }

  function Concat(pieces: seq<string>): string
    decreases |pieces|
  {
    if |pieces| == 0 then "" else pieces[0] + Concat(pieces[1..])
  }

  /** Reference: the names joined with ", ". */
  function Join(names: seq<string>): string
    decreases |names|
  {
    if |names| == 0 then ""
    else if |names| == 1 then names[0]
    else names[0] + TAG_SEPARATOR + Join(names[1..])
  }

  /** The rendered tag line is the names joined by ", ", with no separator after the last. */
  lemma {:induction false} TagLineIsJoin(names: seq<string>)
    ensures TagLine(names) == Join(names)
    decreases |names|
  {
    if |names| == 1 {
      var pieces := seq(1, i requires 0 <= i < 1 => names[i] + TagDivider(i, 1));
      assert pieces[0] == names[0] + "" == names[0];
      assert pieces[1..] == [];
      assert Concat(pieces) == pieces[0] + Concat([]);
    } else if |names| > 1 {
      var pieces := seq(|names|, i requires 0 <= i < |names| => names[i] + TagDivider(i, |names|));
      var rest := names[1..];
      var restPieces := seq(|rest|, i requires 0 <= i < |rest| => rest[i] + TagDivider(i, |rest|));
      assert pieces[1..] == restPieces;
      TagLineIsJoin(rest);
    }
  }

  /** A chapter row gets the dashed bottom border unless it is the last row. */
  function RowSeparated(index: nat, count: nat): (r: bool)
    requires index < count
    ensures r <==> TagDivider(index, count) != ""
  {
    index < count - 1
  }
}
