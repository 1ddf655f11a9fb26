/** The advanced-search form: the three-state tag filter and the link between the sort select
    (`orderType`) and the order object of the request. */
module SearchForm {
  import opened Wrappers
  import opened Seqs
  import opened MangadexTypes

  /** State of one tag checkbox: 1 included, -1 excluded, 0 neither. */
  datatype TagState = Included | Excluded | Neutral

  /** The tag fields of the form; either list may be absent before the first toggle. */
  datatype TagFilter = TagFilter(includedTags: Option<seq<string>>, excludedTags: Option<seq<string>>)

  /** `getTagState`: inclusion is checked first, so a tag in both lists reads as included. */
  function GetTagState(f: TagFilter, tag: string): (r: TagState)
    ensures r == Included <==> f.includedTags.Some? && tag in f.includedTags.value
    ensures r == Excluded <==> ((f.includedTags.None? || tag !in f.includedTags.value)
      && f.excludedTags.Some? && tag in f.excludedTags.value)
  {
    if f.includedTags.Some? && tag in f.includedTags.value then Included
    else if f.excludedTags.Some? && tag in f.excludedTags.value then Excluded
    else Neutral
  }

  /** `toggleTagState`: included -> excluded -> neither -> included. Leaving a list removes
      every occurrence of the tag; entering a list appends it. */
  function ToggleTagState(f: TagFilter, tag: string): (r: TagFilter)
    ensures GetTagState(f, tag) == Neutral ==>
      r.includedTags == Some(f.includedTags.GetOr([]) + [tag]) && r.excludedTags == f.excludedTags
    ensures GetTagState(f, tag) == Included ==>
      && r.includedTags.Some? && tag !in r.includedTags.value
      && r.excludedTags == Some(f.excludedTags.GetOr([]) + [tag])
    ensures GetTagState(f, tag) == Excluded ==>
      r.includedTags == f.includedTags && r.excludedTags.Some? && tag !in r.excludedTags.value
  {
    match GetTagState(f, tag)
    case Included =>
      TagFilter(Some(Remove(f.includedTags.GetOr([]), tag)), Some(f.excludedTags.GetOr([]) + [tag]))
    case Neutral =>
      f.(includedTags := Some(f.includedTags.GetOr([]) + [tag]))
    case Excluded =>
      f.(excludedTags := Some(Remove(f.excludedTags.GetOr([]), tag)))
  }

  /** The checkbox cycle: each click moves the toggled tag to the next state. */
  function NextState(s: TagState): TagState {
    match s
    case Neutral => Included
    case Included => Excluded
    case Excluded => Neutral
  }

  /** A click moves the clicked tag one step along the cycle and changes no other tag. */
  lemma ToggleSteps(f: TagFilter, tag: string, other: string)
    requires other != tag
    ensures GetTagState(ToggleTagState(f, tag), tag) == NextState(GetTagState(f, tag))
    ensures GetTagState(ToggleTagState(f, tag), other) == GetTagState(f, other)
  {
  }

  /** Three clicks bring every tag back to the state it started in. */
  lemma ToggleCycle(f: TagFilter, tag: string, other: string)
    requires other != tag
    ensures var g := ToggleTagState(ToggleTagState(ToggleTagState(f, tag), tag), tag);
      GetTagState(g, tag) == GetTagState(f, tag) && GetTagState(g, other) == GetTagState(f, other)
  {
    var f1 := ToggleTagState(f, tag);
    var f2 := ToggleTagState(f1, tag);
    ToggleSteps(f, tag, other);
    ToggleSteps(f1, tag, other);
    ToggleSteps(f2, tag, other);
  }

  // Sort keys of the search order (`Static.Order` fields of the request).
  const LATEST_UPLOADED_CHAPTER: string := "latestUploadedChapter"
  const CREATED_AT: string := "createdAt"
  const FOLLOWED_COUNT: string := "followedCount"
  const TITLE: string := "title"
  const RELEVANCE: string := "relevance"
  const RATING: string := "rating"

  /** The values of the sort select, in the order the order object is inspected. */
  const ORDER_TYPES: seq<string> := ["0", "1", "2", "3", "4", "5"]

  /** The sort key and direction each select value stands for. */
  function OrderKey(orderType: string): Option<(string, Direction)> {
    if orderType == "0" then Some((LATEST_UPLOADED_CHAPTER, Desc))
    else if orderType == "1" then Some((CREATED_AT, Desc))
    else if orderType == "2" then Some((FOLLOWED_COUNT, Desc))
    else if orderType == "3" then Some((TITLE, Asc))
    else if orderType == "4" then Some((RELEVANCE, Desc))
    else if orderType == "5" then Some((RATING, Desc))
    else None
  }

  /** The effect on `order` of a change of `orderType`: a known value replaces the order by
      its single key, any other value keeps the order. */
  function SetOrder(orderType: Option<string>, order: Option<Order>): (r: Option<Order>)
    ensures orderType.None? || OrderKey(orderType.value).None? ==> r == order
    ensures orderType.Some? && OrderKey(orderType.value).Some? ==>
      var (key, dir) := OrderKey(orderType.value).value;
      r.Some? && r.value.Keys == {key} && r.value[key] == dir
  {
    if orderType.Some? && OrderKey(orderType.value).Some? then
      var (key, dir) := OrderKey(orderType.value).value;
      Some(map[key := dir])
    else order
  }

  /** The order carries the select value: it has the value's key with the value's direction. */
  predicate Carries(order: Order, orderType: string) {
    OrderKey(orderType).Some? && OrderKey(orderType).value.0 in order
      && order[OrderKey(orderType).value.0] == OrderKey(orderType).value.1
  }

  /** The key and direction of each select value, in select order. */
  lemma OrderKeyTable()
    ensures OrderKey(ORDER_TYPES[0]) == Some((LATEST_UPLOADED_CHAPTER, Desc))
    ensures OrderKey(ORDER_TYPES[1]) == Some((CREATED_AT, Desc))
    ensures OrderKey(ORDER_TYPES[2]) == Some((FOLLOWED_COUNT, Desc))
    ensures OrderKey(ORDER_TYPES[3]) == Some((TITLE, Asc))
    ensures OrderKey(ORDER_TYPES[4]) == Some((RELEVANCE, Desc))
    ensures OrderKey(ORDER_TYPES[5]) == Some((RATING, Desc))
  {
  }

  /** The order carries none of the first `n` select values. */
  predicate NoneCarriedBelow(order: Order, n: nat)
    requires n <= |ORDER_TYPES|
  {
    n == 0 || (NoneCarriedBelow(order, n - 1) && !Carries(order, ORDER_TYPES[n - 1]))
  }

  /** Select value `i` is the first, in select order, that the order carries. */
  predicate FirstCarried(order: Order, i: nat) {
    i < |ORDER_TYPES| && Carries(order, ORDER_TYPES[i]) && NoneCarriedBelow(order, i)
  }

  /** The select value for an order object: the first of the six values, in select order,
      that the order carries, and none when it carries none of them. */
  function DeriveOrderType(order: Order): (r: Option<string>)
    ensures r.Some? ==> exists i: nat :: FirstCarried(order, i) && r.value == ORDER_TYPES[i]
    ensures r.None? <==> NoneCarriedBelow(order, |ORDER_TYPES|)
  {
    OrderKeyTable();
    NoneCarriedBelowAll(order, |ORDER_TYPES|);
    if LATEST_UPLOADED_CHAPTER in order && order[LATEST_UPLOADED_CHAPTER] == Desc then
      assert FirstCarried(order, 0);
      Some("0")
    else
    assert !Carries(order, ORDER_TYPES[0]);
    assert NoneCarriedBelow(order, 1);
    if CREATED_AT in order && order[CREATED_AT] == Desc then
      assert FirstCarried(order, 1);
      Some("1")
    else
    assert NoneCarriedBelow(order, 2);
    if FOLLOWED_COUNT in order && order[FOLLOWED_COUNT] == Desc then
      assert FirstCarried(order, 2);
      Some("2")
    else
    assert NoneCarriedBelow(order, 3);
    if TITLE in order && order[TITLE] == Asc then
      assert FirstCarried(order, 3);
      Some("3")
    else
    assert NoneCarriedBelow(order, 4);
    if RELEVANCE in order && order[RELEVANCE] == Desc then
      assert FirstCarried(order, 4);
      Some("4")
    else
    assert NoneCarriedBelow(order, 5);
    if RATING in order && order[RATING] == Desc then
      assert FirstCarried(order, 5);
      Some("5")
    else
      assert NoneCarriedBelow(order, 6);
      None
  }

  /** Carrying none of the first `n` values is carrying none of `ORDER_TYPES[..n]`. */
  lemma {:induction false} NoneCarriedBelowAll(order: Order, n: nat)
    requires n <= |ORDER_TYPES|
    ensures NoneCarriedBelow(order, n) <==> forall j :: 0 <= j < n ==> !Carries(order, ORDER_TYPES[j])
  {
    if n > 0 {
      NoneCarriedBelowAll(order, n - 1);
    }
  }

  /** The select value the form starts from: when the URL carries no (or an empty) `orderType`
      but an order, it is derived from the order; otherwise the normalised parameter stands. */
  function InitialOrderType(orderTypeParam: Option<string>, normalised: Option<string>, order: Option<Order>): (r: Option<string>)
    ensures (orderTypeParam.Some? && orderTypeParam.value != "") || order.None? ==> r == normalised
    ensures ((orderTypeParam.None? || orderTypeParam.value == "") && order.Some?
      && DeriveOrderType(order.value).Some?) ==> r == DeriveOrderType(order.value)
    ensures ((orderTypeParam.None? || orderTypeParam.value == "") && order.Some?
      && DeriveOrderType(order.value).None?) ==> r == normalised
  {
    if (orderTypeParam.None? || orderTypeParam.value == "") && order.Some? then
      match DeriveOrderType(order.value)
      case Some(k) => Some(k)
      case None => normalised
    else normalised
  }

  /** Deriving the select value from the order that value sets gives the value back. */
  lemma OrderTypeRoundTrip(k: string)
    requires k in ORDER_TYPES
    ensures SetOrder(Some(k), None).Some?
    ensures DeriveOrderType(SetOrder(Some(k), None).value) == Some(k)
  {
  }

  /** A derived select value names a key of the order with the select's direction: setting it
      keeps that key, and for a single-key order it gives back the same order. */
  lemma DerivedOrderTypeIsSound(order: Order)
    requires DeriveOrderType(order).Some?
    ensures var (key, dir) := OrderKey(DeriveOrderType(order).value).value;
      key in order && order[key] == dir
    ensures |order.Keys| == 1 ==> SetOrder(DeriveOrderType(order), None) == Some(order)
  {
    var k := DeriveOrderType(order).value;
    var (key, dir) := OrderKey(k).value;
    if |order.Keys| == 1 {
      assert key in order.Keys;
      SingletonKeys(order.Keys, key);
      assert map[key := dir] == order;
    }
  }

  lemma SingletonKeys(s: set<string>, x: string)
    requires |s| == 1 && x in s
    ensures s == {x}
  {
    var rest := s - {x};
    assert |rest| == 0;
  }
}
