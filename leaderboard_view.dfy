/**
 * What the page shows for a request (src/app/page.tsx:295-333): the search
 * parameters fall back to defaults, the chosen board's merged entries are
 * filtered by name and ranked by the chosen metric, one page of 25 is cut out
 * of the ranking with its "showing from-to" bounds and its previous/next links,
 * and the top three of the whole ranking form the podium.
 */
module LeaderboardView {
  import opened Wrappers
  import opened Text
  import opened Scoring
  import opened Sorting
  import opened Aggregation
  import opened QueryString
  import opened Arrays

  /** `PAGE_SIZE` (line 31). */
  const PageSize: int := 25

  /** One search parameter as the page receives it: missing, a string, or repeated. */
  datatype Param = Absent | Single(value: string) | Multiple(values: seq<string>)

  /**
   * The request's search parameters; `page` is the number `Number(sp.page)`
   * already parsed, `None` when the parameter is missing.
   */
  datatype SearchParams = SearchParams(board: Param, sort: Param, page: Option<int>, q: Param)

  /** A board of the snapshot (lines 18-22). */
  datatype Board = Board(title: string, entries: seq<Entry>)

  /** The `current` object of line 323: what the page actually shows. */
  datatype Current = Current(board: string, sort: string, page: int, q: string)

  /** The `next` argument of `makeHref`: the fields to override. */
  datatype Patch = Patch(board: Option<string>, sort: Option<string>, page: Option<int>, q: Option<string>)

  /** Everything lines 295-333 compute; a missing link is `None` (the source's `""`). */
  datatype View = View(
    current: Current,
    ranked: seq<Entry>,
    totalPages: int,
    items: seq<Entry>,
    showingFrom: int,
    showingTo: int,
    prevHref: Option<Pairs>,
    nextHref: Option<Pairs>,
    podium: seq<Entry>)

  // ----- parameter fallbacks (lines 295-305) -----

  /** Lines 295-296: the requested board when it exists, otherwise `overall`. */
  function ResolveBoard(boards: map<string, Board>, p: Param): (r: string)
    ensures r in boards || r == "overall"
    ensures p.Single? && p.value in boards ==> r == p.value
    ensures r != "overall" ==> p == Single(r)
  {
    if p.Single? && p.value in boards then p.value else "overall"
  }

  /** Lines 298-301: the requested sort key when it is one of the five, otherwise `personal`. */
  function ResolveSort(p: Param): (r: string)
    ensures r in SortKeys
    ensures p.Single? && p.value in SortKeys ==> r == p.value
    ensures r != "personal" ==> p == Single(r)
  {
    if p.Single? && p.value in SortKeys then p.value else "personal"
  }

  /** Line 303: `Math.max(1, Number(sp.page ?? 1))`. */
  function RequestedPage(p: Option<int>): (r: int)
    ensures r >= 1
    ensures p.Some? && p.value >= 1 ==> r == p.value
    ensures r == 1 || p == Some(r)
  {
    var n := p.GetOr(1);
    if n < 1 then 1 else n
  }

  /** Line 304: the query as typed, or empty when it is not a single string. */
  function QueryText(p: Param): (r: string)
    ensures p.Single? ==> r == p.value
    ensures !p.Single? ==> r == ""
  {
    if p.Single? then p.value else ""
  }

  /** The board the request resolves to exists (line 307 dereferences it). */
  predicate BoardResolves(boards: map<string, Board>, sp: SearchParams) {
    ResolveBoard(boards, sp.board) in boards
  }

  // ----- the name filter (line 310) -----

  predicate NameMatches(e: Entry, qNorm: string) {
    Contains(Lower(e.name), qNorm)
  }

  /** The name test of line 310 as a predicate value. */
  function Matches(qNorm: string): Entry -> bool {
    (e: Entry) => NameMatches(e, qNorm)
  }

  /** `merged.filter(e => e.name.toLowerCase().includes(qNorm))`. */
  function Matching(s: seq<Entry>, qNorm: string): (r: seq<Entry>)
    ensures |r| <= |s|
  {
    Keep(s, Matches(qNorm))
  }

  /** Line 310: an empty query skips the filter. */
  function Filtered(merged: seq<Entry>, qNorm: string): seq<Entry> {
    if qNorm == [] then merged else Matching(merged, qNorm)
  }

  /** The empty query matches every name, so skipping the filter changes nothing. */
  lemma MatchingEmptyQuery(s: seq<Entry>)
    ensures Matching(s, []) == s
  {
    forall e | e in s ensures Matches([])(e) {
      assert [] <= Lower(e.name);
    }
    KeepEverything(s, Matches([]));
  }

  /** The filter keeps an entry as often as the input holds it when the name matches, else never. */
  lemma MatchingCount(s: seq<Entry>, qNorm: string, e: Entry)
    ensures multiset(Matching(s, qNorm))[e] == if NameMatches(e, qNorm) then multiset(s)[e] else 0
  {
    KeepCount(s, Matches(qNorm), e);
  }

  /** The filter keeps the input order: it distributes over concatenation. */
  lemma MatchingAppend(a: seq<Entry>, b: seq<Entry>, qNorm: string)
    ensures Matching(a + b, qNorm) == Matching(a, qNorm) + Matching(b, qNorm)
  {
    KeepAppend(a, b, Matches(qNorm));
  }

  /**
   * Line 310: an entry is shown exactly when it is a merged entry whose
   * lower-cased name contains the lower-cased query somewhere.
   */
  lemma FilteredMembership(merged: seq<Entry>, qNorm: string, e: Entry)
    ensures e in Filtered(merged, qNorm) ==> e in merged && exists i :: OccursAt(Lower(e.name), qNorm, i)
    ensures e in merged && (exists i :: OccursAt(Lower(e.name), qNorm, i)) ==> e in Filtered(merged, qNorm)
  {
    if qNorm == [] {
      assert OccursAt(Lower(e.name), qNorm, 0);
    } else {
      KeepMembership(merged, Matches(qNorm), e);
      ContainsIff(Lower(e.name), qNorm);
    }
  }

  // ----- the ranking (line 311) -----

  /** The metric the active sort key selects, as a key function. */
  function Metric(sortKey: string): Entry -> int {
    (e: Entry) => ScoreFor(e, sortKey)
  }

  /** `scoreFor(b) - scoreFor(a) >= 0` read as "a may stay before b": higher scores first. */
  function AtLeast(a: int, b: int): bool {
    a >= b
  }

  lemma AtLeastTotalPreorder()
    ensures TotalPreorder(AtLeast)
  {
  }

  /** Line 311: a stable sort of a copy, descending by the metric. */
  function Ranked(filtered: seq<Entry>, sortKey: string): (r: seq<Entry>)
    ensures |r| == |filtered| && multiset(r) == multiset(filtered)
  {
    Sort(filtered, Metric(sortKey), AtLeast)
  }

  /**
   * The ranking is non-increasing in the metric, and entries with the same
   * score keep their filtered order.
   */
  lemma RankedSpec(filtered: seq<Entry>, sortKey: string, v: int)
    ensures var r := Ranked(filtered, sortKey);
      && (forall i, j :: 0 <= i < j < |r| ==> ScoreFor(r[i], sortKey) >= ScoreFor(r[j], sortKey))
      && KeyFilter(r, Metric(sortKey), v) == KeyFilter(filtered, Metric(sortKey), v)
  {
    AtLeastTotalPreorder();
    SortSorted(filtered, Metric(sortKey), AtLeast);
    SortStable(filtered, Metric(sortKey), AtLeast, v);
    var r := Ranked(filtered, sortKey);
    forall i, j | 0 <= i < j < |r| ensures ScoreFor(r[i], sortKey) >= ScoreFor(r[j], sortKey) {
      assert AtLeast(Metric(sortKey)(r[i]), Metric(sortKey)(r[j]));
    }
  }

  // ----- pagination (lines 313-321) -----

  /** Line 314: `Math.max(1, Math.ceil(total / PAGE_SIZE))`, the fewest pages of 25 that hold `total`. */
  function TotalPages(total: nat): (r: int)
    ensures r >= 1
    ensures total <= r * PageSize
    ensures r == 1 || (r - 1) * PageSize < total
  {
    var pages := (total + PageSize - 1) / PageSize;
    if pages < 1 then 1 else pages
  }

  /** Line 316: `Math.min(page, totalPages)`. */
  function SafePage(page: int, totalPages: int): (r: int)
    requires page >= 1 && totalPages >= 1
    ensures 1 <= r <= totalPages
    ensures r == page || (page > totalPages && r == totalPages)
  {
    if page < totalPages then page else totalPages
  }

  /** `s.slice(from, to)` for non-negative bounds: the end is clamped to the length. */
  function Slice<T>(s: seq<T>, from: nat, to: nat): (r: seq<T>)
    ensures from <= to ==> |r| <= to - from
    ensures forall i :: 0 <= i < |r| ==> from + i < |s| && r[i] == s[from + i]
  {
    var end := if to < |s| then to else |s|;
    if from < end then s[from..end] else []
  }

  /** Line 317: the first rank on page `safePage`. */
  function PageStart(safePage: int): int {
    (safePage - 1) * PageSize
  }

  /** Lines 313-333 once the ranking is known. */
  function Paginate(ranked: seq<Entry>, page: int, board: string, sort: string, q: string): View
    requires page >= 1
  {
    var total := |ranked|;
    var totalPages := TotalPages(total);
    var safePage := SafePage(page, totalPages);
    var start := PageStart(safePage);
    var current := Current(board, sort, safePage, q);
    View(current, ranked, totalPages,
         Slice(ranked, start, start + PageSize),
         if total == 0 then 0 else start + 1,
         if start + PageSize < total then start + PageSize else total,
         if safePage > 1 then Some(PageHref(Patch(None, None, Some(safePage - 1), None), current)) else None,
         if safePage < totalPages then Some(PageHref(Patch(None, None, Some(safePage + 1), None), current)) else None,
         ranked[..if total < 3 then total else 3])
  }

  /** Lines 295-333: the page for a request. */
  function Derive(boards: map<string, Board>, sp: SearchParams): (v: View)
    requires BoardResolves(boards, sp)
    ensures v.current.board in boards && v.current.sort in SortKeys
    ensures 1 <= v.current.page <= v.totalPages
  {
    var board := ResolveBoard(boards, sp.board);
    var sort := ResolveSort(sp.sort);
    var q := QueryText(sp.q);
    var ranked := Ranked(Filtered(Dedupe(boards[board].entries), Lower(q)), sort);
    Paginate(ranked, RequestedPage(sp.page), board, sort, q)
  }

  /**
   * The page shown is the requested one clamped to `[1, totalPages]`; its items
   * are the ranks `start .. start + 25` of the ranking, never more than 25 and
   * never none while there is anything to show; "showing from-to" names exactly
   * those ranks, counted from 1, and is 0-0 for an empty ranking.
   */
  lemma PageWindow(ranked: seq<Entry>, page: int, board: string, sort: string, q: string)
    requires page >= 1
    ensures var v := Paginate(ranked, page, board, sort, q);
      var start := (v.current.page - 1) * PageSize;
      && 1 <= v.current.page <= v.totalPages
      && (page <= v.totalPages ==> v.current.page == page)
      && 0 <= start <= |ranked|
      && v.items == ranked[start..if start + PageSize < |ranked| then start + PageSize else |ranked|]
      && |v.items| <= PageSize
      && (|ranked| == 0 ==> v.showingFrom == 0 && v.showingTo == 0)
      && (|ranked| > 0 ==>
            v.items != [] && v.showingFrom == start + 1 && v.showingTo == start + |v.items| && v.showingTo <= |ranked|)
  {
    var v := Paginate(ranked, page, board, sort, q);
    var start := (v.current.page - 1) * PageSize;
    if |ranked| > 0 {
      assert (v.current.page - 1) * PageSize <= (v.totalPages - 1) * PageSize;
    }
  }

  /** Lines 324-325: a previous link exactly when not on the first page, a next link exactly when not on the last. */
  lemma PrevNextLinks(ranked: seq<Entry>, page: int, board: string, sort: string, q: string)
    requires page >= 1
    ensures var v := Paginate(ranked, page, board, sort, q);
      && (v.prevHref.Some? <==> v.current.page > 1)
      && (v.nextHref.Some? <==> v.current.page < v.totalPages)
      && (v.prevHref.Some? ==> v.prevHref.value == PageHref(Patch(None, None, Some(v.current.page - 1), None), v.current))
      && (v.nextHref.Some? ==> v.nextHref.value == PageHref(Patch(None, None, Some(v.current.page + 1), None), v.current))
  {
  }

  /** Every ranked entry is shown on page `i / 25 + 1`, at position `i % 25`. */
  lemma EveryRankOnItsPage(ranked: seq<Entry>, i: int, board: string, sort: string, q: string)
    requires 0 <= i < |ranked|
    ensures var v := Paginate(ranked, i / PageSize + 1, board, sort, q);
      && v.current.page == i / PageSize + 1
      && i % PageSize < |v.items| && v.items[i % PageSize] == ranked[i]
  {
    var p := i / PageSize + 1;
    var v := Paginate(ranked, p, board, sort, q);
    assert (p - 1) * PageSize <= i;
    assert p <= v.totalPages;
    PageWindow(ranked, p, board, sort, q);
  }

  /** Lines 331-333: the podium is the top of the whole ranking, whatever page is shown. */
  lemma PodiumIsTop(ranked: seq<Entry>, page: int, other: int, board: string, sort: string, q: string)
    requires page >= 1 && other >= 1
    requires forall i, j :: 0 <= i < j < |ranked| ==> ScoreFor(ranked[i], sort) >= ScoreFor(ranked[j], sort)
    ensures var v := Paginate(ranked, page, board, sort, q);
      && |v.podium| == (if |ranked| < 3 then |ranked| else 3)
      && (forall i :: 0 <= i < |v.podium| ==> v.podium[i] == ranked[i])
      && (forall i, j :: 0 <= i < |v.podium| && i < j < |ranked| ==> ScoreFor(v.podium[i], sort) >= ScoreFor(ranked[j], sort))
      && v.podium == Paginate(ranked, other, board, sort, q).podium
  {
  }

  /** Lines 307-311: the ranking shown is the filtered merged board, highest score first. */
  lemma DeriveRanking(boards: map<string, Board>, sp: SearchParams)
    requires BoardResolves(boards, sp)
    ensures var v := Derive(boards, sp);
      var filtered := Filtered(Dedupe(boards[v.current.board].entries), Lower(v.current.q));
      && multiset(v.ranked) == multiset(filtered)
      && (forall i, j :: 0 <= i < j < |v.ranked| ==> ScoreFor(v.ranked[i], v.current.sort) >= ScoreFor(v.ranked[j], v.current.sort))
  {
    var v := Derive(boards, sp);
    RankedSpec(Filtered(Dedupe(boards[v.current.board].entries), Lower(v.current.q)), v.current.sort, 0);
  }

  /** Lines 331-333: the podium holds the best scores shown, and the page asked for does not change it. */
  lemma DerivePodium(boards: map<string, Board>, sp: SearchParams, page: Option<int>)
    requires BoardResolves(boards, sp)
    ensures var v := Derive(boards, sp);
      && (forall i, j :: 0 <= i < |v.podium| && i < j < |v.ranked| ==> ScoreFor(v.podium[i], v.current.sort) >= ScoreFor(v.ranked[j], v.current.sort))
      && BoardResolves(boards, sp.(page := page))
      && Derive(boards, sp.(page := page)).podium == v.podium
  {
    var v := Derive(boards, sp);
    DeriveRanking(boards, sp);
    PodiumIsTop(v.ranked, RequestedPage(sp.page), RequestedPage(page), v.current.board, v.current.sort, v.current.q);
  }

  // ----- `makeHref` (lines 142-158) -----

  /** Lines 142-158: each field of `next` overrides the current one; `q` is set only when non-empty. */
  function PageHref(next: Patch, current: Current): Pairs {
    var q := next.q.GetOr(current.q);
    var params := Set(Set(Set([], "board", next.board.GetOr(current.board)),
                          "sort", next.sort.GetOr(current.sort)),
                      "page", NumberString(next.page.GetOr(current.page)));
    if q != "" then Set(params, "q", q) else params
  }

  /** What a reader of the link gets back for each name. */
  lemma PageHrefGetAll(next: Patch, current: Current, name: string)
    ensures var q := next.q.GetOr(current.q);
      GetAll(PageHref(next, current), name)
        == if name == "board" then [next.board.GetOr(current.board)]
           else if name == "sort" then [next.sort.GetOr(current.sort)]
           else if name == "page" then [NumberString(next.page.GetOr(current.page))]
           else if name == "q" && q != "" then [q]
           else []
  {
    var h0: Pairs := [];
    var h1 := Set(h0, "board", next.board.GetOr(current.board));
    var h2 := Set(h1, "sort", next.sort.GetOr(current.sort));
    var h3 := Set(h2, "page", NumberString(next.page.GetOr(current.page)));
    GetAllSet(h0, "board", next.board.GetOr(current.board), name);
    GetAllSet(h1, "sort", next.sort.GetOr(current.sort), name);
    GetAllSet(h2, "page", NumberString(next.page.GetOr(current.page)), name);
    GetAllSet(h3, "q", next.q.GetOr(current.q), name);
  }

  /** The link's pairs, in the order they are set. */
  lemma PageHrefPairs(next: Patch, current: Current)
    ensures var q := next.q.GetOr(current.q);
      PageHref(next, current)
        == [("board", next.board.GetOr(current.board)), ("sort", next.sort.GetOr(current.sort)),
            ("page", NumberString(next.page.GetOr(current.page)))]
           + (if q != "" then [("q", q)] else [])
  {
    var h0: Pairs := [];
    var b := next.board.GetOr(current.board);
    var s := next.sort.GetOr(current.sort);
    var p := NumberString(next.page.GetOr(current.page));
    var h1 := Set(h0, "board", b);
    GetAllSet(h0, "board", b, "sort");
    SetAppendsNew(h1, "sort", s);
    var h2 := Set(h1, "sort", s);
    GetAllSet(h0, "board", b, "page");
    GetAllSet(h1, "sort", s, "page");
    SetAppendsNew(h2, "page", p);
    var h3 := Set(h2, "page", p);
    GetAllSet(h0, "board", b, "q");
    GetAllSet(h1, "sort", s, "q");
    GetAllSet(h2, "page", p, "q");
    SetAppendsNew(h3, "q", next.q.GetOr(current.q));
  }

  // ----- following a link -----

  /** A decimal numeral, the only page values the links carry. */
  predicate IsNumeral(v: string) {
    v != [] && AllDigits(v)
  }

  /** How the page reads one parameter of a link: missing, a string, or repeated. */
  function ParamOf(h: Pairs, name: string): (r: Param)
    ensures r == Absent <==> GetAll(h, name) == []
  {
    var all := GetAll(h, name);
    if all == [] then Absent else if |all| == 1 then Single(all[0]) else Multiple(all)
  }

  /** The search parameters of a link whose page value, if any, is one numeral. */
  function ParamsOf(h: Pairs): SearchParams
    requires |GetAll(h, "page")| <= 1
    requires forall v :: v in GetAll(h, "page") ==> IsNumeral(v)
  {
    var page := GetAll(h, "page");
    SearchParams(ParamOf(h, "board"), ParamOf(h, "sort"),
                 if page == [] then None else Some(ParseDecimal(page[0])),
                 ParamOf(h, "q"))
  }

  lemma PageLinkParams(current: Current, p: int)
    requires p >= 1
    ensures var h := PageHref(Patch(None, None, Some(p), None), current);
      && ParamOf(h, "board") == Single(current.board)
      && ParamOf(h, "sort") == Single(current.sort)
      && GetAll(h, "page") == [DecimalString(p)]
      && GetAll(h, "q") == (if current.q != "" then [current.q] else [])
  {
    var next := Patch(None, None, Some(p), None);
    PageHrefGetAll(next, current, "board");
    PageHrefGetAll(next, current, "sort");
    PageHrefGetAll(next, current, "page");
    PageHrefGetAll(next, current, "q");
  }

  /** The search parameters of the link to page `p`, read back. */
  lemma PageLinkReadBack(current: Current, p: int)
    requires p >= 1
    ensures var h := PageHref(Patch(None, None, Some(p), None), current);
      && |GetAll(h, "page")| <= 1
      && (forall v :: v in GetAll(h, "page") ==> IsNumeral(v))
      && ParamsOf(h) == SearchParams(Single(current.board), Single(current.sort), Some(p),
                                     if current.q == "" then Absent else Single(current.q))
  {
    PageLinkParams(current, p);
    DecimalRoundTrip(p);
    var h := PageHref(Patch(None, None, Some(p), None), current);
    if current.q == "" {
      assert ParamOf(h, "q") == Absent;
    } else {
      assert ParamOf(h, "q") == Single(current.q);
    }
  }

  /** The link to page `p` of a view keeps its board, sort key and query. */
  lemma SameRequestSameRanking(boards: map<string, Board>, sp: SearchParams, p: int)
    requires BoardResolves(boards, sp) && p >= 1
    ensures var c := Derive(boards, sp).current;
      var sp2 := SearchParams(Single(c.board), Single(c.sort), Some(p), if c.q == "" then Absent else Single(c.q));
      && BoardResolves(boards, sp2)
      && ResolveBoard(boards, sp2.board) == c.board
      && ResolveSort(sp2.sort) == c.sort
      && QueryText(sp2.q) == c.q
      && RequestedPage(sp2.page) == p
  {
  }

  /**
   * Following the link to any page `p` of the view, and so its previous and
   * next links, shows that page of the same ranking with the same board, sort
   * key and query.
   */
  lemma PageLinkShowsPage(boards: map<string, Board>, sp: SearchParams, p: int)
    requires BoardResolves(boards, sp)
    requires 1 <= p <= Derive(boards, sp).totalPages
    ensures var v := Derive(boards, sp);
      var h := PageHref(Patch(None, None, Some(p), None), v.current);
      && |GetAll(h, "page")| <= 1
      && (forall x :: x in GetAll(h, "page") ==> IsNumeral(x))
      && BoardResolves(boards, ParamsOf(h))
      && Derive(boards, ParamsOf(h)).current == v.current.(page := p)
      && Derive(boards, ParamsOf(h)).ranked == v.ranked
  {
    var v := Derive(boards, sp);
    PageLinkReadBack(v.current, p);
    SameRequestSameRanking(boards, sp, p);
  }

  // ----- worked examples -----

  /** Thirty ranked entries, page 2: ranks 26-30 on the last of two pages. */
  lemma ThirtyEntriesPageTwo(ranked: seq<Entry>, board: string, sort: string, q: string)
    requires |ranked| == 30
    ensures var v := Paginate(ranked, 2, board, sort, q);
      && v.totalPages == 2 && v.current.page == 2
      && v.items == ranked[25..30]
      && v.showingFrom == 26 && v.showingTo == 30
      && v.prevHref.Some? && v.nextHref.None?
  {
  }

  /** Asking for page 9 of thirty entries shows the last page. */
  lemma ThirtyEntriesPageNine(ranked: seq<Entry>, board: string, sort: string, q: string)
    requires |ranked| == 30
    ensures Paginate(ranked, 9, board, sort, q) == Paginate(ranked, 2, board, sort, q)
  {
  }

  /** A needle whose first character is nowhere in the haystack is not contained in it. */
  lemma {:induction false} MissingFirstChar(hay: string, needle: string)
    requires needle != [] && forall i :: 0 <= i < |hay| ==> hay[i] != needle[0]
    ensures !Contains(hay, needle)
  {
    if hay != [] {
      assert hay[0] != needle[0];
      assert forall i :: 0 <= i < |hay[1..]| ==> hay[1..][i] == hay[i + 1];
      MissingFirstChar(hay[1..], needle);
    }
  }

  lemma LowerExamples(bob: string, alice: string, q: string)
    requires bob == "Bob" && alice == "Alice" && q == "bo"
    ensures Lower(bob) == "bob" && Lower(alice) == "alice" && Lower(q) == q
  {
  }

  /** The query `bo` keeps `Bob` and drops `Alice`. */
  lemma FilterBoExample(bob: Entry, alice: Entry, q: string)
    requires bob.name == "Bob" && alice.name == "Alice" && q == "bo"
    ensures Filtered([bob, alice], Lower(q)) == [bob]
  {
    LowerExamples(bob.name, alice.name, q);
    MissingFirstChar(Lower(alice.name), q);
    assert q <= Lower(bob.name);
    assert Matches(q)(bob) && !Matches(q)(alice);
    KeepCons(bob, [alice], Matches(q));
    KeepCons(alice, [], Matches(q));
    assert [bob] + [alice] == [bob, alice] && [alice] + [] == [alice];
  }
}
