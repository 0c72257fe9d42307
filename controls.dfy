/**
 * The navigation logic of the controls component (src/app/Controls.tsx): the
 * split of the board keys into pinned tabs and archived weeks, the links the
 * tabs, the archive select, the sort select and the search box navigate to,
 * and the order of the archive options. React state is reduced to the value
 * `q` of the search box, which the handlers receive.
 */
module Controls {
  import opened Wrappers
  import opened Text
  import opened Sorting
  import opened QueryString
  import opened Arrays
  import opened LeaderboardView

  /** `Props` (lines 5-12); `activeQ` is `None` when the prop is not passed. */
  datatype Props = Props(
    boardKeys: seq<string>,
    boardTitles: map<string, string>,
    activeBoard: string,
    activeSort: string,
    activePage: int,
    activeQ: Option<string>)

  /** `BoardGroup` (lines 14-17). */
  datatype BoardGroup = BoardGroup(tabs: seq<string>, archived: seq<string>)

  /** `pinnedOrder` (line 21). */
  const PinnedOrder: seq<string> := ["overall", "thisWeek"]

  /** `k => keys.includes(k)`. */
  function In(keys: seq<string>): string -> bool {
    (k: string) => k in keys
  }

  /** `k => !keys.includes(k)`. */
  function NotIn(keys: seq<string>): string -> bool {
    (k: string) => k !in keys
  }

  /** Lines 19-29. */
  function GroupBoards(keys: seq<string>): BoardGroup {
    var pinned := Keep(PinnedOrder, In(keys));
    BoardGroup(pinned, Keep(keys, NotIn(pinned)))
  }

  /** Lines 21-23: the tabs are `overall` then `thisWeek`, each only when it is a board. */
  lemma GroupBoardsTabs(keys: seq<string>)
    ensures GroupBoards(keys).tabs
         == (if "overall" in keys then ["overall"] else []) + (if "thisWeek" in keys then ["thisWeek"] else [])
  {
    KeepCons("overall", ["thisWeek"], In(keys));
    KeepCons("thisWeek", [], In(keys));
    assert PinnedOrder == ["overall"] + ["thisWeek"];
    assert ["thisWeek"] == ["thisWeek"] + [];
  }

  /** A key is pinned when it is `overall` or `thisWeek`. */
  predicate Pinned(k: string) {
    k == "overall" || k == "thisWeek"
  }

  /** Line 24: the archive is the keys without the two pinned names, in their original order. */
  lemma GroupBoardsArchived(keys: seq<string>)
    ensures GroupBoards(keys).archived == Keep(keys, (k: string) => !Pinned(k))
  {
    var pinned := GroupBoards(keys).tabs;
    GroupBoardsTabs(keys);
    KeepSame(keys, NotIn(pinned), (k: string) => !Pinned(k));
  }

  /** Two tests that agree on every element keep the same elements. */
  lemma {:induction false} KeepSame(s: seq<string>, p: string -> bool, p2: string -> bool)
    requires forall x :: x in s ==> p(x) == p2(x)
    ensures Keep(s, p) == Keep(s, p2)
  {
    if s != [] {
      KeepSame(s[1..], p, p2);
    }
  }

  /** Lines 23-28: every key lands in exactly one of the two groups, and nothing else does. */
  lemma GroupBoardsPartition(keys: seq<string>, k: string)
    ensures var g := GroupBoards(keys);
      && (k in g.tabs || k in g.archived <==> k in keys)
      && !(k in g.tabs && k in g.archived)
  {
    var g := GroupBoards(keys);
    KeepMembership(PinnedOrder, In(keys), k);
    KeepMembership(keys, NotIn(g.tabs), k);
  }

  // ----- links (lines 42-55) -----

  /** Line 40: the search box starts with `activeQ ?? ""`. */
  function InitialQuery(props: Props): string {
    props.activeQ.GetOr("")
  }

  /**
   * Lines 42-55: `makeHref(next)` with the search box holding `q`: each field of
   * `next` overrides the active one, and the query is trimmed and set only when
   * something is left.
   */
  function ControlsHref(props: Props, q: string, next: Patch): Pairs {
    var query := Trim(next.q.GetOr(q));
    var params := Set(Set(Set([], "board", next.board.GetOr(props.activeBoard)),
                          "sort", next.sort.GetOr(props.activeSort)),
                      "page", NumberString(next.page.GetOr(props.activePage)));
    if query != "" then Set(params, "q", query) else params
  }

  /** What a reader of the link gets back for each name. */
  lemma ControlsHrefGetAll(props: Props, q: string, next: Patch, name: string)
    ensures var query := Trim(next.q.GetOr(q));
      GetAll(ControlsHref(props, q, next), name)
        == if name == "board" then [next.board.GetOr(props.activeBoard)]
           else if name == "sort" then [next.sort.GetOr(props.activeSort)]
           else if name == "page" then [NumberString(next.page.GetOr(props.activePage))]
           else if name == "q" && query != "" then [query]
           else []
  {
    var h0: Pairs := [];
    var h1 := Set(h0, "board", next.board.GetOr(props.activeBoard));
    var h2 := Set(h1, "sort", next.sort.GetOr(props.activeSort));
    var h3 := Set(h2, "page", NumberString(next.page.GetOr(props.activePage)));
    GetAllSet(h0, "board", next.board.GetOr(props.activeBoard), name);
    GetAllSet(h1, "sort", next.sort.GetOr(props.activeSort), name);
    GetAllSet(h2, "page", NumberString(next.page.GetOr(props.activePage)), name);
    GetAllSet(h3, "q", Trim(next.q.GetOr(q)), name);
  }

  lemma TrimTidy(x: string)
    ensures var t := Trim(x); t == [] || (!IsSpace(t[0]) && !IsSpace(t[|t| - 1]) && Trim(t) == t)
  {
    TrimShape(x);
    TrimIdempotent(x);
  }

  /** A query the link carries is not empty and has no white space at either end. */
  lemma ControlsHrefQueryTidy(props: Props, q: string, next: Patch)
    ensures forall v :: v in GetAll(ControlsHref(props, q, next), "q") ==>
      v != [] && !IsSpace(v[0]) && !IsSpace(v[|v| - 1]) && Trim(v) == v
  {
    var t := Trim(next.q.GetOr(q));
    ControlsHrefGetAll(props, q, next, "q");
    TrimTidy(next.q.GetOr(q));
    var all := GetAll(ControlsHref(props, q, next), "q");
    assert all == if t != "" then [t] else [];
    forall v | v in all ensures v != [] && !IsSpace(v[0]) && !IsSpace(v[|v| - 1]) && Trim(v) == v {
      assert v == t;
    }
  }

  // ----- the handlers -----

  /** Line 58: applying the search box. */
  function ApplySearch(props: Props, q: string): Pairs {
    ControlsHref(props, q, Patch(None, None, Some(1), Some(q)))
  }

  /** Line 73: the link of tab `k`. */
  function TabHref(props: Props, q: string, k: string): Pairs {
    ControlsHref(props, q, Patch(Some(k), None, Some(1), None))
  }

  /** Lines 92-95: choosing `v` in the archive select; the empty choice does nothing. */
  function ArchiveChange(props: Props, q: string, v: string): Option<Pairs> {
    if v == "" then None else Some(ControlsHref(props, q, Patch(Some(v), None, Some(1), None)))
  }

  /** Line 125: choosing sort key `s`. */
  function SortChange(props: Props, q: string, s: string): Pairs {
    ControlsHref(props, q, Patch(None, Some(s), Some(1), None))
  }

  /** Lines 160-162: the Clear link, shown only while `activeQ` is a non-empty string. */
  function ClearHref(props: Props, q: string): Option<Pairs> {
    if props.activeQ.Some? && props.activeQ.value != "" then
      Some(ControlsHref(props, q, Patch(None, None, Some(1), Some(""))))
    else None
  }

  lemma PageOne()
    ensures NumberString(1) == "1"
  {
  }

  /** A tab link shows page 1 of that board with the active sort. */
  lemma TabHrefResetsPage(props: Props, q: string, k: string)
    ensures var h := TabHref(props, q, k);
      GetAll(h, "page") == ["1"] && GetAll(h, "board") == [k] && GetAll(h, "sort") == [props.activeSort]
  {
    PageOne();
    var next := Patch(Some(k), None, Some(1), None);
    ControlsHrefGetAll(props, q, next, "page");
    ControlsHrefGetAll(props, q, next, "board");
    ControlsHrefGetAll(props, q, next, "sort");
  }

  /** Choosing a non-empty archive week shows page 1 of that board; the empty choice navigates nowhere. */
  lemma ArchiveChangeResetsPage(props: Props, q: string, v: string)
    ensures ArchiveChange(props, q, v).Some? <==> v != ""
    ensures ArchiveChange(props, q, v).Some? ==>
      var h := ArchiveChange(props, q, v).value;
      GetAll(h, "page") == ["1"] && GetAll(h, "board") == [v] && GetAll(h, "sort") == [props.activeSort]
  {
    TabHrefResetsPage(props, q, v);
  }

  /** A sort choice shows page 1 of the active board under the new sort. */
  lemma SortChangeResetsPage(props: Props, q: string, s: string)
    ensures var h := SortChange(props, q, s);
      GetAll(h, "page") == ["1"] && GetAll(h, "sort") == [s] && GetAll(h, "board") == [props.activeBoard]
  {
    PageOne();
    var next := Patch(None, Some(s), Some(1), None);
    ControlsHrefGetAll(props, q, next, "page");
    ControlsHrefGetAll(props, q, next, "sort");
    ControlsHrefGetAll(props, q, next, "board");
  }

  /** Applying the search shows page 1 of the active board and sort, with the trimmed box contents. */
  lemma ApplySearchResetsPage(props: Props, q: string)
    ensures var h := ApplySearch(props, q);
      && GetAll(h, "page") == ["1"] && GetAll(h, "board") == [props.activeBoard]
      && GetAll(h, "sort") == [props.activeSort]
      && GetAll(h, "q") == (if Trim(q) != "" then [Trim(q)] else [])
  {
    PageOne();
    var next := Patch(None, None, Some(1), Some(q));
    ControlsHrefGetAll(props, q, next, "page");
    ControlsHrefGetAll(props, q, next, "board");
    ControlsHrefGetAll(props, q, next, "sort");
    ControlsHrefGetAll(props, q, next, "q");
  }

  /** Clear shows page 1 of the active board and sort without a query. */
  lemma ClearResetsPage(props: Props, q: string)
    ensures ClearHref(props, q).Some? ==>
      var h := ClearHref(props, q).value;
      && GetAll(h, "page") == ["1"] && GetAll(h, "board") == [props.activeBoard]
      && GetAll(h, "sort") == [props.activeSort] && GetAll(h, "q") == []
  {
    PageOne();
    var next := Patch(None, None, Some(1), Some(""));
    ControlsHrefGetAll(props, q, next, "page");
    ControlsHrefGetAll(props, q, next, "board");
    ControlsHrefGetAll(props, q, next, "sort");
    ControlsHrefGetAll(props, q, next, "q");
    assert Trim("") == "";
  }

  /**
   * The links that do not name a query (tabs, archive, sort) carry the search
   * box as it is, typed but not yet applied.
   */
  lemma LinksCarrySearchBox(props: Props, q: string, k: string, s: string)
    ensures GetAll(TabHref(props, q, k), "q") == (if Trim(q) != "" then [Trim(q)] else [])
    ensures ArchiveChange(props, q, k).Some? ==>
      GetAll(ArchiveChange(props, q, k).value, "q") == (if Trim(q) != "" then [Trim(q)] else [])
    ensures GetAll(SortChange(props, q, s), "q") == (if Trim(q) != "" then [Trim(q)] else [])
  {
    ControlsHrefGetAll(props, q, Patch(Some(k), None, Some(1), None), "q");
    ControlsHrefGetAll(props, q, Patch(None, Some(s), Some(1), None), "q");
  }

  // ----- the archive select (lines 89-109) -----

  /** Line 91: the select shows the active board when it is archived, else the placeholder. */
  function ArchiveSelectValue(props: Props, g: BoardGroup): (r: string)
    ensures r == "" || (r == props.activeBoard && r in g.archived)
    ensures props.activeBoard in g.archived ==> r == props.activeBoard
  {
    if props.activeBoard in g.archived then props.activeBoard else ""
  }

  /** With the active board on a tab, the select shows the placeholder. */
  lemma PinnedBoardShowsPlaceholder(props: Props)
    requires props.activeBoard in GroupBoards(props.boardKeys).tabs
    ensures ArchiveSelectValue(props, GroupBoards(props.boardKeys)) == ""
  {
    GroupBoardsPartition(props.boardKeys, props.activeBoard);
  }

  /** `boardTitles[k] ?? k`. */
  function TitleOf(titles: map<string, string>): string -> string {
    (k: string) => if k in titles then titles[k] else k
  }

  lemma LexLeTotalPreorder()
    ensures TotalPreorder(LexLe)
  {
    forall a, b ensures LexLe(a, b) || LexLe(b, a) {
      LexLeTotal(a, b);
    }
    forall a, b, c | LexLe(a, b) && LexLe(b, c) ensures LexLe(a, c) {
      LexLeTransitive(a, b, c);
    }
  }

  /** Lines 101-103: a sorted copy of the archive, by title or, without one, by key. */
  function ArchiveOptions(archived: seq<string>, titles: map<string, string>): (r: seq<string>)
    ensures |r| == |archived| && multiset(r) == multiset(archived)
  {
    Sort(archived, TitleOf(titles), LexLe)
  }

  /**
   * The options are the archived keys, in ascending order of their displayed
   * title, keys with equal titles keeping their archive order.
   */
  lemma ArchiveOptionsSpec(archived: seq<string>, titles: map<string, string>, title: string)
    ensures var r := ArchiveOptions(archived, titles);
      && (forall i, j :: 0 <= i < j < |r| ==> LexLe(TitleOf(titles)(r[i]), TitleOf(titles)(r[j])))
      && KeyFilter(r, TitleOf(titles), title) == KeyFilter(archived, TitleOf(titles), title)
  {
    LexLeTotalPreorder();
    SortSorted(archived, TitleOf(titles), LexLe);
    SortStable(archived, TitleOf(titles), LexLe, title);
  }

  // ----- the props the page passes -----

  /**
   * src/app/page.tsx:361-368 as written: the query is passed as `activeQuery`,
   * a prop the component does not declare, so `activeQ` is undefined.
   */
  function PagePropsAsWritten(boardKeys: seq<string>, titles: map<string, string>, c: Current): Props {
    Props(boardKeys, titles, c.board, c.sort, c.page, None)
  }

  /** The props the page evidently means to pass: the active query as `activeQ`. */
  function PageProps(boardKeys: seq<string>, titles: map<string, string>, c: Current): Props {
    Props(boardKeys, titles, c.board, c.sort, c.page, Some(c.q))
  }

  /**
   * As written, a page showing a search starts with an empty search box, has
   * no Clear link, and its untouched tab links drop the search.
   */
  lemma AsWrittenForgetsQuery(boardKeys: seq<string>, titles: map<string, string>, c: Current, k: string)
    requires Trim(c.q) != ""
    ensures var props := PagePropsAsWritten(boardKeys, titles, c);
      && InitialQuery(props) == ""
      && ClearHref(props, InitialQuery(props)).None?
      && GetAll(TabHref(props, InitialQuery(props), k), "q") == []
  {
    var props := PagePropsAsWritten(boardKeys, titles, c);
    assert Trim("") == "";
    LinksCarrySearchBox(props, "", k, c.sort);
  }

  /** A concrete case: the page for the search `bo`. */
  lemma AsWrittenForgetsBo(boardKeys: seq<string>, titles: map<string, string>)
    ensures var props := PagePropsAsWritten(boardKeys, titles, Current("overall", "personal", 1, "bo"));
      && InitialQuery(props) == ""
      && ClearHref(props, InitialQuery(props)).None?
      && GetAll(TabHref(props, InitialQuery(props), "thisWeek"), "q") == []
  {
    var c := Current("overall", "personal", 1, "bo");
    assert c.q[0] == 'b' && c.q[|c.q| - 1] == 'o';
    TrimOfTidy(c.q);
    AsWrittenForgetsQuery(boardKeys, titles, c, "thisWeek");
  }

  /**
   * With the query passed as `activeQ`, the box starts with the active query,
   * Clear is offered exactly while there is one, and the untouched tab links
   * keep it (trimmed).
   */
  lemma PagePropsKeepQuery(boardKeys: seq<string>, titles: map<string, string>, c: Current, k: string)
    ensures var props := PageProps(boardKeys, titles, c);
      && InitialQuery(props) == c.q
      && (ClearHref(props, InitialQuery(props)).Some? <==> c.q != "")
      && GetAll(TabHref(props, InitialQuery(props), k), "q") == (if Trim(c.q) != "" then [Trim(c.q)] else [])
  {
    LinksCarrySearchBox(PageProps(boardKeys, titles, c), c.q, k, c.sort);
  }
}
