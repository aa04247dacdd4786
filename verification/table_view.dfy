/** The table view controller of js/app.js as a state machine over an
    immutable `ViewState`: loading a month, resetting, header clicks,
    page-size changes and rendering (sort a copy, clamp the page, slice). */
module TableView {
  import opened Text
  import opened JsValues
  import opened TableSort
  import opened Pagination

  /** Column index of the "Date" column, the sort column after a reset. */
  const DateColIndex: int := 0

  datatype ViewState = ViewState(
    rows: seq<Row>,
    headers: seq<Cell>,
    page: int,
    pageSize: PageSize,
    sortCol: int,
    sortDir: Dir)

  /** The state at start-up: no rows, page 1, ascending on the date column. */
  function Initial(parsedPageSize: Option<int>): (st: ViewState)
    ensures st.rows == [] && st.headers == [] && st.page == 1
    ensures st.sortCol == DateColIndex && st.sortDir == Asc
    ensures st.pageSize == PageSizeOf(parsedPageSize)
    ensures parsedPageSize.None? || parsedPageSize.value == 0 ==> st.pageSize == DefaultPageSize
  {
    ViewState([], [], 1, PageSizeOf(parsedPageSize), DateColIndex, Asc)
  }

  /** `resetViewState`: clears the table and returns to page 1, ascending on
      the date column; the page size is kept. */
  function ResetViewState(st: ViewState): (r: ViewState)
    ensures r.rows == [] && r.headers == [] && r.page == 1
    ensures r.sortCol == DateColIndex && r.sortDir == Asc
    ensures r.pageSize == st.pageSize
  {
    st.(rows := [], headers := [], page := 1, sortCol := DateColIndex, sortDir := Asc)
  }

  /** `reloadSingleMonth` once the payload is in: `payload.headers || []` and
      `Array.isArray(payload.rows) ? payload.rows : []`. For the rows `None`
      stands for a missing field or a non-array; for the headers it stands
      for a missing (falsy) field. A failed request yields empty lists for
      both. */
  function LoadSheet(st: ViewState, headers: Option<seq<Cell>>, rows: Option<seq<Row>>): (r: ViewState)
    ensures r.rows == rows.GetOr([]) && r.headers == headers.GetOr([])
    ensures r.page == 1 && r.sortCol == DateColIndex && r.sortDir == Asc
    ensures r.pageSize == st.pageSize
  {
    ResetViewState(st).(headers := headers.GetOr([]), rows := rows.GetOr([]))
  }

  /** `onHeaderClick(idx)`, before the re-render. */
  function OnHeaderClick(st: ViewState, idx: int): (r: ViewState)
    ensures r.sortCol == idx && r.page == 1
    ensures st.sortCol == idx ==> r.sortDir != st.sortDir
    ensures st.sortCol != idx ==> r.sortDir == Asc
    ensures r.rows == st.rows && r.headers == st.headers && r.pageSize == st.pageSize
  {
    if st.sortCol == idx then
      st.(sortDir := if st.sortDir == Asc then Desc else Asc, page := 1)
    else
      st.(sortCol := idx, sortDir := Asc, page := 1)
  }

  /** Two clicks on the same header restore the direction it had. */
  lemma HeaderClickTwice(st: ViewState, idx: int)
    ensures OnHeaderClick(OnHeaderClick(st, idx), idx).sortDir ==
      (if st.sortCol == idx then st.sortDir else Desc)
  {
  }

  /** The page-size control's change handler, before the re-render. */
  function ChangePageSize(st: ViewState, parsed: Option<int>): (r: ViewState)
    ensures r.page == 1 && r.pageSize != 0
    ensures parsed.Some? && parsed.value != 0 ==> r.pageSize == parsed.value
    ensures parsed.None? || parsed.value == 0 ==> r.pageSize == DefaultPageSize
    ensures r.rows == st.rows && r.headers == st.headers
    ensures r.sortCol == st.sortCol && r.sortDir == st.sortDir
  {
    st.(pageSize := PageSizeOf(parsed), page := 1)
  }

  /** What `renderTable` produces: the sorted copy, the page count, the
      visible slice, whether the empty notice shows, and the pagination bar. */
  datatype Rendered = Rendered(
    state: ViewState,
    display: seq<Row>,
    totalPages: int,
    pageRows: seq<Row>,
    showEmpty: bool,
    nav: Nav)

  function RenderTable(st: ViewState): (r: Rendered)
    ensures r.state == st.(page := r.state.page)
    ensures multiset(r.display) == multiset(st.rows)
    ensures r.totalPages == TotalPages(|st.rows|, st.pageSize)
    ensures 1 <= r.state.page <= r.totalPages
    ensures 1 <= st.page <= r.totalPages ==> r.state.page == st.page
    ensures st.pageSize > 0 ==> IsPage(r.display, r.state.page, st.pageSize, r.pageRows)
    ensures r.showEmpty <==> r.pageRows == []
    ensures st.pageSize > 0 && st.rows != [] ==> !r.showEmpty
    ensures r.nav.prevDisabled <==> r.state.page == 1
    ensures r.nav.nextDisabled <==> r.state.page == r.totalPages
    ensures |r.nav.pages| == Min(WindowSize, r.totalPages)
    ensures r.display == SortRows(st.rows, st.sortCol, st.sortDir)
  {
    var display := SortRows(st.rows, st.sortCol, st.sortDir);
    var v := ShowPage(display, st.page, st.pageSize);
    var r := Rendered(st.(page := v.page), display, v.totalPages, v.rows, v.rows == [],
                      DrawPagination(v.page, v.totalPages));
    assert r.state.page == v.page && r.totalPages == v.totalPages;
    assert r.display == display && r.pageRows == v.rows;
    r
  }

  /** The navigation bar is the one `drawPagination` draws for the shown
      page and the page count. */
  lemma RenderTableNav(st: ViewState)
    ensures RenderTable(st).nav == DrawPagination(RenderTable(st).state.page, RenderTable(st).totalPages)
  {
    var display := SortRows(st.rows, st.sortCol, st.sortDir);
    var v := ShowPage(display, st.page, st.pageSize);
    assert RenderTable(st).state.page == v.page && RenderTable(st).totalPages == v.totalPages;
  }

  /** The shown page is the requested one clamped into 1..totalPages: a page
      past the end shows the last page. */
  lemma RenderTableClamps(st: ViewState)
    ensures RenderTable(st).state.page == ClampPage(st.page, RenderTable(st).totalPages)
  {
    var display := SortRows(st.rows, st.sortCol, st.sortDir);
    var v := ShowPage(display, st.page, st.pageSize);
    assert RenderTable(st).state.page == v.page && RenderTable(st).totalPages == v.totalPages;
  }

  /** The rendered order follows the sort column and direction: on an
      all-numeric or all-text column the displayed rows are in comparator
      order. */
  lemma RenderTableSorted(st: ViewState)
    requires AllNumeric(st.rows, st.sortCol) || AllText(st.rows, st.sortCol)
    ensures Sorted(RenderTable(st).display, st.sortCol, st.sortDir)
  {
    SortHomogeneousSorted(st.rows, st.sortCol, st.sortDir);
  }

  /** After a reset the table renders as one empty page: page 1 of 1, no
      rows and the empty notice shown, whatever the page size. */
  lemma ResetRendersEmpty(st: ViewState)
    ensures var r := RenderTable(ResetViewState(st));
      && r.state.page == 1 && r.totalPages == 1
      && r.display == [] && r.pageRows == [] && r.showEmpty
      && r.nav.firstDisabled && r.nav.lastDisabled
  {
    var e := ResetViewState(st);
    assert |e.rows| == 0;
    var r := RenderTable(e);
    assert multiset(r.display) == multiset{};
  }

  /** Rendering is stable: rendering the rendered state changes nothing. */
  lemma RenderTableIdempotent(st: ViewState)
    ensures RenderTable(RenderTable(st).state).state == RenderTable(st).state
  {
    var r := RenderTable(st);
    assert r.state.rows == st.rows;
  }

  /** A header click always lands on page 1 after the re-render. */
  lemma HeaderClickShowsFirstPage(st: ViewState, idx: int)
    ensures RenderTable(OnHeaderClick(st, idx)).state.page == 1
  {
  }

  /** The month shown on load and when the monthly panel closes: "Jan" if
      the workbook has it, otherwise the first tab, and none for no tabs. */
  function DefaultMonth(tabs: seq<string>): (r: Option<string>)
    ensures r.None? <==> tabs == []
    ensures r.Some? ==> r.value in tabs
    ensures "Jan" in tabs ==> r == Some("Jan")
    ensures "Jan" !in tabs && tabs != [] ==> r == Some(tabs[0])
  {
    if "Jan" in tabs then Some("Jan") else if tabs != [] then Some(tabs[0]) else None
  }
}
