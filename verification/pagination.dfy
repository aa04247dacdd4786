/** The paging arithmetic of the table view: page size, page count, page
    clamping and slicing in `renderTable`, and the five-wide page-number
    window and button states of `drawPagination` (js/app.js). */
module Pagination {
  import opened Text

  const DefaultPageSize: int := 15
  const WindowSize: int := 5

  /** A page size as the code can hold it: `parseInt(...) || 15` is never 0
      (and never NaN). */
  type PageSize = n: int | n != 0 witness 15

  /** `parseInt(select.value, 10) || 15`; `None` stands for NaN or a missing
      control, and both fall back to 15, as 0 does. */
  function PageSizeOf(parsed: Option<int>): (r: PageSize)
    ensures parsed.Some? && parsed.value != 0 ==> r == parsed.value
    ensures parsed.None? || parsed.value == 0 ==> r == DefaultPageSize
  {
    if parsed.Some? && parsed.value != 0 then parsed.value else DefaultPageSize
  }

  /** `Math.ceil(total / pageSize)`. */
  function CeilDiv(total: nat, ps: PageSize): (r: int)
    ensures ps > 0 ==> (r * ps >= total && (r - 1) * ps < total) || (total == 0 && r == 0)
    ensures ps < 0 ==> r <= 0
  {
    var d: int := ps;
    if d > 0 then (total + d - 1) / d else -(total / -d)
  }

  /** `Math.max(1, Math.ceil(total / pageSize))`: the fewest pages of `ps`
      rows that hold `total` rows, and never fewer than one. */
  function TotalPages(total: nat, ps: PageSize): (tp: int)
    ensures tp >= 1
    ensures ps > 0 ==> total <= tp * ps && (tp == 1 || (tp - 1) * ps < total)
    ensures ps < 0 ==> tp == 1
  {
    Max(1, CeilDiv(total, ps))
  }

  /** `Math.min(Math.max(1, page), totalPages)`. */
  function ClampPage(page: int, tp: int): (r: int)
    requires tp >= 1
    ensures 1 <= r <= tp
    ensures 1 <= page <= tp ==> r == page
    ensures page < 1 ==> r == 1
    ensures page > tp ==> r == tp
  {
    Min(Max(1, page), tp)
  }

  /** The index of the first row of `page`: `(page - 1) * pageSize`. */
  function PageStart(page: int, ps: int): int {
    (page - 1) * ps
  }

  /** `block` is page `page` of `rows` at `ps` rows per page: the rows from
      `PageStart(page, ps)` on, at most `ps` of them. */
  ghost predicate IsPage<T>(rows: seq<T>, page: int, ps: int, block: seq<T>) {
    var start := PageStart(page, ps);
    && ps > 0 && 0 <= start <= |rows| && |block| <= ps
    && block == rows[start..Min(start + ps, |rows|)]
  }

  /** `rows.slice(start, start + pageSize)` with `start = (page - 1) * pageSize`. */
  function PageRows<T>(rows: seq<T>, page: int, ps: PageSize): (r: seq<T>)
    ensures |r| <= |rows|
    ensures SliceIndex(PageStart(page, ps), |rows|) + |r| <= |rows|
    ensures r == rows[SliceIndex(PageStart(page, ps), |rows|)..SliceIndex(PageStart(page, ps), |rows|) + |r|]
  {
    var start := PageStart(page, ps);
    Slice(rows, start, start + ps)
  }

  /** A slice of `len` rows from a non-negative `start`. */
  lemma SliceBlock<T>(rows: seq<T>, start: nat, len: nat)
    ensures |Slice(rows, start, start + len)| <= len
    ensures start <= |rows| ==> Slice(rows, start, start + len) == rows[start..Min(start + len, |rows|)]
    ensures start >= |rows| ==> Slice(rows, start, start + len) == []
  {
  }

  /** For a positive page size and a page from 1 on, the page is the block of
      at most `ps` rows that starts at `(page - 1) * ps`. */
  lemma PageRowsBlock<T>(rows: seq<T>, page: int, ps: PageSize)
    requires ps > 0 && page >= 1
    ensures var start := PageStart(page, ps);
      && 0 <= start
      && |PageRows(rows, page, ps)| <= ps
      && (start <= |rows| ==> PageRows(rows, page, ps) == rows[start..Min(start + ps, |rows|)])
      && (start >= |rows| ==> PageRows(rows, page, ps) == [])
  {
    assert (page - 1) * ps >= 0;
    SliceBlock(rows, PageStart(page, ps), ps);
  }

  /** An in-range page starts inside the rows, and strictly inside when
      there are rows. */
  lemma PageStartInRange(n: nat, ps: PageSize, page: int)
    requires ps > 0 && 1 <= page <= TotalPages(n, ps)
    ensures 0 <= PageStart(page, ps) <= n
    ensures n > 0 ==> PageStart(page, ps) < n
  {
    var tp := TotalPages(n, ps);
    if tp == 1 {
      assert page == 1;
    } else {
      assert (page - 1) * ps <= (tp - 1) * ps by {
        assert (tp - 1) * ps - (page - 1) * ps == (tp - page) * ps;
      }
    }
  }

  /** The page actually shown and its rows. */
  datatype PageView<T> = PageView(page: int, totalPages: int, rows: seq<T>)

  /** The paging step of `renderTable`: count the pages, clamp the
      requested page into range, slice out its rows. */
  function ShowPage<T>(rows: seq<T>, requested: int, ps: PageSize): (v: PageView<T>)
    ensures v.totalPages == TotalPages(|rows|, ps)
    ensures 1 <= v.page <= v.totalPages
    ensures 1 <= requested <= v.totalPages ==> v.page == requested
    ensures v.page == ClampPage(requested, v.totalPages)
    ensures ps > 0 ==> IsPage(rows, v.page, ps, v.rows)
    ensures ps > 0 && |rows| > 0 ==> PageStart(v.page, ps) < |rows| && v.rows != []
  {
    var tp := TotalPages(|rows|, ps);
    var page := ClampPage(requested, tp);
    var v := PageView(page, tp, PageRows(rows, page, ps));
    if ps > 0 then
      PageRowsBlock(rows, page, ps);
      PageStartInRange(|rows|, ps, page);
      v
    else v
  }

  /** Pages 1 to `k` laid end to end. */
  function FirstPages<T>(rows: seq<T>, k: nat, ps: PageSize): seq<T>
    requires ps > 0
  {
    if k == 0 then [] else FirstPages(rows, k - 1, ps) + PageRows(rows, k, ps)
  }

  /** The rows before `start`, followed by the block of `len` rows from
      `start`, are the rows before `start + len`. */
  lemma PrefixThenBlock<T>(rows: seq<T>, start: nat, len: nat, block: seq<T>)
    requires start <= |rows| ==> block == rows[start..Min(start + len, |rows|)]
    requires start >= |rows| ==> block == []
    ensures rows[..Min(start, |rows|)] + block == rows[..Min(start + len, |rows|)]
  {
    var e := Min(start + len, |rows|);
    if start <= |rows| {
      assert start <= e <= |rows| && Min(start, |rows|) == start;
      var p := rows[..start];
      assert |p + block| == e;
      forall k | 0 <= k < e ensures (p + block)[k] == rows[..e][k] {
        if k >= start { assert block[k - start] == rows[k]; }
      }
    } else {
      assert e == |rows| && Min(start, |rows|) == |rows| && block == [];
      assert rows[..|rows|] + [] == rows[..|rows|];
    }
  }

  lemma {:induction false} FirstPagesPrefix<T>(rows: seq<T>, k: nat, ps: PageSize)
    requires ps > 0
    ensures FirstPages(rows, k, ps) == rows[..Min(k * ps, |rows|)]
  {
    if k > 0 {
      FirstPagesPrefix(rows, k - 1, ps);
      PageRowsBlock(rows, k, ps);
      assert PageStart(k, ps) + ps == k * ps;
      assert (k - 1) * ps >= 0;
      PrefixThenBlock(rows, PageStart(k, ps), ps, PageRows(rows, k, ps));
    }
  }

  /** Every row appears on exactly one page: the pages from 1 to the page
      count, laid end to end, are the whole row list in order. */
  lemma PagesTileRows<T>(rows: seq<T>, ps: PageSize)
    requires ps > 0
    ensures FirstPages(rows, TotalPages(|rows|, ps), ps) == rows
  {
    var tp := TotalPages(|rows|, ps);
    FirstPagesPrefix(rows, tp, ps);
  }

  /** The page-number window: up to five pages with the current one in the
      middle, shifted to stay inside 1..tp near either end. */
  function Window(page: int, tp: int): (w: (int, int))
    ensures 1 <= w.0 && w.1 <= tp
    ensures 1 <= page <= tp ==>
      && w.0 <= page <= w.1
      && w.1 - w.0 + 1 == Min(WindowSize, tp)
    ensures 1 <= page <= tp ==> w.0 == Max(1, Min(page - WindowSize / 2, tp - WindowSize + 1))
    ensures 1 + WindowSize / 2 <= page <= tp - WindowSize / 2 ==>
      w == (page - WindowSize / 2, page + WindowSize / 2)
  {
    var start0 := Max(1, page - WindowSize / 2);
    var end := Min(tp, start0 + WindowSize - 1);
    (Max(1, end - WindowSize + 1), end)
  }

  datatype PageButton = PageButton(number: int, active: bool)

  /** What `drawPagination` puts on screen. */
  datatype Nav = Nav(
    firstDisabled: bool,
    prevDisabled: bool,
    pages: seq<PageButton>,
    nextDisabled: bool,
    lastDisabled: bool)

  function DrawPagination(page: int, tp: int): (nav: Nav)
    ensures nav.firstDisabled <==> page == 1
    ensures nav.prevDisabled <==> page == 1
    ensures nav.nextDisabled <==> page == tp
    ensures nav.lastDisabled <==> page == tp
    ensures forall i :: 0 <= i < |nav.pages| ==> 1 <= nav.pages[i].number <= tp
    ensures forall i :: 0 <= i < |nav.pages| ==> nav.pages[i].number == nav.pages[0].number + i
    ensures forall i :: 0 <= i < |nav.pages| ==> (nav.pages[i].active <==> nav.pages[i].number == page)
    ensures 1 <= page <= tp ==>
      && |nav.pages| == Min(WindowSize, tp)
      && exists i :: 0 <= i < |nav.pages| && nav.pages[i].number == page
    ensures 1 <= page <= tp ==> nav.pages[0].number == Window(page, tp).0
  {
    var (start, end) := Window(page, tp);
    var count := if end >= start then end - start + 1 else 0;
    var pages := seq(count, i requires 0 <= i < count => PageButton(start + i, start + i == page));
    assert 1 <= page <= tp ==> pages[page - start].number == page;
    Nav(page == 1, page == 1, pages, page == tp, page == tp)
  }

  /** The page each navigation button leads to. */
  datatype Click = First | Prev | Next | Last | Number(p: int)

  function OnClick(c: Click, page: int, tp: int): (r: int)
    ensures c == First ==> r == 1
    ensures c == Last ==> r == tp
    ensures c == Prev ==> r >= 1 && (page > 1 ==> r == page - 1) && (page <= 1 ==> r == 1)
    ensures c == Next ==> r <= tp && (page < tp ==> r == page + 1) && (page >= tp ==> r == tp)
    ensures c.Number? ==> r == c.p
  {
    match c
    case First => 1
    case Prev => Max(1, page - 1)
    case Next => Min(tp, page + 1)
    case Last => tp
    case Number(p) => p
  }

  /** From any in-range page, every button of the drawn bar leads to an
      in-range page; Prev and Next move by one unless at the edge. */
  lemma ClicksStayInRange(page: int, tp: int, c: Click)
    requires 1 <= page <= tp
    requires c.Number? ==> exists i :: 0 <= i < |DrawPagination(page, tp).pages|
                                      && DrawPagination(page, tp).pages[i].number == c.p
    ensures 1 <= OnClick(c, page, tp) <= tp
    ensures c == Prev ==> OnClick(c, page, tp) == if page == 1 then 1 else page - 1
    ensures c == Next ==> OnClick(c, page, tp) == if page == tp then tp else page + 1
  {
  }
}
