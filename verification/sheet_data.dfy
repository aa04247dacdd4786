/** The month-sheet endpoint (api/getSheetData/index.js): it reads a
    worksheet's used range, normalises the header row, drops blank data rows,
    finds the Date / Start / End columns and decodes their cells into epoch
    milliseconds, and wraps everything in a JSON envelope. */
module SheetData {
  import opened Text
  import opened JsValues

  type Row = seq<Cell>

  // ---------------------------------------------------------------- headers

  /** `normalizeHeader`: `String(h || "").trim()`. */
  function NormalizeHeader(h: Cell): (r: string)
    ensures r == [] || (!IsSpace(r[0]) && !IsSpace(r[|r| - 1]))
    ensures Falsy(h) ==> r == []
    ensures h.Str? ==> r == Trim(h.s)
    ensures h.Num? && h.n != 0.0 ==> r == NumToString(h.n)
    ensures h == Bool(true) ==> r == "true"
  {
    PrimitiveTrimmed(h);
    Trim(ToString(OrEmpty(h)))
  }

  /** The string form of a non-zero number or of `true` is already trimmed. */
  lemma PrimitiveTrimmed(h: Cell)
    ensures (h.Num? && h.n != 0.0) || h == Bool(true) ==> Trim(ToString(h)) == ToString(h)
  {
    if h.Num? { NumToStringNotBlank(h.n); }
    if h == Bool(true) { TrimNoop("true"); }
  }

  /** A normalised header is already normal: normalising it again is a no-op. */
  lemma NormalizeHeaderIdempotent(h: Cell)
    ensures NormalizeHeader(Str(NormalizeHeader(h))) == NormalizeHeader(h)
  {
    var r := NormalizeHeader(h);
    TrimNoop(r);
  }

  function NormalizeHeaders(hs: seq<Cell>): (r: seq<string>)
    ensures |r| == |hs|
    ensures forall i :: 0 <= i < |hs| ==> r[i] == NormalizeHeader(hs[i])
  {
    seq(|hs|, i requires 0 <= i < |hs| => NormalizeHeader(hs[i]))
  }

  // ---------------------------------------------------------- serial dates

  const MsPerDay: int := 86400000

  /** `Date.UTC(1899, 11, 30)`: the day before spreadsheet serial 1 (the
      spreadsheet convention that counts 1900 as a leap year). */
  const ExcelEpochMs: int := -2209161600000

  /** Days from 1970-01-01 to the proleptic Gregorian date y-m-d, by the
      era/year-of-era decomposition of the civil calendar. An independent
      reference for the epoch constant. */
  function DaysFromCivil(y: int, m: int, d: int): int
    requires 1 <= m <= 12 && 1 <= d <= 31
  {
    var y1 := if m <= 2 then y - 1 else y;
    var era := y1 / 400;
    var yoe := y1 - era * 400;
    var mp := if m > 2 then m - 3 else m + 9;
    var doy := (153 * mp + 2) / 5 + d - 1;
    var doe := yoe * 365 + yoe / 4 - yoe / 100 + doy;
    era * 146097 + doe - 719468
  }

  /** The epoch constant is midnight UTC on 1899-12-30, 25569 days before
      the Unix epoch. */
  lemma ExcelEpochIsCivil()
    ensures DaysFromCivil(1970, 1, 1) == 0
    ensures ExcelEpochMs == DaysFromCivil(1899, 12, 30) * MsPerDay
    ensures ExcelEpochMs == -25569 * MsPerDay
  {
  }

  /** The numeric branch of `parseDateToMs`: a serial is a count of days,
      fractions included, since 1899-12-30 (midnight UTC). */
  function SerialToMs(v: real): (r: real)
    ensures r == (DaysFromCivil(1899, 12, 30) as real + v) * MsPerDay as real
  {
    ExcelEpochIsCivil();
    ExcelEpochMs as real + v * MsPerDay as real
  }

  /** The inverse of SerialToMs: the serial of an epoch time. */
  function MsToSerial(ms: real): real {
    (ms - ExcelEpochMs as real) / MsPerDay as real
  }

  lemma SerialRoundTrip(v: real)
    ensures MsToSerial(SerialToMs(v)) == v
    ensures SerialToMs(MsToSerial(v)) == v
  {
  }

  /** A whole serial lands on a UTC midnight, `n - 25569` days after the
      Unix epoch. */
  lemma WholeSerialIsMidnight(n: int)
    ensures SerialToMs(n as real) == ((n - 25569) * MsPerDay) as real
  {
    ExcelEpochIsCivil();
  }

  /** `parseDateToMs(v)`. The host `Date` parser behind the string branch is
      the parameter `parseDate` (it gets the trimmed `String(v)`, which for a
      boolean is "true" or "false"). */
  function ParseDateToMs(v: Cell, parseDate: string -> Option<real>): (r: Option<real>)
    ensures v == Null || v == Undefined || v == Str("") ==> r == None
    ensures v.Num? ==> r == Some(SerialToMs(v.n))
    ensures v.Str? && v.s != [] ==> r == parseDate(Trim(v.s))
    ensures v.Bool? ==> r == parseDate(if v.b then "true" else "false")
  {
    match v
    case Undefined => None
    case Null => None
    case Num(n) => Some(SerialToMs(n))
    case Bool(b) => parseDate(if b then "true" else "false")
    case Str(s) => if s == [] then None else parseDate(Trim(s))
  }

  /** Serial 45658 is the first of January 2025, midnight UTC. */
  lemma Serial45658(parseDate: string -> Option<real>)
    ensures ParseDateToMs(Num(45658.0), parseDate) == Some((DaysFromCivil(2025, 1, 1) * MsPerDay) as real)
    ensures ParseDateToMs(Num(45658.0), parseDate) == Some(1735689600000.0)
  {
    WholeSerialIsMidnight(45658);
    assert DaysFromCivil(2025, 1, 1) == 20089;
  }

  // -------------------------------------------------------------- day times

  /** `Math.round`: the nearest integer, halves rounded up. */
  function Round(x: real): (r: int)
    ensures r as real - 0.5 <= x < r as real + 0.5
  {
    (x + 0.5).Floor
  }

  /** Rounding picks the one integer in `[x - 1/2, x + 1/2)`. */
  lemma RoundUnique(x: real, k: int)
    requires k as real - 0.5 <= x < k as real + 0.5
    ensures Round(x) == k
  {
  }

  lemma RoundMonotone(x: real, y: real)
    requires x <= y
    ensures Round(x) <= Round(y)
  {
  }

  /** `parseTimeToMs(dateMs, timeVal)`; `dateMs` is `None` for null. The host
      parse of "<date> <time>" behind the string branch is `parseTime`. */
  function ParseTimeToMs(dateMs: Option<real>, t: Cell, parseTime: (real, string) -> Option<real>): (r: Option<real>)
    ensures dateMs.None? || dateMs == Some(0.0) ==> r == None
    ensures t == Null || t == Undefined || t == Str("") ==> r == None
    ensures dateMs.Some? && dateMs.value != 0.0 && t.Num? ==>
      && r.Some?
      && dateMs.value + t.n * MsPerDay as real - 0.5 <= r.value <= dateMs.value + t.n * MsPerDay as real + 0.5
      && r.value - dateMs.value == Round(t.n * MsPerDay as real) as real
    ensures dateMs.Some? && dateMs.value != 0.0 && t.Str? && t.s != [] ==>
      r == parseTime(dateMs.value, Trim(t.s))
  {
    if dateMs.None? || dateMs.value == 0.0 || t == Null || t == Undefined || t == Str("") then None
    else if t.Num? then Some(dateMs.value + Round(t.n * MsPerDay as real) as real)
    else parseTime(dateMs.value, Trim(ToString(t)))
  }

  /** A fraction that is a whole number of milliseconds decodes exactly:
      `k / 86400000` of a day is `k` ms after the date. */
  lemma WholeMsTimeExact(dateMs: real, k: int, parseTime: (real, string) -> Option<real>)
    requires dateMs != 0.0
    ensures ParseTimeToMs(Some(dateMs), Num(k as real / MsPerDay as real), parseTime) == Some(dateMs + k as real)
  {
    var f := k as real / MsPerDay as real;
    DayFractionBack(k);
    assert f * MsPerDay as real == k as real;
    RoundUnique(k as real, k);
    assert Round(f * MsPerDay as real) == k;
    var r := ParseTimeToMs(Some(dateMs), Num(f), parseTime);
    assert r.Some? && r.value - dateMs == k as real;
  }

  lemma DayFractionBack(k: int)
    ensures (k as real / MsPerDay as real) * MsPerDay as real == k as real
  {
  }

  /** Later fractions of the day never decode to earlier times. */
  lemma TimeMonotone(dateMs: real, f: real, g: real, parseTime: (real, string) -> Option<real>)
    requires dateMs != 0.0 && f <= g
    ensures ParseTimeToMs(Some(dateMs), Num(f), parseTime).value
         <= ParseTimeToMs(Some(dateMs), Num(g), parseTime).value
  {
    RoundMonotone(f * MsPerDay as real, g * MsPerDay as real);
  }

  // ------------------------------------------------------- sheet-name quoting

  /** `name.replace(/'/g, "''")`: every single quote doubled, as a quoted
      worksheet name in a range address requires. */
  function EscapeSheetName(s: string): (r: string)
    ensures |r| == |s| + QuoteCount(s)
    ensures (forall i :: 0 <= i < |s| ==> s[i] != '\'') ==> r == s
  {
    if s == [] then []
    else (if s[0] == '\'' then "''" else [s[0]]) + EscapeSheetName(s[1..])
  }

  function QuoteCount(s: string): nat {
    if s == [] then 0 else (if s[0] == '\'' then 1 else 0) + QuoteCount(s[1..])
  }

  /** Reading a doubled quote back as one (the partner of EscapeSheetName). */
  function CollapseQuotes(t: string): string
    decreases |t|
  {
    if t == [] then []
    else if |t| >= 2 && t[0] == '\'' && t[1] == '\'' then "'" + CollapseQuotes(t[2..])
    else [t[0]] + CollapseQuotes(t[1..])
  }

  /** One escaped character, collapsed, is that character again. */
  lemma CollapseStep(c: char, rest: string)
    ensures CollapseQuotes((if c == '\'' then "''" else [c]) + rest) == [c] + CollapseQuotes(rest)
  {
    var t := (if c == '\'' then "''" else [c]) + rest;
    if c == '\'' {
      assert t[2..] == rest;
    } else {
      assert t[1..] == rest;
    }
  }

  /** Doubling loses nothing: collapsing the doubled quotes recovers the name. */
  lemma {:induction false} EscapeSheetNameRoundTrip(s: string)
    ensures CollapseQuotes(EscapeSheetName(s)) == s
  {
    if s != [] {
      EscapeSheetNameRoundTrip(s[1..]);
      CollapseStep(s[0], EscapeSheetName(s[1..]));
      assert s == [s[0]] + s[1..];
    }
  }

  // -------------------------------------------------------------- row filter

  /** A cell the row filter treats as empty: `String(x || "").trim() === ""`. */
  predicate CellIsBlank(x: Cell) {
    Trim(ToString(OrEmpty(x))) == []
  }

  /** Blank means falsy or white space only, so `0` and `false` count as
      blank while `"0"`, `"false"` and `null`'s "null" would not (null is
      falsy, so it is blank too). */
  lemma CellIsBlankIff(x: Cell)
    ensures CellIsBlank(x) <==> Falsy(x) || (x.Str? && AllSpace(x.s))
  {
    if Falsy(x) {
      assert ToString(OrEmpty(x)) == [];
    } else {
      assert OrEmpty(x) == x;
      match x
      case Num(n) => NumToStringNotBlank(n);
      case Bool(b) => TrueNotBlank();
      case Str(s) => TrimEmptyIffAllSpace(s);
      case Null =>
      case Undefined =>
    }
  }

  lemma TrueNotBlank()
    ensures Trim("true") == "true"
  {
    assert !IsSpace("true"[0]) && !IsSpace("true"[3]);
    TrimNoop("true");
  }

  /** `r.some((x) => String(x || "").trim() !== "")`. */
  predicate KeepRow(r: Row) {
    exists i :: 0 <= i < |r| && !CellIsBlank(r[i])
  }

  /** The data rows the endpoint keeps, in their original order. */
  function FilterRows(rows: seq<Row>): (r: seq<Row>)
    ensures |r| <= |rows|
    ensures forall x :: x in r <==> x in rows && KeepRow(x)
  {
    if rows == [] then []
    else (if KeepRow(rows[0]) then [rows[0]] else []) + FilterRows(rows[1..])
  }

  /** The filter goes row by row: filtering a concatenation concatenates the
      filtered parts, so kept rows keep their relative order. */
  lemma {:induction false} FilterRowsAppend(a: seq<Row>, b: seq<Row>)
    ensures FilterRows(a + b) == FilterRows(a) + FilterRows(b)
  {
    if a == [] {
      assert a + b == b;
    } else {
      assert (a + b)[0] == a[0];
      assert (a + b)[1..] == a[1..] + b;
      FilterRowsAppend(a[1..], b);
    }
  }

  /** Filtering keeps everything when every row has content, and a second
      filter changes nothing. */
  lemma {:induction false} FilterRowsKeepsAll(rows: seq<Row>)
    requires forall i :: 0 <= i < |rows| ==> KeepRow(rows[i])
    ensures FilterRows(rows) == rows
  {
    if rows != [] {
      FilterRowsKeepsAll(rows[1..]);
    }
  }

  lemma FilterRowsIdempotent(rows: seq<Row>)
    ensures FilterRows(FilterRows(rows)) == FilterRows(rows)
  {
    var f := FilterRows(rows);
    assert forall i :: 0 <= i < |f| ==> f[i] in f;
    FilterRowsKeepsAll(f);
  }

  /** A row of zeros, `false`s, nulls and white space is dropped. */
  lemma BlankRowDropped(r: Row)
    requires forall i :: 0 <= i < |r| ==> Falsy(r[i]) || (r[i].Str? && AllSpace(r[i].s))
    ensures FilterRows([r]) == []
  {
    forall i | 0 <= i < |r| ensures CellIsBlank(r[i]) {
      CellIsBlankIff(r[i]);
    }
    assert !KeepRow(r);
    assert [r][1..] == [];
  }

  // ---------------------------------------------------------- column lookup

  /** `findIndex`: the first position whose header satisfies `p`, or -1. */
  function FindIndex(hs: seq<string>, p: string -> bool): (r: int)
    ensures -1 <= r < |hs|
    ensures r == -1 <==> forall i :: 0 <= i < |hs| ==> !p(hs[i])
    ensures r >= 0 ==> p(hs[r]) && forall i :: 0 <= i < r ==> !p(hs[i])
  {
    if hs == [] then -1
    else if p(hs[0]) then 0
    else
      var k := FindIndex(hs[1..], p);
      if k == -1 then -1 else k + 1
  }

  predicate IsDateHeader(h: string) { ToLower(h) == "date" }
  predicate IsStartHeader(h: string) { Contains(ToLower(h), "start") }
  predicate IsEndHeader(h: string) { Contains(ToLower(h), "end") }

  datatype Columns = Columns(date: int, start: int, end: int)

  /** The three key columns: the first header equal to "date" and the first
      headers containing "start" and "end", ignoring case; -1 when absent. */
  function FindColumns(headers: seq<string>): (c: Columns)
    ensures c.date == -1 <==> forall i :: 0 <= i < |headers| ==> !IsDateHeader(headers[i])
    ensures c.date >= 0 ==>
      c.date < |headers| && IsDateHeader(headers[c.date]) && forall i :: 0 <= i < c.date ==> !IsDateHeader(headers[i])
    ensures c.start == -1 <==> forall i :: 0 <= i < |headers| ==> !IsStartHeader(headers[i])
    ensures c.start >= 0 ==>
      c.start < |headers| && IsStartHeader(headers[c.start]) && forall i :: 0 <= i < c.start ==> !IsStartHeader(headers[i])
    ensures c.end == -1 <==> forall i :: 0 <= i < |headers| ==> !IsEndHeader(headers[i])
    ensures c.end >= 0 ==>
      c.end < |headers| && IsEndHeader(headers[c.end]) && forall i :: 0 <= i < c.end ==> !IsEndHeader(headers[i])
  {
    Columns(FindIndex(headers, IsDateHeader), FindIndex(headers, IsStartHeader),
            FindIndex(headers, IsEndHeader))
  }

  // ------------------------------------------------------------ ms alignment

  /** One entry of the `ms` array. */
  datatype RowMs = RowMs(dateMs: Option<real>, startMs: Option<real>, endMs: Option<real>)

  /** `col >= 0 ? r[col] : null`. */
  function Pick(r: Row, col: int): (c: Cell)
    ensures 0 <= col < |r| ==> c == r[col]
    ensures col < 0 ==> c == Null
    ensures col >= |r| ==> c == Undefined
  {
    if col >= 0 then At(r, col) else Null
  }

  function RowTimes(r: Row, cols: Columns, parseDate: string -> Option<real>,
                    parseTime: (real, string) -> Option<real>): (m: RowMs)
    ensures m.dateMs == ParseDateToMs(Pick(r, cols.date), parseDate)
    ensures m.dateMs.None? ==> m.startMs.None? && m.endMs.None?
    ensures cols.date < 0 || cols.date >= |r| ==> m == RowMs(None, None, None)
    ensures cols.start < 0 || cols.start >= |r| ==> m.startMs.None?
    ensures cols.end < 0 || cols.end >= |r| ==> m.endMs.None?
    ensures m.startMs == ParseTimeToMs(m.dateMs, Pick(r, cols.start), parseTime)
    ensures m.endMs == ParseTimeToMs(m.dateMs, Pick(r, cols.end), parseTime)
  {
    var dateMs := ParseDateToMs(Pick(r, cols.date), parseDate);
    RowMs(dateMs, ParseTimeToMs(dateMs, Pick(r, cols.start), parseTime),
          ParseTimeToMs(dateMs, Pick(r, cols.end), parseTime))
  }

  /** `rows.map(...)`: one entry per kept row, at the same index. */
  function MsOf(rows: seq<Row>, cols: Columns, parseDate: string -> Option<real>,
                parseTime: (real, string) -> Option<real>): (ms: seq<RowMs>)
    ensures |ms| == |rows|
    ensures forall i :: 0 <= i < |rows| ==> ms[i] == RowTimes(rows[i], cols, parseDate, parseTime)
  {
    seq(|rows|, i requires 0 <= i < |rows| => RowTimes(rows[i], cols, parseDate, parseTime))
  }

  /** Without a date column every entry of `ms` is all nulls. */
  lemma NoDateColumnNoTimes(rows: seq<Row>, cols: Columns, parseDate: string -> Option<real>,
                            parseTime: (real, string) -> Option<real>)
    requires cols.date == -1
    ensures forall m :: m in MsOf(rows, cols, parseDate, parseTime) ==> m == RowMs(None, None, None)
  {
    var ms := MsOf(rows, cols, parseDate, parseTime);
    forall m | m in ms ensures m == RowMs(None, None, None) {
      var i :| 0 <= i < |ms| && ms[i] == m;
    }
  }

  // ---------------------------------------------------------------- handler

  /** What the Graph used-range request yields: a thrown error, or the
      parsed `range` whose `values` may be missing (`None`). */
  datatype GraphReply = GraphFailed(err: JsError) | GraphOk(values: Option<seq<Row>>)

  datatype SheetBody =
    | SheetError(error: string)
    | Sheet(sheet: string, headers: seq<string>, rows: seq<Row>, ms: seq<RowMs>)

  datatype SheetResponse = SheetResponse(status: int, body: SheetBody)

  const FileIdVar: string := "MS_EXCEL_FILE_ID"
  const MissingFileIdMessage: string := "Missing environment variable: " + FileIdVar
  const MissingSheetMessage: string := "Missing query param: sheet"

  /** The body built from a non-empty used range. */
  function SheetOf(name: string, values: seq<Row>, parseDate: string -> Option<real>,
                   parseTime: (real, string) -> Option<real>): (b: SheetBody)
    requires values != []
    ensures b.Sheet? && b.sheet == name
    ensures b.headers == NormalizeHeaders(values[0])
    ensures b.rows == FilterRows(values[1..])
    ensures |b.ms| == |b.rows|
    ensures b.ms == MsOf(b.rows, FindColumns(b.headers), parseDate, parseTime)
  {
    var headers := NormalizeHeaders(values[0]);
    var rows := FilterRows(values[1..]);
    Sheet(name, headers, rows, MsOf(rows, FindColumns(headers), parseDate, parseTime))
  }

  /** The endpoint. `fileId` is the environment variable (`None` when unset),
      `sheetParam` the `sheet` query parameter, and `graph` the used-range
      request, given the file id and the quote-doubled sheet name. */
  function GetSheetData(fileId: Option<string>, sheetParam: Option<string>,
                        graph: (string, string) -> GraphReply,
                        parseDate: string -> Option<real>,
                        parseTime: (real, string) -> Option<real>): (r: SheetResponse)
    ensures r.status == 200 || r.status == 500
    ensures r.status == 500 <==> r.body.SheetError?
    ensures fileId.None? || fileId == Some([]) ==>
      r == SheetResponse(500, SheetError(MissingFileIdMessage))
    ensures fileId.Some? && fileId.value != [] && Trim(sheetParam.GetOr([])) == [] ==>
      r == SheetResponse(500, SheetError(MissingSheetMessage))
    ensures r.status == 200 <==>
      && fileId.Some? && fileId.value != [] && Trim(sheetParam.GetOr([])) != []
      && graph(fileId.value, EscapeSheetName(Trim(sheetParam.GetOr([])))).GraphOk?
    ensures fileId.Some? && fileId.value != [] && Trim(sheetParam.GetOr([])) != [] ==>
      var reply := graph(fileId.value, EscapeSheetName(Trim(sheetParam.GetOr([]))));
      && (reply.GraphFailed? ==> r.body == SheetError(ErrorText(reply.err)))
      && (reply.GraphOk? && reply.values.GetOr([]) == [] ==>
            r.body == Sheet(Trim(sheetParam.GetOr([])), [], [], []))
      && (reply.GraphOk? && reply.values.GetOr([]) != [] ==>
            r.body == SheetOf(Trim(sheetParam.GetOr([])), reply.values.value, parseDate, parseTime))
  {
    if fileId.None? || fileId.value == [] then SheetResponse(500, SheetError(MissingFileIdMessage))
    else
      var name := Trim(sheetParam.GetOr([]));
      if name == [] then SheetResponse(500, SheetError(MissingSheetMessage))
      else
        match graph(fileId.value, EscapeSheetName(name))
        case GraphFailed(e) => SheetResponse(500, SheetError(ErrorText(e)))
        case GraphOk(values) =>
          var vs := values.GetOr([]);
          if vs == [] then SheetResponse(200, Sheet(name, [], [], []))
          else SheetResponse(200, SheetOf(name, vs, parseDate, parseTime))
  }

  /** A successful reply is well formed: one `ms` entry per kept row, every
      kept row has content, and every header is trimmed. */
  lemma GetSheetDataShape(fileId: Option<string>, sheetParam: Option<string>,
                          graph: (string, string) -> GraphReply,
                          parseDate: string -> Option<real>,
                          parseTime: (real, string) -> Option<real>)
    ensures var r := GetSheetData(fileId, sheetParam, graph, parseDate, parseTime);
      r.status == 200 ==>
        && r.body.Sheet?
        && r.body.sheet != [] && r.body.sheet == Trim(r.body.sheet)
        && |r.body.ms| == |r.body.rows|
        && (forall x :: x in r.body.rows ==> KeepRow(x))
        && (forall h :: h in r.body.headers ==> h == Trim(h))
  {
    var r := GetSheetData(fileId, sheetParam, graph, parseDate, parseTime);
    if r.status == 200 {
      TrimIdempotent(sheetParam.GetOr([]));
      forall h | h in r.body.headers ensures h == Trim(h) {
        TrimNoop(h);
      }
    }
  }
}
