/** The row ordering of the table view (`renderTable` in js/app.js): a
    comparator that mixes numeric and case-insensitive text comparison, and
    the sort that `Array.prototype.sort` performs with it, modelled by an
    insertion sort. */
module TableSort {
  import opened Text
  import opened JsValues
  import StableSort

  datatype Dir = Asc | Desc

  type Row = seq<Cell>

  /** A value the comparator treats as a number: `Number(v)` is not NaN and
      `String(v).trim()` is not empty. Note that `null` qualifies, as 0. */
  predicate NumericKey(c: Cell) {
    NumberOf(c).Some? && Trim(ToString(c)) != []
  }

  /** `String(v ?? "").toLowerCase()`, the text the comparator falls back on. */
  function SortText(c: Cell): string {
    ToLower(ToString(NullishOrEmpty(c)))
  }

  /** The comparator before the direction is applied: the numeric difference
      when both values are numeric keys, otherwise -1, 0 or 1 from the
      order of their lower-cased text. */
  function CompareCells(va: Cell, vb: Cell): (r: real)
    ensures NumericKey(va) && NumericKey(vb) ==>
      && (r < 0.0 <==> NumberOf(va).value < NumberOf(vb).value)
      && (r == 0.0 <==> NumberOf(va).value == NumberOf(vb).value)
      && r == NumberOf(va).value - NumberOf(vb).value
    ensures !(NumericKey(va) && NumericKey(vb)) ==>
      && (r == -1.0 || r == 0.0 || r == 1.0)
      && (r < 0.0 <==> LexLess(SortText(va), SortText(vb)))
      && (r > 0.0 <==> LexLess(SortText(vb), SortText(va)))
  {
    LexLessAsymmetric(SortText(va), SortText(vb));
    if NumericKey(va) && NumericKey(vb) then NumberOf(va).value - NumberOf(vb).value
    else if LexLess(SortText(va), SortText(vb)) then -1.0
    else if LexLess(SortText(vb), SortText(va)) then 1.0
    else 0.0
  }

  /** The comparator handed to `rows.sort`, on the sort column `col`:
      ascending compares `a`'s cell with `b`'s, descending compares them the
      other way round. */
  function Compare(a: Row, b: Row, col: int, dir: Dir): (r: real)
    ensures dir == Asc ==> r == CompareCells(At(a, col), At(b, col))
    ensures dir == Desc ==> r == CompareCells(At(b, col), At(a, col))
  {
    LexLessAsymmetric(SortText(At(a, col)), SortText(At(b, col)));
    var c := CompareCells(At(a, col), At(b, col));
    if dir == Asc then c else -c
  }

  /** `a` may stay in front of `b`: the comparator does not ask to swap them. */
  predicate Le(a: Row, b: Row, col: int, dir: Dir) {
    Compare(a, b, col, dir) <= 0.0
  }

  /** The comparator is antisymmetric in both directions, and descending is
      exactly the negation of ascending. */
  lemma CompareAntisymmetric(a: Row, b: Row, col: int)
    ensures Compare(a, b, col, Asc) == -Compare(b, a, col, Asc)
    ensures Compare(a, b, col, Desc) == -Compare(b, a, col, Desc)
    ensures Compare(a, b, col, Desc) == -Compare(a, b, col, Asc)
  {
    LexLessAsymmetric(SortText(At(a, col)), SortText(At(b, col)));
  }

  /** Any two rows can be placed one way or the other. */
  lemma LeTotal(a: Row, b: Row, col: int, dir: Dir)
    ensures Le(a, b, col, dir) || Le(b, a, col, dir)
  {
    CompareAntisymmetric(a, b, col);
  }

  /** The order `rows.sort(comparator)` produces on sort column `col`. */
  function SortRows(rows: seq<Row>, col: int, dir: Dir): (r: seq<Row>)
    ensures multiset(r) == multiset(rows)
    ensures |r| == |rows|
  {
    StableSort.Sort(rows, (a, b) => Le(a, b, col, dir))
  }

  predicate Sorted(s: seq<Row>, col: int, dir: Dir) {
    StableSort.Sorted(s, (a, b) => Le(a, b, col, dir))
  }

  /** The comparator behaves as an order on the rows of `pool`. */
  ghost predicate TransitiveOn(pool: seq<Row>, col: int, dir: Dir) {
    forall a, b, c :: a in pool && b in pool && c in pool && Le(a, b, col, dir) && Le(b, c, col, dir)
      ==> Le(a, c, col, dir)
  }

  /** Whenever the comparator is transitive on the rows, the sort yields
      rows in comparator order. */
  lemma SortRowsSorted(rows: seq<Row>, col: int, dir: Dir)
    requires TransitiveOn(rows, col, dir)
    ensures Sorted(SortRows(rows, col, dir), col, dir)
  {
    var le := (a, b) => Le(a, b, col, dir);
    forall a, b | a in rows && b in rows ensures le(a, b) || le(b, a) { LeTotal(a, b, col, dir); }
    StableSort.SortSorted(rows, le);
  }

  /** Every sort-column value is a numeric key. */
  predicate AllNumeric(rows: seq<Row>, col: int) {
    forall r :: r in rows ==> NumericKey(At(r, col))
  }

  /** No sort-column value is a numeric key. */
  predicate AllText(rows: seq<Row>, col: int) {
    forall r :: r in rows ==> !NumericKey(At(r, col))
  }

  /** On an all-numeric or all-text column the comparator is transitive. */
  lemma HomogeneousTransitive(rows: seq<Row>, col: int, dir: Dir)
    requires AllNumeric(rows, col) || AllText(rows, col)
    ensures TransitiveOn(rows, col, dir)
  {
    forall a, b, c | a in rows && b in rows && c in rows && Le(a, b, col, dir) && Le(b, c, col, dir)
      ensures Le(a, c, col, dir)
    {
      if AllText(rows, col) {
        var ta, tb, tc := SortText(At(a, col)), SortText(At(b, col)), SortText(At(c, col));
        if dir == Asc {
          LexLeTransitive(ta, tb, tc);
        } else {
          LexLeTransitive(tc, tb, ta);
        }
      }
    }
  }

  /** Sorting an all-numeric or all-text column yields comparator order. */
  lemma SortHomogeneousSorted(rows: seq<Row>, col: int, dir: Dir)
    requires AllNumeric(rows, col) || AllText(rows, col)
    ensures Sorted(SortRows(rows, col, dir), col, dir)
  {
    HomogeneousTransitive(rows, col, dir);
    SortRowsSorted(rows, col, dir);
  }

  lemma SmallNumbers()
    ensures NumberOf(Str("2")) == Some(2.0) && NumericKey(Str("2"))
    ensures NumberOf(Str("10")) == Some(10.0) && NumericKey(Str("10"))
  {
    assert NatToString(2) == "2";
    assert NatToString(10) == "10" by { assert NatToString(1) == "1"; }
    NumberOfNatString(2);
    NumberOfNatString(10);
  }

  lemma OneANotDecimal()
    ensures ParseUnsigned("1a") == None
  {
    assert "1a"[0] != '.' && "1a"[1] != '.';
    assert IndexOf("1a", '.') == -1;
    assert !IsDigit("1a"[1]);
  }

  lemma OneANotNumber()
    ensures NumberOfString("1a") == None
  {
    TrimNoop("1a");
    var t := Trim("1a");
    assert t == "1a" && t[0] == '1';
    OneANotDecimal();
  }

  lemma OneANotNumeric()
    ensures !NumericKey(Str("1a"))
  {
    OneANotNumber();
    assert NumberOf(Str("1a")) == None;
  }

  lemma LowerNoop(s: string)
    requires forall i :: 0 <= i < |s| ==> !('A' <= s[i] <= 'Z')
    ensures ToLower(s) == s
  {
  }

  lemma SmallTexts()
    ensures SortText(Str("2")) == "2" && SortText(Str("10")) == "10" && SortText(Str("1a")) == "1a"
    ensures LexLess("10", "1a") && LexLess("1a", "2")
  {
    LowerNoop("2");
    LowerNoop("10");
    LowerNoop("1a");
    assert "10"[1..] == "0" && "1a"[1..] == "a";
  }

  lemma TwoBeforeTen(a: Cell, b: Cell)
    requires a == Str("2") && b == Str("10")
    ensures CompareCells(a, b) < 0.0
  {
    SmallNumbers();
  }

  lemma TenBeforeOneA(a: Cell, b: Cell)
    requires a == Str("10") && b == Str("1a")
    ensures CompareCells(a, b) < 0.0
  {
    OneANotNumeric();
    SmallTexts();
  }

  lemma OneABeforeTwo(a: Cell, b: Cell)
    requires a == Str("2") && b == Str("1a")
    ensures CompareCells(a, b) > 0.0
  {
    OneANotNumeric();
    SmallTexts();
  }

  lemma NotTransitive(pool: seq<Row>, a: Row, b: Row, c: Row, col: int, dir: Dir)
    requires a in pool && b in pool && c in pool
    requires Le(a, b, col, dir) && Le(b, c, col, dir) && !Le(a, c, col, dir)
    ensures !TransitiveOn(pool, col, dir)
  {
  }

  /** On a mixed column the comparator is not transitive: "2" precedes "10"
      numerically, "10" precedes "1a" and "1a" precedes "2" as text. */
  lemma MixedColumnNotTransitive()
    ensures !TransitiveOn([[Str("2")], [Str("10")], [Str("1a")]], 0, Asc)
  {
    var two, ten, oneA := [Str("2")], [Str("10")], [Str("1a")];
    var pool := [two, ten, oneA];
    TwoBeforeTen(At(two, 0), At(ten, 0));
    TenBeforeOneA(At(ten, 0), At(oneA, 0));
    OneABeforeTwo(At(two, 0), At(oneA, 0));
    NotTransitive(pool, two, ten, oneA, 0, Asc);
  }
}
