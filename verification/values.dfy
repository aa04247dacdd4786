/** The JavaScript values that reach the dashboard's pure logic as spreadsheet
    cells, and the two coercions the code applies to them: `String(x)` and
    `Number(x)`. */
module JsValues {
  import opened Text

  /** One spreadsheet cell as JavaScript sees it. `Undefined` never comes out
      of JSON; it is what reading past the end of a short row yields. */
  datatype Cell = Undefined | Null | Bool(b: bool) | Num(n: real) | Str(s: string)

  /** The values `||` and `!` treat as false (JSON never produces NaN). */
  predicate Falsy(c: Cell) {
    c == Undefined || c == Null || c == Bool(false) || c == Num(0.0) || c == Str("")
  }

  /** `x || ""`. */
  function OrEmpty(c: Cell): (r: Cell)
    ensures Falsy(c) ==> r == Str("")
    ensures !Falsy(c) ==> r == c
  {
    if Falsy(c) then Str("") else c
  }

  /** `x ?? ""`. */
  function NullishOrEmpty(c: Cell): (r: Cell)
    ensures c == Undefined || c == Null ==> r == Str("")
    ensures c != Undefined && c != Null ==> r == c
  {
    if c == Undefined || c == Null then Str("") else c
  }

  /** The characters a number's rendering may use. */
  predicate IsNumberChar(c: char) {
    IsDigit(c) || c == '-' || c == '.'
  }

  lemma NumberCharNotSpace(c: char)
    requires IsNumberChar(c)
    ensures !IsSpace(c)
  {
  }

  /** Up to `k` decimals of a fraction `0 <= f < 1`, trailing zeros dropped. */
  function FractionDigits(f: real, k: nat): (r: string)
    requires 0.0 <= f < 1.0
    ensures |r| <= k && AllDigits(r)
    ensures f == 0.0 ==> r == []
    decreases k
  {
    if k == 0 || f == 0.0 then []
    else
      var d := (f * 10.0).Floor;
      [DigitChar(d)] + FractionDigits(f * 10.0 - d as real, k - 1)
  }

  /** The rendering of a non-negative number: whole part, then the decimals. */
  function UnsignedToString(a: real): (r: string)
    requires a >= 0.0
    ensures |r| > 0 && IsDigit(r[0]) && IsDigit(r[|r| - 1])
    ensures forall i :: 0 <= i < |r| ==> IsNumberChar(r[i])
  {
    var whole := a.Floor;
    var frac := FractionDigits(a - whole as real, 15);
    NatToString(whole) + (if frac == [] then [] else ['.'] + frac)
  }

  /** `String(x)` for a number: exact for integers; a fraction is written
      with at most 15 decimals. */
  function NumToString(x: real): (r: string)
    ensures |r| > 0 && !IsSpace(r[0]) && !IsSpace(r[|r| - 1])
    ensures forall i :: 0 <= i < |r| ==> IsNumberChar(r[i])
  {
    var r := if x < 0.0 then ['-'] + UnsignedToString(-x) else UnsignedToString(x);
    NumberCharNotSpace(r[0]);
    NumberCharNotSpace(r[|r| - 1]);
    r
  }

  /** Whole numbers below 10^21 in magnitude render as plain decimal
      digits, as `String(i)` writes them (from 10^21 on JavaScript switches
      to exponent form). */
  lemma NumToStringInteger(i: int)
    requires -1_000_000_000_000_000_000_000 < i < 1_000_000_000_000_000_000_000
    ensures NumToString(i as real) == IntToString(i)
  {
    if i < 0 {
      assert (-(i as real)).Floor == -i;
    } else {
      assert (i as real).Floor == i;
    }
  }

  /** `String(x)`: only the empty string renders as "". */
  function ToString(c: Cell): (r: string)
    ensures r == [] <==> c == Str("")
    ensures c.Str? ==> r == c.s
    ensures c.Num? ==> r == NumToString(c.n)
  {
    match c
    case Undefined => "undefined"
    case Null => "null"
    case Bool(b) => if b then "true" else "false"
    case Num(n) => NumToString(n)
    case Str(s) => s
  }

  /** A number's rendering is never blank and never padded. */
  lemma NumToStringNotBlank(x: real)
    ensures Trim(NumToString(x)) == NumToString(x) != []
  {
    TrimNoop(NumToString(x));
  }

  /** Digits with at most one `.`, at least one of them a digit. */
  predicate UnsignedLiteral(u: string) {
    && (forall i :: 0 <= i < |u| ==> IsDigit(u[i]) || u[i] == '.')
    && (exists i :: 0 <= i < |u| && IsDigit(u[i]))
    && (forall i, j :: 0 <= i < j < |u| && u[i] == '.' ==> u[j] != '.')
  }

  /** The grammar of the numeric strings the model accepts: an optional
      sign, then an unsigned literal. */
  predicate DecimalLiteral(t: string) {
    UnsignedLiteral(if |t| > 0 && (t[0] == '+' || t[0] == '-') then t[1..] else t)
  }

  function Pow10(k: nat): (r: nat)
    ensures r >= 1
  {
    if k == 0 then 1 else 10 * Pow10(k - 1)
  }

  /** An unsigned decimal: digits, optionally a `.` and more digits. */
  function ParseUnsigned(u: string): Option<real> {
    var dot := IndexOf(u, '.');
    if dot == -1 then
      if |u| > 0 && AllDigits(u) then Some(DigitsValue(u) as real) else None
    else
      var whole := u[..dot];
      var frac := u[dot + 1..];
      if AllDigits(whole) && AllDigits(frac) && |whole| + |frac| > 0
      then Some(DigitsValue(whole) as real + DigitsValue(frac) as real / Pow10(|frac|) as real)
      else None
  }

  /** `Number(s)` for a string: blank text is 0, a decimal literal is its
      value, anything else is NaN (`None`). */
  function NumberOfString(s: string): (r: Option<real>)
    ensures Trim(s) == [] ==> r == Some(0.0)
  {
    var t := Trim(s);
    if t == [] then Some(0.0)
    else if t[0] == '-' then
      match ParseUnsigned(t[1..])
      case Some(v) => Some(-v)
      case None => None
    else if t[0] == '+' then ParseUnsigned(t[1..])
    else ParseUnsigned(t)
  }

  lemma ParseUnsignedSound(u: string)
    requires ParseUnsigned(u).Some?
    ensures UnsignedLiteral(u)
  {
    var dot := IndexOf(u, '.');
    if dot == -1 {
      assert IsDigit(u[0]);
    } else {
      var whole := u[..dot];
      var frac := u[dot + 1..];
      if |whole| > 0 { assert u[0] == whole[0]; } else { assert u[dot + 1] == frac[0]; }
      forall i | 0 <= i < |u| && i != dot ensures IsDigit(u[i]) {
        if i < dot { assert u[i] == whole[i]; } else { assert u[i] == frac[i - dot - 1]; }
      }
    }
  }

  lemma ParseUnsignedComplete(u: string)
    requires UnsignedLiteral(u)
    ensures ParseUnsigned(u).Some?
  {
    var dot := IndexOf(u, '.');
    var k :| 0 <= k < |u| && IsDigit(u[k]);
    if dot == -1 {
      assert AllDigits(u) by {
        forall i | 0 <= i < |u| ensures IsDigit(u[i]) { assert u[i] in u; }
      }
    } else {
      var whole := u[..dot];
      var frac := u[dot + 1..];
      assert AllDigits(whole) by {
        forall i | 0 <= i < |whole| ensures IsDigit(whole[i]) { assert whole[i] in whole; }
      }
      assert AllDigits(frac) by {
        forall i | 0 <= i < |frac| ensures IsDigit(frac[i]) { assert frac[i] == u[dot + 1 + i]; }
      }
      assert k != dot;
    }
  }

  /** `Number(s)` succeeds exactly on blank text and decimal literals. */
  lemma NumberOfStringGrammar(s: string)
    ensures NumberOfString(s).Some? <==> (Trim(s) == [] || DecimalLiteral(Trim(s)))
  {
    var t := Trim(s);
    if t != [] {
      var u := if t[0] == '-' || t[0] == '+' then t[1..] else t;
      if ParseUnsigned(u).Some? { ParseUnsignedSound(u); }
      if UnsignedLiteral(u) { ParseUnsignedComplete(u); }
    }
  }

  /** Digits are never white space. */
  lemma DigitsTrimmed(s: string)
    requires |s| > 0 && AllDigits(s)
    ensures Trim(s) == s
  {
    assert IsDigit(s[0]) && IsDigit(s[|s| - 1]);
    TrimNoop(s);
  }

  lemma ParseUnsignedDigits(s: string)
    requires |s| > 0 && AllDigits(s)
    ensures ParseUnsigned(s) == Some(DigitsValue(s) as real)
  {
    forall i | 0 <= i < |s| ensures s[i] != '.' {
      assert IsDigit(s[i]);
    }
    assert IndexOf(s, '.') == -1;
  }

  /** A digit string reads back as its decimal value. */
  lemma NumberOfDigits(s: string)
    requires |s| > 0 && AllDigits(s)
    ensures NumberOfString(s) == Some(DigitsValue(s) as real)
  {
    DigitsTrimmed(s);
    assert IsDigit(s[0]);
    ParseUnsignedDigits(s);
  }

  /** The decimal rendering of a whole number reads back as that number. */
  lemma NumberOfNatString(n: nat)
    ensures NumberOfString(NatToString(n)) == Some(n as real)
  {
    NatToStringRoundTrip(n);
    NumberOfDigits(NatToString(n));
  }

  /** `Number(x)`; `None` stands for NaN. */
  function NumberOf(c: Cell): (r: Option<real>)
    ensures c == Null ==> r == Some(0.0)
    ensures c == Undefined ==> r == None
    ensures c.Bool? ==> r == Some(if c.b then 1.0 else 0.0)
    ensures c.Num? ==> r == Some(c.n)
    ensures c.Str? && r.Some? ==> Trim(c.s) == [] || DecimalLiteral(Trim(c.s))
  {
    match c
    case Undefined => None
    case Null => Some(0.0)
    case Bool(b) => Some(if b then 1.0 else 0.0)
    case Num(n) => Some(n)
    case Str(s) => NumberOfStringGrammar(s); NumberOfString(s)
  }

  /** `row[i]`: `Undefined` outside the row. */
  function At(row: seq<Cell>, i: int): (r: Cell)
    ensures 0 <= i < |row| ==> r == row[i]
    ensures !(0 <= i < |row|) ==> r == Undefined
  {
    if 0 <= i < |row| then row[i] else Undefined
  }

  /** A thrown `Error`: its `name` and `message`. */
  datatype JsError = JsError(name: string, message: string)

  /** `err.message || String(err)`: the message, and when it is empty the
      error's string form, which is then just its name. */
  function ErrorText(e: JsError): (r: string)
    ensures e.message != [] ==> r == e.message
    ensures e.message == [] ==> r == e.name
  {
    if e.message != [] then e.message else e.name
  }
}
