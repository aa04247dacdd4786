/** The time-zone labels of js/app.js: `gmtOffsetAbbr`, which writes a UTC
    offset as "GMT+H" or "GMT+H:MM", and `tzCombinedLabel`. */
module Timezone {
  import opened Text

  function Abs(x: int): nat { if x < 0 then -x else x }

  /** `String(m).padStart(2, "0")` for minutes. */
  function Pad2(m: nat): (r: string)
    requires m < 60
    ensures |r| == 2 && AllDigits(r) && DigitsValue(r) == m
  {
    NatToStringRoundTrip(m);
    if m < 10 then
      var r := ['0'] + NatToString(m);
      assert r[..1] == "0";
      r
    else NatToString(m)
  }

  /** The text after the sign: the hours, then ":MM" unless the minutes
      are 0. */
  function HoursMinutesText(h: nat, m: nat): (r: string)
    requires m < 60
    ensures |r| > 0
    ensures ':' in r <==> m != 0
    ensures m != 0 ==> |r| >= 4 && r[|r| - 3] == ':'
    ensures |r| == |NatToString(h)| + (if m != 0 then 3 else 0)
    ensures r[..|NatToString(h)|] == NatToString(h)
    ensures m != 0 ==> r[|r| - 2..] == Pad2(m)
  {
    var hh := NatToString(h);
    var mm := if m != 0 then [':'] + Pad2(m) else [];
    assert ':' !in hh by {
      assert forall i :: 0 <= i < |hh| ==> hh[i] != ':';
    }
    assert ':' in hh + mm <==> ':' in mm;
    assert (hh + mm)[..|hh|] == hh;
    hh + mm
  }

  /** The hours-and-minutes text behind a four-character prefix: the
      prefix stays in front and the length grows by four. */
  lemma LabelHead(p: string, h: nat, m: nat)
    requires |p| == 4 && m < 60
    ensures (p + HoursMinutesText(h, m))[..3] == p[..3] && (p + HoursMinutesText(h, m))[3] == p[3]
    ensures |p + HoursMinutesText(h, m)| == 4 + |NatToString(h)| + (if m != 0 then 3 else 0)
  {
    AfterPrefix(p, HoursMinutesText(h, m), 0);
  }

  /** Behind a prefix without a colon, the label holds a colon exactly when
      the minutes are not 0, and then three characters from the end. */
  lemma LabelColon(p: string, h: nat, m: nat)
    requires |p| == 4 && ':' !in p && m < 60
    ensures ':' in p + HoursMinutesText(h, m) <==> m != 0
    ensures m != 0 ==> (p + HoursMinutesText(h, m))[|p| + |HoursMinutesText(h, m)| - 3] == ':'
  {
    AfterPrefix(p, HoursMinutesText(h, m), 0);
  }

  /** Behind a four-character prefix, the hour digits follow the prefix and
      the two minute digits end the label. */
  lemma LabelDigits(p: string, h: nat, m: nat)
    requires |p| == 4 && m < 60
    ensures (p + HoursMinutesText(h, m))[4..4 + |NatToString(h)|] == NatToString(h)
    ensures m != 0 ==> (p + HoursMinutesText(h, m))[|p| + |HoursMinutesText(h, m)| - 2..] == Pad2(m)
  {
    AfterPrefix(p, HoursMinutesText(h, m), |NatToString(h)|);
  }

  /** Where the characters of `u` sit once a four-character prefix is put
      in front of it. */
  lemma AfterPrefix(p: string, u: string, k: nat)
    requires |p| == 4 && k <= |u|
    ensures (p + u)[..3] == p[..3] && (p + u)[3] == p[3]
    ensures (p + u)[4..4 + k] == u[..k]
    ensures |u| >= 3 ==> (p + u)[|p + u| - 3] == u[|u| - 3]
    ensures |u| >= 2 ==> (p + u)[|p + u| - 2..] == u[|u| - 2..]
  {
    assert (p + u)[4..] == u;
  }

  /** `gmtOffsetAbbr` for an offset of `offMin` minutes east of UTC (the
      negation of `Date.prototype.getTimezoneOffset`). The hours are written
      unpadded, the minutes (when not 0) as two digits after a colon. */
  function GmtOffsetAbbr(offMin: int): (r: string)
    ensures |r| >= 5 && r[..3] == "GMT"
    ensures r[3] == '+' <==> offMin >= 0
    ensures r[3] == '+' || r[3] == '-'
    ensures ':' in r <==> Abs(offMin) % 60 != 0
    ensures Abs(offMin) % 60 != 0 ==> r[|r| - 3] == ':'
  {
    var a := Abs(offMin);
    var sign := if offMin >= 0 then '+' else '-';
    var p := "GMT" + [sign];
    assert p[..3] == "GMT" && p[3] == sign;
    assert ':' !in p by {
      assert p == ['G', 'M', 'T', sign];
    }
    LabelHead(p, a / 60, a % 60);
    LabelColon(p, a / 60, a % 60);
    p + HoursMinutesText(a / 60, a % 60)
  }

  /** The digits of `gmtOffsetAbbr`: the whole hours unpadded right after
      the sign, and the remaining minutes, when not 0, as the last two
      characters. */
  lemma GmtOffsetAbbrDigits(offMin: int)
    ensures var r := GmtOffsetAbbr(offMin); var h := Abs(offMin) / 60; var m := Abs(offMin) % 60;
      && |r| == 4 + |NatToString(h)| + (if m != 0 then 3 else 0)
      && r[4..4 + |NatToString(h)|] == NatToString(h)
      && (m != 0 ==> r[|r| - 2..] == Pad2(m))
  {
    var a := Abs(offMin);
    var p := "GMT" + [if offMin >= 0 then '+' else '-'];
    LabelHead(p, a / 60, a % 60);
    LabelDigits(p, a / 60, a % 60);
  }

  /** The value of hour digits `hs` and, after a colon, two minute digits. */
  function ParseParts(hs: string, ms: string, hasColon: bool): Option<nat> {
    if |hs| == 0 || !AllDigits(hs) || !AllDigits(ms) || (hasColon && |ms| != 2) then None
    else Some(DigitsValue(hs) * 60 + DigitsValue(ms))
  }

  /** Reads "H" or "H:MM" back to minutes. */
  function ParseHoursMinutes(u: string): Option<nat> {
    var colon := IndexOf(u, ':');
    if colon == -1 then ParseParts(u, "", false)
    else ParseParts(u[..colon], u[colon + 1..], true)
  }

  /** Reads a "GMT±H[:MM]" label back to minutes east of UTC. */
  function ParseGmtOffset(s: string): Option<int> {
    if |s| < 5 || s[..3] != "GMT" || (s[3] != '+' && s[3] != '-') then None
    else
      match ParseHoursMinutes(s[4..])
      case None => None
      case Some(mag) => Some(if s[3] == '-' then -(mag as int) else mag as int)
  }

  lemma ParseHoursOnly(hs: string)
    requires |hs| > 0 && AllDigits(hs)
    ensures ParseHoursMinutes(hs) == Some(DigitsValue(hs) * 60)
  {
    assert forall i :: 0 <= i < |hs| ==> hs[i] != ':';
    assert IndexOf(hs, ':') == -1;
    assert DigitsValue("") == 0;
  }

  /** Digits contain no colon. */
  lemma NoColonInDigits(hs: string)
    requires AllDigits(hs)
    ensures ':' !in hs
  {
    forall i | 0 <= i < |hs| ensures hs[i] != ':' {
      assert IsDigit(hs[i]);
    }
  }

  /** "H:MM" splits at its first colon into the hours and the minutes. */
  lemma SplitAtColon(hs: string, ms: string)
    requires ':' !in hs
    ensures var u := hs + [':'] + ms;
      IndexOf(u, ':') == |hs| && u[..|hs|] == hs && u[|hs| + 1..] == ms
  {
    var u := hs + [':'] + ms;
    assert u[..|hs|] == hs && u[|hs| + 1..] == ms && u[|hs|] == ':';
    IndexOfAt(u, ':', |hs|);
  }

  lemma ParseSplit(hs: string, ms: string)
    requires ':' !in hs
    ensures ParseHoursMinutes(hs + [':'] + ms) == ParseParts(hs, ms, true)
  {
    SplitAtColon(hs, ms);
  }

  lemma PartsValue(hs: string, ms: string)
    requires |hs| > 0 && AllDigits(hs) && AllDigits(ms) && |ms| == 2
    ensures ParseParts(hs, ms, true) == Some(DigitsValue(hs) * 60 + DigitsValue(ms))
  {
  }

  lemma ParseHoursAndMinutes(hs: string, ms: string)
    requires |hs| > 0 && AllDigits(hs) && AllDigits(ms) && |ms| == 2
    ensures ParseHoursMinutes(hs + [':'] + ms) == Some(DigitsValue(hs) * 60 + DigitsValue(ms))
  {
    NoColonInDigits(hs);
    ParseSplit(hs, ms);
    PartsValue(hs, ms);
  }

  lemma ParseHeader(sign: char, u: string)
    requires sign == '+' || sign == '-'
    requires |u| > 0
    ensures ParseGmtOffset("GMT" + [sign] + u) ==
      match ParseHoursMinutes(u)
      case None => None
      case Some(mag) => Some(if sign == '-' then -(mag as int) else mag as int)
  {
    var s := "GMT" + [sign] + u;
    assert s[..3] == "GMT" && s[3] == sign && s[4..] == u;
  }

  lemma WholeHoursRoundTrip(h: nat)
    ensures ParseHoursMinutes(HoursMinutesText(h, 0)) == Some(h * 60)
  {
    var hh := NatToString(h);
    NatToStringRoundTrip(h);
    assert HoursMinutesText(h, 0) == hh;
    ParseHoursOnly(hh);
  }

  lemma HoursAndMinutesRoundTrip(h: nat, m: nat)
    requires 0 < m < 60
    ensures ParseHoursMinutes(HoursMinutesText(h, m)) == Some(h * 60 + m)
  {
    var hh := NatToString(h);
    var ms := Pad2(m);
    NatToStringRoundTrip(h);
    assert HoursMinutesText(h, m) == hh + [':'] + ms;
    ParseHoursAndMinutes(hh, ms);
  }

  /** The text after the sign reads back as `h * 60 + m` minutes. */
  lemma HoursMinutesRoundTrip(h: nat, m: nat)
    requires m < 60
    ensures ParseHoursMinutes(HoursMinutesText(h, m)) == Some(h * 60 + m)
  {
    if m == 0 {
      WholeHoursRoundTrip(h);
    } else {
      HoursAndMinutesRoundTrip(h, m);
    }
  }

  /** A label built from a sign, hours and minutes reads back as the signed
      number of minutes. */
  lemma LabelRoundTrip(sign: char, h: nat, m: nat)
    requires sign == '+' || sign == '-'
    requires m < 60
    ensures ParseGmtOffset("GMT" + [sign] + HoursMinutesText(h, m)) ==
      Some(if sign == '-' then -(h * 60 + m) else h * 60 + m)
  {
    HoursMinutesRoundTrip(h, m);
    ParseHeader(sign, HoursMinutesText(h, m));
  }

  /** The label is "GMT", the sign, and the hours-and-minutes text. */
  lemma GmtOffsetAbbrShape(offMin: int)
    ensures GmtOffsetAbbr(offMin) ==
      "GMT" + [if offMin >= 0 then '+' else '-'] + HoursMinutesText(Abs(offMin) / 60, Abs(offMin) % 60)
  {
  }

  /** The signed offset is recovered from its sign, hours and minutes. */
  lemma OffsetFromParts(offMin: int)
    ensures var h, m := Abs(offMin) / 60, Abs(offMin) % 60;
      offMin == if offMin >= 0 then h * 60 + m else -(h * 60 + m)
  {
    assert (Abs(offMin) / 60) * 60 + Abs(offMin) % 60 == Abs(offMin);
  }

  /** The label's parts read back as the offset they were built from. */
  lemma PartsRoundTrip(offMin: int)
    ensures ParseGmtOffset("GMT" + [if offMin >= 0 then '+' else '-'] +
                           HoursMinutesText(Abs(offMin) / 60, Abs(offMin) % 60)) == Some(offMin)
  {
    var sign := if offMin >= 0 then '+' else '-';
    var h, m := Abs(offMin) / 60, Abs(offMin) % 60;
    var v := if sign == '-' then -(h * 60 + m) else h * 60 + m;
    LabelRoundTrip(sign, h, m);
    assert ParseGmtOffset("GMT" + [sign] + HoursMinutesText(h, m)) == Some(v);
    OffsetFromParts(offMin);
    assert v == offMin;
  }

  /** The label carries the whole offset: hours `|off| div 60`, minutes
      `|off| mod 60` and the sign all read back. */
  lemma GmtOffsetRoundTrip(offMin: int)
    ensures ParseGmtOffset(GmtOffsetAbbr(offMin)) == Some(offMin)
  {
    GmtOffsetAbbrShape(offMin);
    PartsRoundTrip(offMin);
  }

  datatype TzInfo = TzInfo(abbr: string, iana: string)

  /** `tzCombinedLabel`: "ABBR (Area/City)" when both parts are known,
      otherwise whichever part is known, and "" when neither is (or there
      is no time-zone info at all). */
  function TzCombinedLabel(info: Option<TzInfo>): (r: string)
    ensures r == [] <==> info.None? || (info.value.abbr == [] && info.value.iana == [])
    ensures info.Some? && info.value.abbr != [] ==> StartsWith(r, info.value.abbr)
    ensures info.Some? && info.value.abbr != [] && info.value.iana != [] ==>
      r == info.value.abbr + " (" + info.value.iana + ")"
    ensures info.Some? && (info.value.abbr == [] || info.value.iana == []) ==>
      r == info.value.abbr + info.value.iana
  {
    match info
    case None => ""
    case Some(TzInfo(abbr, iana)) =>
      if abbr != [] && iana != [] then abbr + " (" + iana + ")"
      else if abbr != [] then abbr
      else iana
  }

  /** Reads a combined label back: the text before " (" and the text inside
      the closing parenthesis, or the whole label as the abbreviation when
      it has no such part. */
  function SplitCombined(shown: string): TzInfo {
    var i := IndexOf(shown, '(');
    if 1 <= i && shown[i - 1] == ' ' && i + 2 <= |shown| && shown[|shown| - 1] == ')'
    then TzInfo(shown[..i - 1], shown[i + 1..|shown| - 1])
    else TzInfo(shown, "")
  }

  /** With both parts known and no '(' in the abbreviation, the combined
      label splits back into its two parts. */
  lemma CombinedLabelSplits(abbr: string, iana: string)
    requires abbr != [] && iana != [] && '(' !in abbr
    ensures SplitCombined(TzCombinedLabel(Some(TzInfo(abbr, iana)))) == TzInfo(abbr, iana)
  {
    var n := |abbr|;
    var r := abbr + " (" + iana + ")";
    assert |r| == n + |iana| + 3 && r[n] == ' ' && r[n + 1] == '(' && r[|r| - 1] == ')';
    assert r[..n + 1] == abbr + " ";
    IndexOfAt(r, '(', n + 1);
    assert r[..n] == abbr;
    assert r[n + 2..|r| - 1] == iana;
  }

  /** With only the abbreviation known and no '(' in it, the label reads
      back as that abbreviation alone. */
  lemma AbbrOnlySplits(abbr: string)
    requires '(' !in abbr
    ensures SplitCombined(TzCombinedLabel(Some(TzInfo(abbr, "")))) == TzInfo(abbr, "")
  {
  }
}
