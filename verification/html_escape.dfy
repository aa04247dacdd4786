/** `escapeHtml` of js/app.js: the five HTML-special characters become
    character references, every other character is kept. */
module HtmlEscape {

  /** The replacement for one character. */
  function EscapeChar(c: char): (r: string)
    ensures c == '&' ==> r == "&amp;"
    ensures c == '<' ==> r == "&lt;"
    ensures c == '>' ==> r == "&gt;"
    ensures c == '"' ==> r == "&quot;"
    ensures c == '\'' ==> r == "&#39;"
    ensures c !in "&<>\"'" ==> r == [c]
  {
    match c
    case '&' => "&amp;"
    case '<' => "&lt;"
    case '>' => "&gt;"
    case '"' => "&quot;"
    case '\'' => "&#39;"
    case _ => [c]
  }

  /** The characters that never appear raw in an escaped string. */
  predicate Raw(c: char) {
    c == '<' || c == '>' || c == '"' || c == '\''
  }

  function EscapeHtml(s: string): (r: string)
    ensures forall i :: 0 <= i < |r| ==> !Raw(r[i])
    ensures |r| >= |s|
    ensures (forall i :: 0 <= i < |s| ==> s[i] !in "&<>\"'") ==> r == s
  {
    if s == [] then []
    else
      var head := EscapeChar(s[0]);
      assert forall i :: 0 <= i < |head| ==> !Raw(head[i]);
      head + EscapeHtml(s[1..])
  }

  /** `t` begins with one of the five character references. */
  predicate StartsReference(t: string) {
    || (|t| >= 5 && t[..5] == "&amp;")
    || (|t| >= 4 && t[..4] == "&lt;")
    || (|t| >= 4 && t[..4] == "&gt;")
    || (|t| >= 6 && t[..6] == "&quot;")
    || (|t| >= 5 && t[..5] == "&#39;")
  }

  /** Every '&' in the escaped text opens a character reference: a raw '&'
      of the input never survives. */
  lemma {:induction false} AmpersandsStartReferences(s: string)
    ensures forall i :: 0 <= i < |EscapeHtml(s)| && EscapeHtml(s)[i] == '&' ==>
      StartsReference(EscapeHtml(s)[i..])
  {
    if s != [] {
      AmpersandsStartReferences(s[1..]);
      var head := EscapeChar(s[0]);
      var tail := EscapeHtml(s[1..]);
      var r := EscapeHtml(s);
      assert r == head + tail;
      forall i | 0 <= i < |r| && r[i] == '&' ensures StartsReference(r[i..]) {
        if i < |head| {
          assert i == 0 && head[0] == '&';
          assert r[..|head|] == head;
          assert r[i..][..|head|] == head;
        } else {
          assert r[i..] == tail[i - |head|..];
          assert tail[i - |head|] == '&';
        }
      }
    }
  }

  /** Decoding the five references (the partner of EscapeHtml). */
  function UnescapeHtml(t: string): string {
    if t == [] then []
    else if t[0] == '&' && |t| >= 5 && t[..5] == "&amp;" then "&" + UnescapeHtml(t[5..])
    else if t[0] == '&' && |t| >= 4 && t[..4] == "&lt;" then "<" + UnescapeHtml(t[4..])
    else if t[0] == '&' && |t| >= 4 && t[..4] == "&gt;" then ">" + UnescapeHtml(t[4..])
    else if t[0] == '&' && |t| >= 6 && t[..6] == "&quot;" then "\"" + UnescapeHtml(t[6..])
    else if t[0] == '&' && |t| >= 5 && t[..5] == "&#39;" then "'" + UnescapeHtml(t[5..])
    else [t[0]] + UnescapeHtml(t[1..])
  }

  lemma UnescapeStep(c: char, rest: string)
    ensures UnescapeHtml(EscapeChar(c) + rest) == [c] + UnescapeHtml(rest)
  {
    var t := EscapeChar(c) + rest;
    var e := EscapeChar(c);
    assert t[..|e|] == e && t[|e|..] == rest;
    if c == '<' || c == '>' { assert t[1] != 'a'; }
    if c == '"' { assert t[1] != 'a' && t[1] != 'l' && t[1] != 'g'; }
    if c == '\'' { assert t[1] != 'a' && t[1] != 'l' && t[1] != 'g' && t[1] != 'q'; }
  }

  /** Escaping loses nothing: decoding the escaped text gives back the
      original string. */
  lemma {:induction false} EscapeRoundTrip(s: string)
    ensures UnescapeHtml(EscapeHtml(s)) == s
  {
    if s != [] {
      UnescapeStep(s[0], EscapeHtml(s[1..]));
      EscapeRoundTrip(s[1..]);
      assert s == [s[0]] + s[1..];
    }
  }
}
