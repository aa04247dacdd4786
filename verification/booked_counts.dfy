/** The booked-counts endpoint (api/getBookedCounts/index.js): it fetches
    the Apps Script reply, classifies it as an HTTP failure, a body that is
    not JSON, JSON that is not an array, or an array, and cleans each array
    item into a `{ name, count }` pair. */
module BookedCounts {
  import opened Text
  import opened JsValues

  /** A parsed JSON value. An object keeps its members in source order,
      duplicates included. */
  datatype Json =
    | JNull
    | JBool(b: bool)
    | JNum(n: real)
    | JStr(s: string)
    | JArr(items: seq<Json>)
    | JObj(members: seq<(string, Json)>)

  /** The member `key` of an object as `JSON.parse` builds it: the last
      duplicate wins. `None` is `undefined`. */
  function Member(members: seq<(string, Json)>, key: string): (r: Option<Json>)
    ensures r.None? <==> forall i :: 0 <= i < |members| ==> members[i].0 != key
    ensures r.Some? ==> exists i :: 0 <= i < |members| && members[i] == (key, r.value)
                                   && forall j :: i < j < |members| ==> members[j].0 != key
  {
    if members == [] then None
    else if members[|members| - 1].0 == key then Some(members[|members| - 1].1)
    else Member(members[..|members| - 1], key)
  }

  /** `x?.key` on an array item: only objects have the two fields read here. */
  function Prop(x: Json, key: string): (r: Option<Json>)
    ensures !x.JObj? ==> r.None?
    ensures x.JObj? ==> r == Member(x.members, key)
  {
    if x.JObj? then Member(x.members, key) else None
  }

  /** `Array.prototype.join(",")`. */
  function JoinComma(parts: seq<string>): (r: string)
    ensures parts == [] ==> r == []
    ensures |parts| == 1 ==> r == parts[0]
  {
    if parts == [] then []
    else if |parts| == 1 then parts[0]
    else parts[0] + "," + JoinComma(parts[1..])
  }

  /** Whether `String(v)` and `Number(v)` return instead of throwing. A
      parsed value is never callable, so an object with its own "toString"
      member has no usable `toString`, and the inherited `valueOf` gives the
      object back: the conversion to a primitive throws a TypeError. An
      array converts through `join`, which converts each non-null element. */
  predicate Converts(v: Json)
    decreases v
  {
    match v
    case JObj(ms) => Member(ms, "toString").None?
    case JArr(items) => forall i | 0 <= i < |items| :: items[i].JNull? || Converts(items[i])
    case _ => true
  }

  /** `String(v)` for a JSON value: an array joins its elements with commas
      (null elements as ""), an object is "[object Object]". Where
      `Converts(v)` fails the source throws, and the handler never uses the
      value computed here. */
  function JsonToString(v: Json): (r: string)
    ensures v.JNull? ==> r == "null"
    ensures v.JBool? ==> r == (if v.b then "true" else "false")
    ensures v.JNum? ==> r == NumToString(v.n)
    ensures v.JStr? ==> r == v.s
    ensures v.JObj? ==> r == "[object Object]"
    ensures v == JArr([]) || v == JArr([JNull]) ==> r == []
    ensures v.JArr? && |v.items| == 1 && !v.items[0].JNull? ==> r == JsonToString(v.items[0])
    decreases v
  {
    match v
    case JNull => "null"
    case JBool(b) => if b then "true" else "false"
    case JNum(n) => NumToString(n)
    case JStr(s) => s
    case JArr(items) =>
      JoinComma(seq(|items|, i requires 0 <= i < |items| =>
        if items[i].JNull? then "" else JsonToString(items[i])))
    case JObj(_) => "[object Object]"
  }

  /** `Number(v)`; `None` is NaN. An array converts through its string form;
      an object's "[object Object]" is never numeric. Where `Converts(v)`
      fails the source throws, as for `String(v)`. */
  function JsonToNumber(v: Json): (r: Option<real>)
    ensures v == JNull ==> r == Some(0.0)
    ensures v.JBool? ==> r == Some(if v.b then 1.0 else 0.0)
    ensures v.JNum? ==> r == Some(v.n)
    ensures v.JStr? ==> r == NumberOfString(v.s)
    ensures v.JObj? ==> r.None?
  {
    match v
    case JNull => Some(0.0)
    case JBool(b) => Some(if b then 1.0 else 0.0)
    case JNum(n) => Some(n)
    case JStr(s) => NumberOfString(s)
    case JArr(_) => NumberOfString(JsonToString(v))
    case JObj(_) => None
  }

  /** One cleaned item. */
  datatype Booked = Booked(name: string, count: real)

  /** The trimmed string form of a present name. */
  function NameString(v: Json): (r: string)
    ensures r == [] || (!IsSpace(r[0]) && !IsSpace(r[|r| - 1]))
    ensures v.JStr? ==> r == Trim(v.s)
  {
    var t := JsonToString(v);
    assert v.JStr? ==> t == v.s;
    Trim(t)
  }

  /** `String(x?.name ?? "").trim()`. */
  function CleanName(x: Json): (r: string)
    ensures r == [] || (!IsSpace(r[0]) && !IsSpace(r[|r| - 1]))
    ensures Prop(x, "name").None? || Prop(x, "name") == Some(JNull) ==> r == []
    ensures Prop(x, "name").Some? && Prop(x, "name").value.JStr? ==> r == Trim(Prop(x, "name").value.s)
    ensures Prop(x, "name").Some? && !Prop(x, "name").value.JNull? ==>
      r == Trim(JsonToString(Prop(x, "name").value))
  {
    var p := Prop(x, "name");
    if p.None? || p.value.JNull? then "" else NameString(p.value)
  }

  /** `Number(x?.count ?? 0) || 0`: NaN and 0 both become 0. */
  function CleanCount(x: Json): (r: real)
    ensures Prop(x, "count").None? || Prop(x, "count") == Some(JNull) ==> r == 0.0
    ensures Prop(x, "count").Some? && Prop(x, "count").value.JNum? ==> r == Prop(x, "count").value.n
    ensures Prop(x, "count").Some? && JsonToNumber(Prop(x, "count").value).None? ==> r == 0.0
    ensures Prop(x, "count").Some? && JsonToNumber(Prop(x, "count").value).Some? ==>
      r == JsonToNumber(Prop(x, "count").value).value
  {
    match Prop(x, "count")
    case None => 0.0
    case Some(v) => JsonToNumber(v).GetOr(0.0)
  }

  /** A cleaned count is 0 exactly when the count is missing, or converts
      to NaN or to 0 (null converts to 0). */
  lemma CleanCountZeroIff(x: Json)
    ensures CleanCount(x) == 0.0 <==>
      Prop(x, "count").None? || JsonToNumber(Prop(x, "count").value).None?
      || JsonToNumber(Prop(x, "count").value) == Some(0.0)
  {
    var p := Prop(x, "count");
    if p.Some? {
      var n := JsonToNumber(p.value);
      assert CleanCount(x) == n.GetOr(0.0);
    }
  }

  function Clean(x: Json): (b: Booked)
    ensures b.name == CleanName(x) && b.count == CleanCount(x)
    ensures !x.JObj? ==> b == Booked("", 0.0)
  {
    Booked(CleanName(x), CleanCount(x))
  }

  /** The JSON a cleaned item is sent as. */
  function BookedToJson(b: Booked): Json {
    JObj([("name", JStr(b.name)), ("count", JNum(b.count))])
  }

  lemma BookedMembers(b: Booked)
    ensures Prop(BookedToJson(b), "name") == Some(JStr(b.name))
    ensures Prop(BookedToJson(b), "count") == Some(JNum(b.count))
  {
    var ms := BookedToJson(b).members;
    assert "name" != "count" by { assert "name"[0] != "count"[0]; }
    var first := ms[..1];
    assert first == [("name", JStr(b.name))];
    assert Member(first, "name") == Some(JStr(b.name));
    assert Member(ms, "name") == Member(first, "name");
  }

  /** Cleaning is a normal form: an item the endpoint produced cleans to
      itself. */
  lemma CleanIdempotent(x: Json)
    ensures Clean(BookedToJson(Clean(x))) == Clean(x)
  {
    var b := Clean(x);
    BookedMembers(b);
    TrimNoop(b.name);
    assert CleanName(BookedToJson(b)) == b.name;
    assert CleanCount(BookedToJson(b)) == b.count;
  }

  // ---------------------------------------------------------------- handler

  /** The Apps Script reply: a thrown error (network failure, unreadable
      body), or a status with the body text and its `JSON.parse` result
      (`None` when parsing throws). */
  datatype Upstream =
    | FetchFailed(err: JsError)
    | Reply(status: int, text: string, parsed: Option<Json>)

  /** `res.ok`. */
  predicate StatusOk(status: int) { 200 <= status <= 299 }

  datatype CountsBody =
    | Preview(error: string, message: string, preview: string)
    | NotArray(error: string, message: string, receivedType: string, received: Json)
    | Failure(error: string, message: string)
    | Counts(items: seq<Booked>)

  datatype CountsResponse = CountsResponse(status: int, body: CountsBody)

  const ErrorLabel: string := "getBookedCounts exception"
  const BadJsonMessage: string := "Unexpected token in response. Not valid JSON."
  const NotArrayMessage: string := "GAS response is not an array"
  const PreviewLength: int := 200

  /** `typeof` of a parsed value. */
  function TypeOf(v: Json): (r: string)
    ensures r == "object" <==> v.JNull? || v.JArr? || v.JObj?
    ensures r == "boolean" <==> v.JBool?
    ensures r == "number" <==> v.JNum?
    ensures r == "string" <==> v.JStr?
  {
    match v
    case JNull => "object"
    case JBool(_) => "boolean"
    case JNum(_) => "number"
    case JStr(_) => "string"
    case JArr(_) => "object"
    case JObj(_) => "object"
  }

  /** `text.slice(0, 200)`. */
  function PreviewOf(text: string): (p: string)
    ensures |p| <= PreviewLength && StartsWith(text, p)
    ensures |text| <= PreviewLength ==> p == text
    ensures |text| > PreviewLength ==> |p| == PreviewLength
  {
    Slice(text, 0, PreviewLength)
  }

  /** Cleaning item `x` throws for neither field: `x?.name ?? ""` and
      `x?.count ?? 0` both convert to primitives. */
  predicate ItemConverts(x: Json) {
    && (Prop(x, "name").None? || Converts(Prop(x, "name").value))
    && (Prop(x, "count").None? || Converts(Prop(x, "count").value))
  }

  /** The message of the TypeError a failed conversion to a primitive
      raises (V8's wording). */
  const ConvertMessage: string := "Cannot convert object to primitive value"

  function CleanAll(data: seq<Json>): (r: seq<Booked>)
    ensures |r| == |data|
    ensures forall i :: 0 <= i < |data| ==> r[i] == Clean(data[i])
  {
    seq(|data|, i requires 0 <= i < |data| => Clean(data[i]))
  }

  function GetBookedCounts(up: Upstream): (r: CountsResponse)
    ensures r.status == 200 || r.status == 500
    ensures r.status == 200 <==>
      && up.Reply? && StatusOk(up.status) && up.parsed.Some? && up.parsed.value.JArr?
      && forall i :: 0 <= i < |up.parsed.value.items| ==> ItemConverts(up.parsed.value.items[i])
    ensures r.status == 200 <==> r.body.Counts?
    ensures r.status == 200 ==>
      |r.body.items| == |up.parsed.value.items|
      && forall i :: 0 <= i < |r.body.items| ==> r.body.items[i] == Clean(up.parsed.value.items[i])
    ensures r.status == 500 ==> r.body.error == ErrorLabel
    ensures up.FetchFailed? ==> r.body == Failure(ErrorLabel, ErrorText(up.err))
    ensures up.Reply? && !StatusOk(up.status) ==>
      && r.body.Preview?
      && r.body.message == "GAS returned HTTP " + IntToString(up.status)
      && r.body.preview == PreviewOf(up.text)
    ensures up.Reply? && StatusOk(up.status) && up.parsed.None? ==>
      && r.body.Preview? && r.body.message == BadJsonMessage
      && r.body.preview == PreviewOf(up.text)
    ensures up.Reply? && StatusOk(up.status) && up.parsed.Some? && !up.parsed.value.JArr? ==>
      r.body == NotArray(ErrorLabel, NotArrayMessage, TypeOf(up.parsed.value), up.parsed.value)
    ensures up.Reply? && StatusOk(up.status) && up.parsed.Some? && up.parsed.value.JArr?
            && (exists i :: 0 <= i < |up.parsed.value.items| && !ItemConverts(up.parsed.value.items[i])) ==>
      r.body == Failure(ErrorLabel, ConvertMessage)
  {
    match up
    case FetchFailed(e) => CountsResponse(500, Failure(ErrorLabel, ErrorText(e)))
    case Reply(status, text, parsed) =>
      if !StatusOk(status) then
        CountsResponse(500, Preview(ErrorLabel, "GAS returned HTTP " + IntToString(status), PreviewOf(text)))
      else if parsed.None? then
        CountsResponse(500, Preview(ErrorLabel, BadJsonMessage, PreviewOf(text)))
      else if !parsed.value.JArr? then
        CountsResponse(500, NotArray(ErrorLabel, NotArrayMessage, TypeOf(parsed.value), parsed.value))
      else if exists i :: 0 <= i < |parsed.value.items| && !ItemConverts(parsed.value.items[i]) then
        CountsResponse(500, Failure(ErrorLabel, ConvertMessage))
      else
        CountsResponse(200, Counts(CleanAll(parsed.value.items)))
  }

  /** Every name the endpoint returns is trimmed. */
  lemma CountsAreClean(up: Upstream)
    ensures var r := GetBookedCounts(up);
      r.status == 200 ==> forall b :: b in r.body.items ==> Trim(b.name) == b.name
  {
    var r := GetBookedCounts(up);
    if r.status == 200 {
      forall b | b in r.body.items ensures Trim(b.name) == b.name {
        TrimNoop(b.name);
      }
    }
  }

  /** An item whose name is an object with its own "toString" member makes
      `String` throw, and the handler answers 500 with the TypeError's
      message instead of a cleaned list. */
  lemma ToStringMemberFails(text: string)
    ensures var bad := JObj([("toString", JNum(0.0))]);
      GetBookedCounts(Reply(200, text, Some(JArr([JObj([("name", bad)])])))).body
        == Failure(ErrorLabel, ConvertMessage)
  {
    var bad := JObj([("toString", JNum(0.0))]);
    var item := JObj([("name", bad)]);
    assert Member(bad.members, "toString") == Some(JNum(0.0));
    assert Prop(item, "name") == Some(bad);
    assert !ItemConverts(item);
    assert !ItemConverts(JArr([item]).items[0]);
  }
}
