/** The string pipeline of `assessEmergencyWithGroq` (server/ai_assess.js):
    the patient-history sentence, the cleaning and padding of the base64
    image, the image data URI sent to the model, and the normalisation of the
    model's parsed reply, with a fixed fallback for any failure. The HTTP
    call and JSON.parse are outside the model; their outcome is the input
    `Reply`. */
module AiAssess {
  import opened Js

  // ---------------------------------------------------------------- history

  /** An element of `medicalHistory`: an object with optional `condition`
      and `treatment`, or a string. */
  datatype HistoryItem = Entry(condition: Option<string>, treatment: Option<string>) | Text(text: string)

  const NoHistory: string := "No known pre-existing conditions"

  /** `${item.condition} (Treatment: ${item.treatment || 'None'})`; a missing
      property prints as "undefined", so does the `condition` of a string. */
  function EntryText(item: HistoryItem): string {
    match item
    case Entry(c, t) =>
      (if c.Some? then c.value else "undefined") + " (Treatment: "
      + (if t.Some? && t.value != "" then t.value else "None") + ")"
    case Text(_) => "undefined (Treatment: None)"
  }

  /** Array.prototype.join's rendering of an element: a string as itself, an
      object as "[object Object]". */
  function PlainText(item: HistoryItem): string {
    match item
    case Text(s) => s
    case Entry(_, _) => "[object Object]"
  }

  /** How an element is rendered; the choice is made once, by the type of
      the first element. */
  function Render(objectBranch: bool, item: HistoryItem): string {
    if objectBranch then EntryText(item) else PlainText(item)
  }

  function RenderAll(objectBranch: bool, items: seq<HistoryItem>): (r: seq<string>)
    ensures |r| == |items|
    ensures forall i :: 0 <= i < |items| ==> r[i] == Render(objectBranch, items[i])
  {
    seq(|items|, i requires 0 <= i < |items| => Render(objectBranch, items[i]))
  }

  /** The history sentence; `history` is None when `medicalHistory` is
      missing (undefined or null). */
  function HistoryContext(history: Option<seq<HistoryItem>>): (r: string)
    ensures history.None? || history.value == [] ==> r == NoHistory
  {
    if history.None? || history.value == [] then NoHistory
    else Join(RenderAll(history.value[0].Entry?, history.value), ", ")
  }

  /** A one-entry list of objects gives "condition (Treatment: t)", with
      "None" for a missing or empty treatment. */
  lemma HistoryOfOneEntry(condition: string, treatment: Option<string>)
    ensures HistoryContext(Some([Entry(Some(condition), treatment)]))
            == condition + " (Treatment: " + (if treatment.Some? && treatment.value != "" then treatment.value else "None") + ")"
  {
    assert RenderAll(true, [Entry(Some(condition), treatment)]) == [EntryText(Entry(Some(condition), treatment))];
  }

  /** A one-element list of strings gives that string. */
  lemma HistoryOfOneText(text: string)
    ensures HistoryContext(Some([Text(text)])) == text
  {
    assert RenderAll(false, [Text(text)]) == [text];
  }

  /** The sentence for `h + g` is the sentence for `h`, then ", ", then the
      items of `g` rendered in the branch `h`'s first element chose: one
      item per element, in list order. */
  lemma HistoryConcat(h: seq<HistoryItem>, g: seq<HistoryItem>)
    requires h != [] && g != []
    ensures HistoryContext(Some(h + g)) == HistoryContext(Some(h)) + ", " + Join(RenderAll(h[0].Entry?, g), ", ")
  {
    var b := h[0].Entry?;
    assert (h + g)[0] == h[0];
    assert RenderAll(b, h + g) == RenderAll(b, h) + RenderAll(b, g);
    JoinConcat(RenderAll(b, h), RenderAll(b, g), ", ");
  }

  /** Only the first element's type picks the branch: lists that agree on it
      and on the later elements' renderings under that branch give the same
      sentence, whatever the later elements' own types are. */
  lemma HistoryBranchByFirst(h: seq<HistoryItem>, g: seq<HistoryItem>)
    requires h != [] && |g| == |h| && g[0].Entry? == h[0].Entry?
    requires forall i :: 0 <= i < |h| ==> Render(h[0].Entry?, g[i]) == Render(h[0].Entry?, h[i])
    ensures HistoryContext(Some(g)) == HistoryContext(Some(h))
  {
    assert RenderAll(h[0].Entry?, g) == RenderAll(h[0].Entry?, h);
  }

  /** The text the model receives next to the image. */
  function UserText(history: Option<seq<HistoryItem>>): string {
    "Patient History: " + HistoryContext(history) + ". Analyze this image."
  }

  // ---------------------------------------------------------------- base64

  const HeaderStart: string := "data:image/"
  const HeaderEnd: string := ";base64,"
  const JpegHeader: string := "data:image/jpeg;base64,"

  predicate IsLowerAscii(c: char) { 'a' <= c <= 'z' }

  /** A character of the class `[A-Za-z0-9+/=]`. */
  predicate IsBase64Char(c: char) {
    ('A' <= c <= 'Z') || ('a' <= c <= 'z') || ('0' <= c <= '9') || c == '+' || c == '/' || c == '='
  }

  /** Every character of `s` is in the alphabet the cleaning keeps. */
  predicate AllBase64(s: string) {
    forall i :: 0 <= i < |s| ==> IsBase64Char(s[i])
  }

  /** Text matched in full by `data:image\/[a-z]+;base64,`. */
  predicate IsHeader(p: string) {
    |p| >= |HeaderStart| + 1 + |HeaderEnd|
    && p[..|HeaderStart|] == HeaderStart
    && p[|p| - |HeaderEnd|..] == HeaderEnd
    && forall i :: |HeaderStart| <= i < |p| - |HeaderEnd| ==> IsLowerAscii(p[i])
  }

  /** Length of the longest prefix of lower-case letters. */
  function LowerRun(s: string): (k: nat)
    ensures k <= |s|
    ensures forall i :: 0 <= i < k ==> IsLowerAscii(s[i])
    ensures k < |s| ==> !IsLowerAscii(s[k])
  {
    if s == [] || !IsLowerAscii(s[0]) then 0 else 1 + LowerRun(s[1..])
  }

  /** Length of the header at the start of `s`, if there is one. `[a-z]+`
      can only end just before the first character that is not a lower-case
      letter, so the regular expression has at most this one match. */
  function HeaderLength(s: string): (r: Option<nat>)
    ensures r.Some? ==> r.value <= |s| && IsHeader(s[..r.value])
  {
    if |s| < |HeaderStart| || s[..|HeaderStart|] != HeaderStart then None
    else
      var k := LowerRun(s[|HeaderStart|..]);
      var n := |HeaderStart| + k;
      if k >= 1 && |s| >= n + |HeaderEnd| && s[n..n + |HeaderEnd|] == HeaderEnd then
        assert s[..n + |HeaderEnd|][..|HeaderStart|] == HeaderStart;
        assert s[..n + |HeaderEnd|][n..] == HeaderEnd;
        Some(n + |HeaderEnd|)
      else None
  }

  /** `replace(/^data:image\/[a-z]+;base64,/, "")` */
  function StripHeader(s: string): (r: string)
    ensures |r| <= |s| && r == s[|s| - |r|..]
    ensures r != s ==> IsHeader(s[..|s| - |r|])
  {
    match HeaderLength(s)
    case Some(n) => s[n..]
    case None => s
  }

  /** The header is removed whenever it is there ... */
  lemma StripHeaderRemoves(format: string, rest: string)
    requires format != [] && forall i :: 0 <= i < |format| ==> IsLowerAscii(format[i])
    ensures StripHeader(HeaderStart + format + HeaderEnd + rest) == rest
  {
    var s := HeaderStart + format + HeaderEnd + rest;
    assert s[..|HeaderStart|] == HeaderStart;
    var tail := s[|HeaderStart|..];
    assert tail == format + HeaderEnd + rest;
    var k := LowerRun(tail);
    assert tail[|format|] == ';';
    assert k == |format|;
    var n := |HeaderStart| + k;
    assert s[n..n + |HeaderEnd|] == HeaderEnd;
    assert s[n + |HeaderEnd|..] == rest;
  }

  /** ... and only at the start of the string. */
  lemma StripHeaderOnlyAtStart(s: string)
    requires |s| < |HeaderStart| || s[..|HeaderStart|] != HeaderStart
    ensures StripHeader(s) == s
  {
  }

  /** `replace(/[^A-Za-z0-9+/=]/g, "")` */
  function KeepBase64Chars(s: string): (r: string)
    ensures forall i :: 0 <= i < |r| ==> IsBase64Char(r[i])
    ensures forall c {:trigger multiset(r)[c]} :: IsBase64Char(c) ==> multiset(r)[c] == multiset(s)[c]
    ensures AllBase64(s) ==> r == s
  {
    if s == [] then []
    else
      var rest := KeepBase64Chars(s[1..]);
      assert s == [s[0]] + s[1..];
      if IsBase64Char(s[0]) then [s[0]] + rest else rest
  }

  /** One step of the filter: the first character, if kept, then the rest filtered. */
  lemma KeepBase64CharsCons(s: string)
    requires s != []
    ensures KeepBase64Chars(s) == (if IsBase64Char(s[0]) then [s[0]] else []) + KeepBase64Chars(s[1..])
  {
  }

  /** The filter keeps the order: it works on each part of a string
      separately. */
  lemma {:induction false} KeepBase64CharsConcat(a: string, b: string)
    ensures KeepBase64Chars(a + b) == KeepBase64Chars(a) + KeepBase64Chars(b)
    decreases |a|
  {
    if a == [] {
      assert a + b == b;
    } else {
      var ab := a + b;
      assert ab[0] == a[0] && ab[1..] == a[1..] + b;
      KeepBase64CharsConcat(a[1..], b);
      KeepBase64CharsCons(ab);
      KeepBase64CharsCons(a);
      if IsBase64Char(a[0]) {
        assert KeepBase64Chars(ab) == [a[0]] + (KeepBase64Chars(a[1..]) + KeepBase64Chars(b));
        assert KeepBase64Chars(a) == [a[0]] + KeepBase64Chars(a[1..]);
      } else {
        assert KeepBase64Chars(ab) == KeepBase64Chars(a[1..]) + KeepBase64Chars(b);
        assert KeepBase64Chars(a) == KeepBase64Chars(a[1..]);
      }
    }
  }

  /** The padding fix: `'='.repeat(4 - length % 4)` when the remainder is not 0. */
  function Pad(s: string): (r: string)
    ensures |r| % 4 == 0
    ensures |s| <= |r| <= |s| + 3 && r[..|s|] == s
    ensures forall i :: |s| <= i < |r| ==> r[i] == '='
    ensures |s| % 4 == 0 ==> r == s
  {
    var missing := |s| % 4;
    if missing != 0 then s + Repeat('=', 4 - missing) else s
  }

  /** trim, strip the header, drop the bad characters, pad. */
  function CleanBase64(image: string): (r: string)
    ensures forall i :: 0 <= i < |r| ==> IsBase64Char(r[i])
    ensures |r| % 4 == 0
  {
    Pad(KeepBase64Chars(StripHeader(Trim(image))))
  }

  lemma Base64CharNotSpace(c: char)
    requires IsBase64Char(c)
    ensures !IsJsWhitespace(c)
  {
  }

  /** A string over the base64 alphabet (and '=') is left alone by every
      step of the cleaning except possibly the padding. */
  lemma CleanAlphabetOnly(s: string)
    requires forall i :: 0 <= i < |s| ==> IsBase64Char(s[i])
    ensures KeepBase64Chars(StripHeader(Trim(s))) == s
  {
    if s != [] {
      Base64CharNotSpace(s[0]);
      Base64CharNotSpace(s[|s| - 1]);
    }
    TrimNoOp(s);
    assert StripHeader(s) == s by {
      if |s| >= |HeaderStart| {
        assert s[..|HeaderStart|][4] == s[4];
        assert HeaderStart[4] == ':';
      }
    }
  }

  /** Cleaning a cleaned string changes nothing. */
  lemma CleanIdempotent(image: string)
    ensures CleanBase64(CleanBase64(image)) == CleanBase64(image)
  {
    CleanAlphabetOnly(CleanBase64(image));
  }

  /** `data:image/jpeg;base64,${cleanString}` */
  function ImageUri(image: string): (r: string)
    ensures |r| == |JpegHeader| + |CleanBase64(image)|
    ensures r[..|JpegHeader|] == JpegHeader
    ensures r[|JpegHeader|..] == CleanBase64(image)
  {
    JpegHeader + CleanBase64(image)
  }

  /** The URI's own header is one the header rule recognises, so stripping
      it gives back exactly the cleaned data. */
  lemma ImageUriHeaderRoundTrip(image: string)
    ensures StripHeader(ImageUri(image)) == CleanBase64(image)
  {
    JpegHeaderStripped(CleanBase64(image));
  }

  lemma JpegHeaderStripped(data: string)
    ensures StripHeader(JpegHeader + data) == data
  {
    StripHeaderRemoves("jpeg", data);
    assert HeaderStart + "jpeg" + HeaderEnd == JpegHeader;
  }

  // ---------------------------------------------------------------- reply

  /** A JavaScript value as JSON.parse produces it, plus `undefined` for an
      absent property. */
  datatype Value =
    | Undefined
    | JNull
    | JBool(b: bool)
    | JNum(x: real)
    | JStr(s: string)
    | JArr(items: seq<Value>)
    | JObj(fields: map<string, Value>)

  predicate Truthy(v: Value) {
    match v
    case Undefined => false
    case JNull => false
    case JBool(b) => b
    case JNum(x) => x != 0.0
    case JStr(s) => s != ""
    case JArr(_) => true
    case JObj(_) => true
  }

  /** `parsed.key` on a value other than null or undefined. */
  function Field(parsed: Value, key: string): Value {
    if parsed.JObj? && key in parsed.fields then parsed.fields[key] else Undefined
  }

  /** `a || b` */
  function Or(a: Value, b: Value): (r: Value)
    ensures Truthy(a) ==> r == a
    ensures !Truthy(a) ==> r == b
  {
    if Truthy(a) then a else b
  }

  /** What becomes of the request: it failed somewhere (a non-ok status, a
      reply without content, content that is not JSON), or its content
      parsed to `value`. */
  datatype Reply = Failed | Parsed(value: Value)

  datatype Assessment = Assessment(condition: Value, severity: Value, reasoning: Value, action: Value, location: Value)

  const Fallback: Assessment := Assessment(JStr("Error"), JStr("Unknown"), JStr("AI Service Unavailable."),
                                           JStr("Call emergency services."), JStr("Unknown"))

  predicate AllTruthy(a: Assessment) {
    Truthy(a.condition) && Truthy(a.severity) && Truthy(a.reasoning) && Truthy(a.action) && Truthy(a.location)
  }

  /** The defaulting of the five fields. */
  function Normalise(parsed: Value): (r: Assessment)
    ensures AllTruthy(r)
    ensures r.condition == if Truthy(Field(parsed, "condition")) then Field(parsed, "condition") else JStr("Unclear")
    ensures r.severity == if Truthy(Field(parsed, "severity")) then Field(parsed, "severity") else JStr("Unknown")
    ensures r.reasoning == if Truthy(Field(parsed, "reasoning")) then Field(parsed, "reasoning") else JStr("No details provided.")
    ensures r.action == if Truthy(Field(parsed, "action")) then Field(parsed, "action") else JStr("Proceed with standard protocol.")
    ensures r.location == if Truthy(Field(parsed, "location")) then Field(parsed, "location") else JStr("Unknown")
  {
    Assessment(Or(Field(parsed, "condition"), JStr("Unclear")),
               Or(Field(parsed, "severity"), JStr("Unknown")),
               Or(Field(parsed, "reasoning"), JStr("No details provided.")),
               Or(Field(parsed, "action"), JStr("Proceed with standard protocol.")),
               Or(Field(parsed, "location"), JStr("Unknown")))
  }

  /** The assessment as an object with the five keys. */
  function AsObject(a: Assessment): Value {
    JObj(map["condition" := a.condition, "severity" := a.severity, "reasoning" := a.reasoning,
             "action" := a.action, "location" := a.location])
  }

  /** The function's result: the normalised reply, or the fallback when the
      request failed or the reply parsed to null (reading a property of null
      throws inside the try block). */
  function Assess(reply: Reply): (r: Assessment)
    ensures AllTruthy(r)
    ensures reply.Failed? ==> r == Fallback
    ensures reply.Parsed? && (reply.value.JNull? || reply.value.Undefined?) ==> r == Fallback
    ensures reply.Parsed? && !reply.value.JNull? && !reply.value.Undefined? ==> r == Normalise(reply.value)
  {
    match reply
    case Failed => Fallback
    case Parsed(v) => if v.JNull? || v.Undefined? then Fallback else Normalise(v)
  }

  /** Normalising an already normalised result changes nothing. */
  lemma NormaliseIdempotent(parsed: Value)
    ensures Normalise(AsObject(Normalise(parsed))) == Normalise(parsed)
  {
  }

  /** A reply whose five fields are non-empty strings passes through unchanged. */
  lemma NormaliseKeepsComplete(condition: string, severity: string, reasoning: string, action: string, location: string)
    requires condition != "" && severity != "" && reasoning != "" && action != "" && location != ""
    ensures var a := Assessment(JStr(condition), JStr(severity), JStr(reasoning), JStr(action), JStr(location));
            Assess(Parsed(AsObject(a))) == a
  {
  }
}
