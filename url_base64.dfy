/** `urlBase64ToUint8Array` of the web-push demo
    (sandbox/Dom_stuff/web-push-demo/public/main.js): the VAPID public key,
    written in the URL- and filename-safe base64 alphabet of section 5 of
    RFC 4648 without padding, is padded with "=", rewritten into the
    standard alphabet of section 4, decoded by `atob` and turned into bytes.
    `atob` is the forgiving-base64 decode of the WHATWG Infra standard
    (section 4.7): ASCII white space is dropped, one or two final "=" are
    dropped when the length is a multiple of four, a length of 1 modulo 4
    or a character outside the alphabet is an error (`None`, where the
    browser throws), and every four characters become three bytes. */
module UrlBase64 {
  import opened Js

  type Byte = x: int | 0 <= x < 256

  /** `(4 - base64.length % 4) % 4` */
  function Padding(n: nat): (p: nat)
    ensures p <= 3
    ensures (n + p) % 4 == 0
    ensures n % 4 == 0 <==> p == 0
  {
    (4 - n % 4) % 4
  }

  /** `s.replace(/from/g, to)` for a single character. */
  function ReplaceAll(s: string, from: char, to: char): (r: string)
    ensures |r| == |s|
    ensures forall i :: 0 <= i < |s| ==> r[i] == if s[i] == from then to else s[i]
  {
    if s == [] then [] else [if s[0] == from then to else s[0]] + ReplaceAll(s[1..], from, to)
  }

  /** A character after both replacements. */
  function StdOf(c: char): char {
    if c == '-' then '+' else if c == '_' then '/' else c
  }

  /** The two replacements: from the URL-safe alphabet to the standard one,
      with no '-' or '_' left and every other character kept. */
  function ToStandard(s: string): (r: string)
    ensures |r| == |s|
    ensures forall i :: 0 <= i < |s| ==> r[i] != '-' && r[i] != '_'
    ensures forall i :: 0 <= i < |s| && s[i] != '-' && s[i] != '_' ==> r[i] == s[i]
  {
    ReplaceAll(ReplaceAll(s, '-', '+'), '_', '/')
  }

  /** The rewrite works character by character. */
  lemma ToStandardAt(s: string)
    ensures forall i :: 0 <= i < |s| ==> ToStandard(s)[i] == StdOf(s[i])
  {
  }

  predicate IsAsciiWhitespace(c: char) {
    c == '\t' || c == '\n' || c == '\U{000C}' || c == '\r' || c == ' '
  }

  /** Step 1 of the decode: drop ASCII white space. */
  function RemoveWhitespace(s: string): (r: string)
    ensures |r| <= |s|
    ensures forall i :: 0 <= i < |r| ==> !IsAsciiWhitespace(r[i])
    ensures (forall i :: 0 <= i < |s| ==> !IsAsciiWhitespace(s[i])) ==> r == s
  {
    if s == [] then []
    else (if IsAsciiWhitespace(s[0]) then [] else [s[0]]) + RemoveWhitespace(s[1..])
  }

  /** Step 2: one or two final "=" go when the length is a multiple of four. */
  function StripPadding(s: string): (r: string)
    ensures |s| % 4 != 0 ==> r == s
    ensures |s| % 4 == 0 && |s| >= 2 && s[|s| - 2..] == "==" ==> r == s[..|s| - 2]
    ensures |s| % 4 == 0 && |s| >= 1 && s[|s| - 1] == '=' && !(|s| >= 2 && s[|s| - 2] == '=') ==> r == s[..|s| - 1]
    ensures |s| == 0 || s[|s| - 1] != '=' ==> r == s
  {
    if |s| % 4 != 0 || |s| == 0 || s[|s| - 1] != '=' then s
    else if |s| >= 2 && s[|s| - 2] == '=' then s[..|s| - 2]
    else s[..|s| - 1]
  }

  /** The standard base64 alphabet: ASCII alphanumerics, '+' and '/'. */
  predicate IsStdChar(c: char) {
    'A' <= c <= 'Z' || 'a' <= c <= 'z' || '0' <= c <= '9' || c == '+' || c == '/'
  }

  predicate AllStd(s: string) {
    forall i :: 0 <= i < |s| ==> IsStdChar(s[i])
  }

  /** The six bits a character of the standard alphabet stands for. */
  function Sextet(c: char): (v: nat)
    requires IsStdChar(c)
    ensures v < 64
  {
    if 'A' <= c <= 'Z' then c as int - 'A' as int
    else if 'a' <= c <= 'z' then c as int - 'a' as int + 26
    else if '0' <= c <= '9' then c as int - '0' as int + 52
    else if c == '+' then 62
    else 63
  }

  /** The number of bytes `d` characters decode to. */
  function DecodedLength(d: nat): nat {
    (d / 4) * 3 + (if d % 4 == 2 then 1 else if d % 4 == 3 then 2 else 0)
  }

  /** Step 5: each group of four characters gives three bytes (the 24 bits
      they stand for); a last group of three gives two bytes and one of two
      gives one byte, the left-over bits being dropped. The bytes are the
      characters of the binary string `atob` returns. */
  function DecodeGroups(data: string): (r: seq<char>)
    requires AllStd(data) && |data| % 4 != 1
    ensures |r| == DecodedLength(|data|)
    ensures forall i :: 0 <= i < |r| ==> r[i] as int < 256
    decreases |data|
  {
    if |data| == 0 then []
    else if |data| == 2 then
      var s0, s1 := Sextet(data[0]), Sextet(data[1]);
      [(s0 * 4 + s1 / 16) as char]
    else if |data| == 3 then
      var s0, s1, s2 := Sextet(data[0]), Sextet(data[1]), Sextet(data[2]);
      [(s0 * 4 + s1 / 16) as char, ((s1 % 16) * 16 + s2 / 4) as char]
    else
      var s0, s1, s2, s3 := Sextet(data[0]), Sextet(data[1]), Sextet(data[2]), Sextet(data[3]);
      assert AllStd(data[4..]);
      [(s0 * 4 + s1 / 16) as char, ((s1 % 16) * 16 + s2 / 4) as char, ((s2 % 4) * 64 + s3) as char]
      + DecodeGroups(data[4..])
  }

  /** `atob`: the forgiving-base64 decode, `None` where it fails. */
  function Atob(s: string): (r: Option<seq<char>>)
    ensures r.Some? ==> forall i :: 0 <= i < |r.value| ==> r.value[i] as int < 256
    ensures var data := StripPadding(RemoveWhitespace(s));
            r.Some? <==> |data| % 4 != 1 && AllStd(data)
  {
    var data := StripPadding(RemoveWhitespace(s));
    if |data| % 4 == 1 then None
    else if !AllStd(data) then None
    else Some(DecodeGroups(data))
  }

  /** `[...rawData].map(x => x.charCodeAt(0))` into a Uint8Array. */
  function CharCodes(s: seq<char>): (r: seq<Byte>)
    requires forall i :: 0 <= i < |s| ==> s[i] as int < 256
    ensures |r| == |s|
    ensures forall i :: 0 <= i < |s| ==> r[i] == s[i] as int
  {
    if s == [] then [] else [s[0] as int] + CharCodes(s[1..])
  }

  /** urlBase64ToUint8Array: pad to a multiple of four, rewrite into the
      standard alphabet, `atob`, then one byte per character; `None` where
      `atob` throws. RoundTrip, WellFormedDecodes and OneModFourFails state
      what it computes. */
  function UrlBase64ToUint8Array(base64: string): (r: Option<seq<Byte>>)
  {
    var padded := base64 + Repeat('=', Padding(|base64|));
    match Atob(ToStandard(padded))
    case None => None
    case Some(raw) => Some(CharCodes(raw))
  }

  // ---------------------------------------------------------------------
  // The encoder the key was produced with, as the reference for the decode.

  /** The URL-safe alphabet: A-Z, a-z, 0-9, '-', '_'. */
  function UrlChar(v: nat): (c: char)
    requires v < 64
  {
    if v < 26 then ('A' as int + v) as char
    else if v < 52 then ('a' as int + v - 26) as char
    else if v < 62 then ('0' as int + v - 52) as char
    else if v == 62 then '-'
    else '_'
  }

  predicate IsUrlChar(c: char) {
    'A' <= c <= 'Z' || 'a' <= c <= 'z' || '0' <= c <= '9' || c == '-' || c == '_'
  }

  /** The four characters of three bytes. */
  function Enc3(b0: Byte, b1: Byte, b2: Byte): string {
    [UrlChar(b0 / 4), UrlChar((b0 % 4) * 16 + b1 / 16), UrlChar((b1 % 16) * 4 + b2 / 64), UrlChar(b2 % 64)]
  }

  /** The last group of two bytes: three characters. */
  function Enc2(b0: Byte, b1: Byte): string {
    [UrlChar(b0 / 4), UrlChar((b0 % 4) * 16 + b1 / 16), UrlChar((b1 % 16) * 4)]
  }

  /** The last group of one byte: two characters. */
  function Enc1(b0: Byte): string {
    [UrlChar(b0 / 4), UrlChar((b0 % 4) * 16)]
  }

  /** Unpadded base64url of a byte string (section 5 of RFC 4648 with the
      padding dropped, as VAPID keys are written). */
  function EncodeUrl(bytes: seq<Byte>): (r: string)
    ensures |r| == (|bytes| / 3) * 4 + (if |bytes| % 3 == 1 then 2 else if |bytes| % 3 == 2 then 3 else 0)
    ensures forall i :: 0 <= i < |r| ==> IsUrlChar(r[i])
    decreases |bytes|
  {
    if |bytes| == 0 then ""
    else if |bytes| == 1 then Enc1(bytes[0])
    else if |bytes| == 2 then Enc2(bytes[0], bytes[1])
    else Enc3(bytes[0], bytes[1], bytes[2]) + EncodeUrl(bytes[3..])
  }

  /** A URL-safe character, once rewritten, stands for the same six bits. */
  lemma SextetOfUrlChar(v: nat)
    requires v < 64
    ensures IsStdChar(StdOf(UrlChar(v))) && Sextet(StdOf(UrlChar(v))) == v
  {
  }

  // ---------------------------------------------------------------------
  // Properties.

  /** An already aligned key gets no padding; otherwise one or two "=" (three
      for a length of 1 modulo 4, which `atob` then refuses). */
  lemma PaddingCases(n: nat)
    ensures n % 4 == 0 ==> Padding(n) == 0
    ensures n % 4 == 2 ==> Padding(n) == 2
    ensures n % 4 == 3 ==> Padding(n) == 1
    ensures n % 4 == 1 ==> Padding(n) == 3
  {
  }

  /** Well formed: only characters of either alphabet, and not a length
      of 1 modulo 4. */
  predicate WellFormed(s: string) {
    (forall i :: 0 <= i < |s| ==> IsUrlChar(s[i]) || s[i] == '+' || s[i] == '/') && |s| % 4 != 1
  }

  /** What `atob` is given: the key in the standard alphabet, followed by
      the padding, with no white space to drop. */
  lemma StandardPadded(s: string, p: nat)
    requires forall i :: 0 <= i < |s| ==> IsUrlChar(s[i]) || s[i] == '+' || s[i] == '/'
    ensures ToStandard(s + Repeat('=', p)) == ToStandard(s) + Repeat('=', p)
    ensures AllStd(ToStandard(s))
    ensures RemoveWhitespace(ToStandard(s) + Repeat('=', p)) == ToStandard(s) + Repeat('=', p)
  {
    ToStandardAppend(s, Repeat('=', p));
    ToStandardAt(Repeat('=', p));
    assert ToStandard(Repeat('=', p)) == Repeat('=', p);
    var t := ToStandard(s) + Repeat('=', p);
    forall i | 0 <= i < |t| ensures !IsAsciiWhitespace(t[i]) {
      if i < |s| {
        assert t[i] == ToStandard(s)[i];
      } else {
        assert t[i] == Repeat('=', p)[i - |s|];
      }
    }
  }

  /** `StripPadding` takes off up to two "=" added to characters of the
      alphabet to reach a multiple of four; of three it leaves one. */
  lemma StripPadded(u: string, p: nat)
    requires AllStd(u) && p <= 3 && (|u| + p) % 4 == 0
    ensures p <= 2 ==> StripPadding(u + Repeat('=', p)) == u
    ensures p == 3 ==> StripPadding(u + Repeat('=', p)) == u + "="
  {
    if p == 0 {
      assert u + Repeat('=', p) == u;
      if |u| > 0 {
        assert IsStdChar(u[|u| - 1]);
      }
    } else if p == 1 {
      assert Repeat('=', p) == "=";
      StripOne(u);
    } else if p == 2 {
      assert Repeat('=', p) == "==";
      StripTwo(u);
    } else {
      assert Repeat('=', p) == "===";
      StripTwo(u + "=");
      assert u + "===" == (u + "=") + "==";
    }
  }

  lemma StripOne(u: string)
    requires AllStd(u) && (|u| + 1) % 4 == 0
    ensures StripPadding(u + "=") == u
  {
    var t := u + "=";
    assert t[|t| - 2] == u[|u| - 1];
    assert t[..|t| - 1] == u;
  }

  lemma StripTwo(u: string)
    requires (|u| + 2) % 4 == 0
    ensures StripPadding(u + "==") == u
  {
    var t := u + "==";
    assert t[|t| - 2..] == "==";
    assert t[..|t| - 2] == u;
  }

  /** The padding added is exactly what `atob` strips again. */
  lemma PaddingStripped(s: string)
    requires WellFormed(s)
    ensures StripPadding(RemoveWhitespace(ToStandard(s + Repeat('=', Padding(|s|))))) == ToStandard(s)
    ensures AllStd(ToStandard(s))
  {
    var p := Padding(|s|);
    StandardPadded(s, p);
    PaddingCases(|s|);
    StripPadded(ToStandard(s), p);
  }

  /** For a well-formed key the decode succeeds with 3·(padded length)/4
      minus the padding bytes, each in [0, 255]. */
  lemma WellFormedDecodes(s: string)
    requires WellFormed(s)
    ensures var r := UrlBase64ToUint8Array(s);
            r.Some? && |r.value| == 3 * (|s| + Padding(|s|)) / 4 - Padding(|s|)
  {
    PaddingStripped(s);
    PaddingCases(|s|);
  }

  /** A key of length 1 modulo 4 cannot be decoded: its three "=" are one
      too many to strip. */
  lemma OneModFourFails(s: string)
    requires |s| % 4 == 1 && forall i :: 0 <= i < |s| ==> IsUrlChar(s[i])
    ensures UrlBase64ToUint8Array(s).None?
  {
    PaddingCases(|s|);
    StandardPadded(s, 3);
    var u := ToStandard(s);
    StripPadded(u, 3);
    var d := u + "=";
    assert d[|d| - 1] == '=';
    assert !AllStd(d);
  }

  lemma ToStandardAppend(a: string, b: string)
    ensures ToStandard(a + b) == ToStandard(a) + ToStandard(b)
  {
    ToStandardAt(a + b);
    ToStandardAt(a);
    ToStandardAt(b);
  }

  /** `DecodeGroups` on one group of four, three or two characters. */
  lemma DecodeSmall(t: string)
    requires 2 <= |t| <= 4 && AllStd(t)
    ensures |t| == 4 ==> DecodeGroups(t) == [(Sextet(t[0]) * 4 + Sextet(t[1]) / 16) as char,
                                            ((Sextet(t[1]) % 16) * 16 + Sextet(t[2]) / 4) as char,
                                            ((Sextet(t[2]) % 4) * 64 + Sextet(t[3])) as char]
    ensures |t| == 3 ==> DecodeGroups(t) == [(Sextet(t[0]) * 4 + Sextet(t[1]) / 16) as char,
                                            ((Sextet(t[1]) % 16) * 16 + Sextet(t[2]) / 4) as char]
    ensures |t| == 2 ==> DecodeGroups(t) == [(Sextet(t[0]) * 4 + Sextet(t[1]) / 16) as char]
  {
    if |t| == 4 {
      assert t[4..] == [];
    }
  }

  /** A full group decodes on its own, ahead of the rest. */
  lemma DecodeGroupsAppend(x: string, y: string)
    requires |x| == 4 && AllStd(x) && AllStd(y) && |y| % 4 != 1
    ensures AllStd(x + y) && |x + y| % 4 != 1
    ensures DecodeGroups(x + y) == DecodeGroups(x) + DecodeGroups(y)
  {
    assert (x + y)[4..] == y;
    assert x[4..] == [];
  }

  /** The bit split of three bytes into four sextets and back. */
  lemma GroupBytes(b0: Byte, b1: Byte, b2: Byte)
    ensures var s0, s1, s2, s3 := b0 / 4, (b0 % 4) * 16 + b1 / 16, (b1 % 16) * 4 + b2 / 64, b2 % 64;
            s0 * 4 + s1 / 16 == b0 && (s1 % 16) * 16 + s2 / 4 == b1 && (s2 % 4) * 64 + s3 == b2
  {
  }

  /** A group of three bytes decodes back to them. */
  lemma Group3(b0: Byte, b1: Byte, b2: Byte)
    ensures AllStd(ToStandard(Enc3(b0, b1, b2)))
    ensures DecodeGroups(ToStandard(Enc3(b0, b1, b2))) == [b0 as char, b1 as char, b2 as char]
    ensures Decodes(Enc3(b0, b1, b2), [b0, b1, b2])
  {
    var s0, s1, s2, s3 := b0 / 4, (b0 % 4) * 16 + b1 / 16, (b1 % 16) * 4 + b2 / 64, b2 % 64;
    ToStandardAt(Enc3(b0, b1, b2));
    assert ToStandard(Enc3(b0, b1, b2))
           == [StdOf(UrlChar(s0)), StdOf(UrlChar(s1)), StdOf(UrlChar(s2)), StdOf(UrlChar(s3))];
    Sextets4(s0, s1, s2, s3);
    GroupBytes(b0, b1, b2);
  }

  /** Four sextets written in the URL-safe alphabet decode to the bytes
      they spell. */
  lemma Sextets4(s0: nat, s1: nat, s2: nat, s3: nat)
    requires s0 < 64 && s1 < 64 && s2 < 64 && s3 < 64
    ensures var t := [StdOf(UrlChar(s0)), StdOf(UrlChar(s1)), StdOf(UrlChar(s2)), StdOf(UrlChar(s3))];
            && AllStd(t)
            && DecodeGroups(t) == [(s0 * 4 + s1 / 16) as char, ((s1 % 16) * 16 + s2 / 4) as char,
                                   ((s2 % 4) * 64 + s3) as char]
  {
    SextetOfUrlChar(s0);
    SextetOfUrlChar(s1);
    SextetOfUrlChar(s2);
    SextetOfUrlChar(s3);
    var t := [StdOf(UrlChar(s0)), StdOf(UrlChar(s1)), StdOf(UrlChar(s2)), StdOf(UrlChar(s3))];
    DecodeSmall(t);
  }

  lemma Group2(b0: Byte, b1: Byte)
    ensures AllStd(ToStandard(Enc2(b0, b1)))
    ensures DecodeGroups(ToStandard(Enc2(b0, b1))) == [b0 as char, b1 as char]
    ensures Decodes(Enc2(b0, b1), [b0, b1])
  {
    var s0, s1, s2 := b0 / 4, (b0 % 4) * 16 + b1 / 16, (b1 % 16) * 4;
    ToStandardAt(Enc2(b0, b1));
    assert ToStandard(Enc2(b0, b1)) == [StdOf(UrlChar(s0)), StdOf(UrlChar(s1)), StdOf(UrlChar(s2))];
    Sextets3(s0, s1, s2);
    PairBytes(b0, b1);
  }

  /** Three sextets written in the URL-safe alphabet decode to the two
      bytes they spell. */
  lemma Sextets3(s0: nat, s1: nat, s2: nat)
    requires s0 < 64 && s1 < 64 && s2 < 64
    ensures var t := [StdOf(UrlChar(s0)), StdOf(UrlChar(s1)), StdOf(UrlChar(s2))];
            && AllStd(t)
            && DecodeGroups(t) == [(s0 * 4 + s1 / 16) as char, ((s1 % 16) * 16 + s2 / 4) as char]
  {
    SextetOfUrlChar(s0);
    SextetOfUrlChar(s1);
    SextetOfUrlChar(s2);
    var t := [StdOf(UrlChar(s0)), StdOf(UrlChar(s1)), StdOf(UrlChar(s2))];
    DecodeSmall(t);
  }

  /** The bit split of two bytes into three sextets and back. */
  lemma PairBytes(b0: Byte, b1: Byte)
    ensures var s0, s1, s2 := b0 / 4, (b0 % 4) * 16 + b1 / 16, (b1 % 16) * 4;
            s0 * 4 + s1 / 16 == b0 && (s1 % 16) * 16 + s2 / 4 == b1
  {
  }

  lemma Group1(b0: Byte)
    ensures AllStd(ToStandard(Enc1(b0)))
    ensures DecodeGroups(ToStandard(Enc1(b0))) == [b0 as char]
    ensures Decodes(Enc1(b0), [b0])
  {
    var s0, s1 := b0 / 4, (b0 % 4) * 16;
    SextetOfUrlChar(s0);
    SextetOfUrlChar(s1);
    var t := ToStandard(Enc1(b0));
    ToStandardAt(Enc1(b0));
    assert t == [StdOf(UrlChar(s0)), StdOf(UrlChar(s1))];
    DecodeSmall(t);
  }

  lemma CharCodesAppend(a: seq<char>, b: seq<char>)
    requires forall i :: 0 <= i < |a| ==> a[i] as int < 256
    requires forall i :: 0 <= i < |b| ==> b[i] as int < 256
    ensures CharCodes(a + b) == CharCodes(a) + CharCodes(b)
  {
  }

  /** `e` is in the alphabet once rewritten, has a decodable length, and its
      groups decode to `bytes`. */
  predicate Decodes(e: string, bytes: seq<Byte>) {
    AllStd(ToStandard(e)) && |e| % 4 != 1 && CharCodes(DecodeGroups(ToStandard(e))) == bytes
  }

  /** Decoding the groups of an encoded byte string gives the bytes back. */
  lemma {:induction false} DecodeEncode(bytes: seq<Byte>)
    ensures Decodes(EncodeUrl(bytes), bytes)
    decreases |bytes|
  {
    if |bytes| == 0 {
    } else if |bytes| == 1 {
      Group1(bytes[0]);
    } else if |bytes| == 2 {
      Group2(bytes[0], bytes[1]);
    } else {
      DecodeEncode(bytes[3..]);
      DecodeEncodeStep(bytes);
    }
  }

  /** The inductive step: a first group of three bytes in front of a rest
      that decodes back. */
  lemma DecodeEncodeStep(bytes: seq<Byte>)
    requires |bytes| >= 3 && Decodes(EncodeUrl(bytes[3..]), bytes[3..])
    ensures Decodes(EncodeUrl(bytes), bytes)
  {
    var front, back := [bytes[0], bytes[1], bytes[2]], bytes[3..];
    var head, rest := Enc3(bytes[0], bytes[1], bytes[2]), EncodeUrl(back);
    EncodeSplit(bytes);
    Group3(bytes[0], bytes[1], bytes[2]);
    DecodeConcat(head, rest, front, back);
    SplitFront(bytes);
    DecodesCongruent(head + rest, EncodeUrl(bytes), front + back, bytes);
  }

  /** Kept as lemmas of their own: stated inline, the equalities make the
      solver unfold `Decodes` on both sides and run out of resource. */
  lemma SplitFront(bytes: seq<Byte>)
    requires |bytes| >= 3
    ensures bytes == [bytes[0], bytes[1], bytes[2]] + bytes[3..]
  {
  }

  lemma DecodesCongruent(e: string, e': string, b: seq<Byte>, b': seq<Byte>)
    requires e == e' && b == b' && Decodes(e, b)
    ensures Decodes(e', b')
  {
  }

  lemma EncodeSplit(bytes: seq<Byte>)
    requires |bytes| >= 3
    ensures EncodeUrl(bytes) == Enc3(bytes[0], bytes[1], bytes[2]) + EncodeUrl(bytes[3..])
  {
  }

  /** Decoding a group of four followed by a rest decodes each of them. */
  lemma DecodeConcat(head: string, rest: string, front: seq<Byte>, back: seq<Byte>)
    requires |head| == 4 && Decodes(head, front) && Decodes(rest, back)
    ensures Decodes(head + rest, front + back)
  {
    ToStandardAppend(head, rest);
    DecodeGroupsAppend(ToStandard(head), ToStandard(rest));
    CharCodesAppend(DecodeGroups(ToStandard(head)), DecodeGroups(ToStandard(rest)));
  }

  /** The round trip: the decoder gives back every byte string its encoded
      key was made from. */
  lemma RoundTrip(bytes: seq<Byte>)
    ensures UrlBase64ToUint8Array(EncodeUrl(bytes)) == Some(bytes)
  {
    var e := EncodeUrl(bytes);
    assert |e| % 4 != 1;
    assert WellFormed(e);
    PaddingStripped(e);
    DecodeEncode(bytes);
  }
}
