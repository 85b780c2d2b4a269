/**
  Percent-encoding (sections 2.1 and 2.3 of RFC 3986) with the character sets the
  repository uses.
 */
module Percent {
  import opened Text
  import opened Utf8

  /**
    Which ASCII characters are left alone.
    StrictPath: unreserved characters and `/`, used for object keys and list output.
    QueryValue: everything but controls, space, `#`, `&`, `=` and `+`; note that `%` stays.
    FormByte: the byte serialiser of section 5.2 of the WHATWG URL Standard, without its space rule.
   */
  datatype EncodeSet = StrictPath | QueryValue | FormByte

  predicate IsAlphanumeric(c: char) {
    'a' <= c <= 'z' || 'A' <= c <= 'Z' || '0' <= c <= '9'
  }

  predicate Keeps(enc: EncodeSet, c: char) {
    match enc
    case StrictPath => IsAlphanumeric(c) || c in {'-', '.', '_', '~', '/'}
    case QueryValue => ' ' < c <= '~' && c !in {'#', '&', '=', '+'}
    case FormByte => IsAlphanumeric(c) || c in {'*', '-', '.', '_'}
  }

  function HexDigit(n: nat): (c: char)
    requires n < 16
    ensures HexValue(c) == Some(n) && IsAlphanumeric(c)
    ensures '0' <= c <= '9' || 'A' <= c <= 'F'
  {
    if n < 10 then '0' + n as char else 'A' + (n - 10) as char
  }

  function HexValue(c: char): (r: Option<nat>)
    ensures r.Some? ==> r.value < 16
  {
    if '0' <= c <= '9' then Some((c - '0') as nat)
    else if 'A' <= c <= 'F' then Some((c - 'A') as nat + 10)
    else if 'a' <= c <= 'f' then Some((c - 'a') as nat + 10)
    else None
  }

  function EscapeByte(b: Byte): (r: string) {
    ['%', HexDigit(b / 16), HexDigit(b % 16)]
  }

  function EscapeBytes(bs: seq<Byte>): string {
    if bs == [] then [] else EscapeByte(bs[0]) + EscapeBytes(bs[1..])
  }

  function EscapeChar(enc: EncodeSet, c: char): string {
    if Keeps(enc, c) then [c] else EscapeBytes(Utf8.EncodeChar(c))
  }

  /** `utf8_percent_encode(s, enc)`. */
  function PercentEncode(enc: EncodeSet, s: string): string {
    if s == [] then [] else EscapeChar(enc, s[0]) + PercentEncode(enc, s[1..])
  }

  /** A `%` followed by two hexadecimal digits starts here. */
  predicate EscapeAt(s: string) {
    |s| >= 3 && s[0] == '%' && HexValue(s[1]).Some? && HexValue(s[2]).Some?
  }

  /** `percent_decode_str(s)`, as bytes. */
  function PercentDecode(s: string): seq<Byte> {
    if s == [] then []
    else if EscapeAt(s) then [16 * HexValue(s[1]).value + HexValue(s[2]).value] + PercentDecode(s[3..])
    else Utf8.EncodeChar(s[0]) + PercentDecode(s[1..])
  }

  /** Some `%` of `s` is followed by two hexadecimal digits. */
  predicate HasEscape(s: string) {
    s != [] && (EscapeAt(s) || HasEscape(s[1..]))
  }

  /** Before any text, `e` reads as `bs`. */
  ghost predicate Prepends(read: string -> seq<Byte>, e: string, bs: seq<Byte>) {
    forall rest :: read(e + rest) == bs + read(rest)
  }

  lemma PrependsConcat(read: string -> seq<Byte>, e1: string, bs1: seq<Byte>, e2: string, bs2: seq<Byte>)
    requires Prepends(read, e1, bs1) && Prepends(read, e2, bs2)
    ensures Prepends(read, e1 + e2, bs1 + bs2)
  {
    forall rest
      ensures read((e1 + e2) + rest) == (bs1 + bs2) + read(rest)
    {
      assert (e1 + e2) + rest == e1 + (e2 + rest);
    }
  }

  lemma PrependsNothing(read: string -> seq<Byte>)
    ensures Prepends(read, [], [])
  {
    forall rest
      ensures read([] + rest) == [] + read(rest)
    {
      assert [] + rest == rest;
    }
  }

  ghost predicate DecodesTo(e: string, bs: seq<Byte>) {
    Prepends(PercentDecode, e, bs)
  }

  lemma HexRoundTrip(n: nat)
    requires n < 16
    ensures HexValue(HexDigit(n)) == Some(n)
  {
  }

  lemma {:induction false} DecodeEscapeByte(b: Byte, rest: string)
    ensures PercentDecode(EscapeByte(b) + rest) == [b] + PercentDecode(rest)
  {
    HexRoundTrip(b / 16);
    HexRoundTrip(b % 16);
    DecodeEscape(HexDigit(b / 16), HexDigit(b % 16), rest);
    assert 16 * (b / 16) + b % 16 == b;
  }

  lemma {:induction false} DecodeEscape(hi: char, lo: char, rest: string)
    requires HexValue(hi).Some? && HexValue(lo).Some?
    ensures PercentDecode(['%', hi, lo] + rest) == [16 * HexValue(hi).value + HexValue(lo).value] + PercentDecode(rest)
  {
    assert (['%', hi, lo] + rest)[3..] == rest;
  }

  lemma {:induction false} EscapeByteDecodes(b: Byte)
    ensures DecodesTo(EscapeByte(b), [b])
  {
    forall rest
      ensures PercentDecode(EscapeByte(b) + rest) == [b] + PercentDecode(rest)
    {
      DecodeEscapeByte(b, rest);
    }
  }

  lemma {:induction false} EscapeBytesDecode(bs: seq<Byte>)
    ensures DecodesTo(EscapeBytes(bs), bs)
  {
    if bs == [] {
      PrependsNothing(PercentDecode);
    } else {
      EscapeByteDecodes(bs[0]);
      EscapeBytesDecode(bs[1..]);
      PrependsConcat(PercentDecode, EscapeByte(bs[0]), [bs[0]], EscapeBytes(bs[1..]), bs[1..]);
      assert bs == [bs[0]] + bs[1..];
    }
  }

  lemma {:induction false} DecodeEscapeBytes(bs: seq<Byte>, rest: string)
    ensures PercentDecode(EscapeBytes(bs) + rest) == bs + PercentDecode(rest)
  {
    EscapeBytesDecode(bs);
  }

  lemma {:induction false} DecodePlainChar(c: char, rest: string)
    requires c != '%'
    ensures PercentDecode([c] + rest) == Utf8.EncodeChar(c) + PercentDecode(rest)
  {
    assert ([c] + rest)[1..] == rest;
  }

  lemma {:induction false} EscapeCharDecodes(enc: EncodeSet, c: char)
    requires !enc.QueryValue?
    ensures DecodesTo(EscapeChar(enc, c), Utf8.EncodeChar(c))
  {
    if Keeps(enc, c) {
      forall rest
        ensures PercentDecode([c] + rest) == Utf8.EncodeChar(c) + PercentDecode(rest)
      {
        DecodePlainChar(c, rest);
      }
    } else {
      EscapeBytesDecode(Utf8.EncodeChar(c));
    }
  }

  /** Decoding undoes encoding when the set escapes `%` itself. */
  lemma {:induction false} EncodedDecodes(enc: EncodeSet, s: string)
    requires !enc.QueryValue?
    ensures DecodesTo(PercentEncode(enc, s), Utf8.Encode(s))
  {
    if s == [] {
      PrependsNothing(PercentDecode);
    } else {
      EscapeCharDecodes(enc, s[0]);
      EncodedDecodes(enc, s[1..]);
      PrependsConcat(PercentDecode, EscapeChar(enc, s[0]), Utf8.EncodeChar(s[0]), PercentEncode(enc, s[1..]), Utf8.Encode(s[1..]));
    }
  }

  lemma {:induction false} DecodeEncodeBytes(enc: EncodeSet, s: string, rest: string)
    requires !enc.QueryValue?
    ensures PercentDecode(PercentEncode(enc, s) + rest) == Utf8.Encode(s) + PercentDecode(rest)
  {
    EncodedDecodes(enc, s);
  }

  lemma {:induction false} DecodeEncode(enc: EncodeSet, s: string)
    requires !enc.QueryValue?
    ensures Utf8.Decode(PercentDecode(PercentEncode(enc, s))) == Some(s)
    ensures Utf8.DecodeLossy(PercentDecode(PercentEncode(enc, s))) == s
  {
    DecodeEncodeBytes(enc, s, []);
    assert PercentEncode(enc, s) + [] == PercentEncode(enc, s);
    assert Utf8.Encode(s) + PercentDecode([]) == Utf8.Encode(s);
    Utf8.DecodeEncode(s);
  }

  /** Encoded text holds only kept characters, `%` and hexadecimal digits. */
  lemma {:induction false} EncodedChars(enc: EncodeSet, s: string)
    ensures forall c :: c in PercentEncode(enc, s) ==> c == '%' || IsAlphanumeric(c) || Keeps(enc, c)
  {
    if s != [] {
      EscapedChars(Utf8.EncodeChar(s[0]));
      EncodedChars(enc, s[1..]);
    }
  }

  lemma {:induction false} EscapedChars(bs: seq<Byte>)
    ensures forall c :: c in EscapeBytes(bs) ==> c == '%' || IsAlphanumeric(c)
  {
    if bs != [] {
      EscapedChars(bs[1..]);
    }
  }

  lemma {:induction false} EncodeConcat(enc: EncodeSet, s: string, t: string)
    ensures PercentEncode(enc, s + t) == PercentEncode(enc, s) + PercentEncode(enc, t)
  {
    if s == [] {
      assert s + t == t;
    } else {
      assert (s + t)[1..] == s[1..] + t;
      EncodeConcat(enc, s[1..], t);
    }
  }

  lemma {:induction false} EncodeNonEmpty(enc: EncodeSet, s: string)
    ensures PercentEncode(enc, s) == [] <==> s == []
  {
  }

  /** Text without `%` decodes to itself. */
  lemma {:induction false} DecodePlain(s: string, rest: string)
    requires '%' !in s
    ensures PercentDecode(s + rest) == Utf8.Encode(s) + PercentDecode(rest)
  {
    if s == [] {
      assert s + rest == rest;
    } else {
      assert s + rest == [s[0]] + (s[1..] + rest);
      DecodePlainChar(s[0], s[1..] + rest);
      DecodePlain(s[1..], rest);
    }
  }

  // ---- The query-value set keeps `%`, so it is undone only on text without escapes.

  /** What the encoded text starts with is decided by what the text starts with. */
  lemma {:induction false} EscapeSurvives(s: string)
    requires s != [] && s[0] == '%'
    ensures EscapeAt(PercentEncode(QueryValue, s)) <==> EscapeAt(s)
  {
    var e := PercentEncode(QueryValue, s);
    assert e == ['%'] + PercentEncode(QueryValue, s[1..]);
    if |s| >= 2 && Keeps(QueryValue, s[1]) {
      assert e[1] == s[1];
      if |s| >= 3 && Keeps(QueryValue, s[2]) {
        var e2 := PercentEncode(QueryValue, s[2..]);
        assert s[1..][1..] == s[2..];
        assert e == ['%', s[1]] + e2;
        assert e2[0] == s[2];
        assert e[2] == s[2];
      } else if |s| >= 3 {
        assert s[1..][1..] == s[2..];
        var e2 := PercentEncode(QueryValue, s[2..]);
        assert e == ['%', s[1]] + e2;
        assert e2[0] == '%';
      } else {
        assert s[1..][1..] == [];
      }
    } else if |s| >= 2 {
      assert PercentEncode(QueryValue, s[1..])[0] == '%';
    }
  }

  /** A value survives the query-value encoding exactly when it holds no escape. */
  lemma {:induction false} QueryValueRoundTrip(s: string)
    ensures |PercentDecode(PercentEncode(QueryValue, s))| <= |Utf8.Encode(s)|
    ensures PercentDecode(PercentEncode(QueryValue, s)) == Utf8.Encode(s) <==> !HasEscape(s)
    ensures HasEscape(s) ==> |PercentDecode(PercentEncode(QueryValue, s))| < |Utf8.Encode(s)|
    decreases |s|
  {
    if s != [] {
      var e := PercentEncode(QueryValue, s);
      var tail := PercentEncode(QueryValue, s[1..]);
      assert e == EscapeChar(QueryValue, s[0]) + tail;
      QueryValueRoundTrip(s[1..]);
      if s[0] == '%' {
        EscapeSurvives(s);
        if EscapeAt(s) {
          QueryValueRoundTrip(s[3..]);
          PrefixOfEscape(s);
        } else {
          assert e[1..] == tail;
        }
      } else if Keeps(QueryValue, s[0]) {
        DecodePlainChar(s[0], tail);
      } else {
        DecodeEscapeBytes(Utf8.EncodeChar(s[0]), tail);
      }
    }
  }

  /** What is read back has no more characters, and fewer if the text holds an escape. */
  lemma {:induction false} QueryValueShrinks(s: string)
    ensures |Utf8.DecodeLossy(PercentDecode(PercentEncode(QueryValue, s)))| <= |s|
    ensures HasEscape(s) ==> |Utf8.DecodeLossy(PercentDecode(PercentEncode(QueryValue, s)))| < |s|
    decreases |s|
  {
    if s != [] {
      var e := PercentEncode(QueryValue, s);
      var tail := PercentEncode(QueryValue, s[1..]);
      assert e == EscapeChar(QueryValue, s[0]) + tail;
      QueryValueShrinks(s[1..]);
      if s[0] == '%' {
        EscapeSurvives(s);
        if EscapeAt(s) {
          QueryValueShrinks(s[3..]);
          PrefixOfEscape(s);
          Utf8.LossyByte(PercentDecode(e)[0], PercentDecode(PercentEncode(QueryValue, s[3..])));
        } else {
          assert e[1..] == tail;
          Utf8.LossyHead(s[0], PercentDecode(tail));
        }
      } else {
        if Keeps(QueryValue, s[0]) {
          DecodePlainChar(s[0], tail);
        } else {
          DecodeEscapeBytes(Utf8.EncodeChar(s[0]), tail);
        }
        Utf8.LossyHead(s[0], PercentDecode(tail));
      }
    }
  }

  lemma {:induction false} KeptHead(s: string)
    requires s != [] && Keeps(QueryValue, s[0])
    ensures PercentEncode(QueryValue, s) == [s[0]] + PercentEncode(QueryValue, s[1..])
    ensures |Utf8.Encode(s)| == 1 + |Utf8.Encode(s[1..])|
  {
  }

  lemma ThreeConcat(a: char, b: char, c: char, t: string)
    ensures [a] + ([b] + ([c] + t)) == [a, b, c] + t
  {
  }

  lemma {:induction false} PrefixOfEscape(s: string)
    requires EscapeAt(s)
    ensures PercentEncode(QueryValue, s) == s[..3] + PercentEncode(QueryValue, s[3..])
    ensures |Utf8.Encode(s)| == 3 + |Utf8.Encode(s[3..])|
  {
    var s1 := s[1..];
    var s2 := s1[1..];
    assert s2[1..] == s[3..] && s1[0] == s[1] && s2[0] == s[2];
    KeptHead(s);
    KeptHead(s1);
    KeptHead(s2);
    ThreeConcat(s[0], s[1], s[2], PercentEncode(QueryValue, s[3..]));
    assert s[..3] == [s[0], s[1], s[2]];
  }

  // ---- Which texts are left alone.

  lemma {:induction false} EncodeGrows(enc: EncodeSet, s: string)
    ensures |PercentEncode(enc, s)| >= |s|
    ensures PercentEncode(enc, s) == s <==> forall i :: 0 <= i < |s| ==> Keeps(enc, s[i])
    ensures PercentEncode(enc, s) != s ==> |PercentEncode(enc, s)| > |s|
  {
    if s != [] {
      EncodeGrows(enc, s[1..]);
      assert s == [s[0]] + s[1..];
      assert forall i :: 0 < i < |s| ==> s[i] == s[1..][i - 1];
      assert forall i :: 0 <= i < |s[1..]| ==> s[1..][i] == s[i + 1];
      if !Keeps(enc, s[0]) {
        EscapesAreLong(Utf8.EncodeChar(s[0]));
      }
    }
  }

  lemma {:induction false} EscapesAreLong(bs: seq<Byte>)
    ensures |EscapeBytes(bs)| == 3 * |bs|
  {
    if bs != [] {
      EscapesAreLong(bs[1..]);
    }
  }

  predicate Among(c: char, chars: string) {
    c in chars
  }

  /** The strict set leaves alone exactly the unreserved characters of section 2.3 of RFC 3986 and the slash. */
  lemma {:induction false} StrictKeepsExactly(s: string)
    ensures PercentEncode(StrictPath, s) == s
            <==> forall i :: 0 <= i < |s| ==>
                   'a' <= s[i] <= 'z' || 'A' <= s[i] <= 'Z' || '0' <= s[i] <= '9' || Among(s[i], "-._~/")
  {
    EncodeGrows(StrictPath, s);
  }

  /** The query-value set leaves alone exactly the visible ASCII characters other than `#`, `&`, `=` and `+`. */
  lemma {:induction false} QueryValueKeepsExactly(s: string)
    ensures PercentEncode(QueryValue, s) == s
            <==> forall i :: 0 <= i < |s| ==> '!' <= s[i] <= '~' && !Among(s[i], "#&=+")
  {
    EncodeGrows(QueryValue, s);
  }

  /** The form set leaves alone exactly letters, digits and `*-._`; a space is the form's own affair. */
  lemma {:induction false} FormKeepsExactly(s: string)
    ensures PercentEncode(FormByte, s) == s
            <==> forall i :: 0 <= i < |s| ==>
                   'a' <= s[i] <= 'z' || 'A' <= s[i] <= 'Z' || '0' <= s[i] <= '9' || Among(s[i], "*-._")
  {
    EncodeGrows(FormByte, s);
  }

  /** Escapes are read in either case, and nothing but a hexadecimal digit is read as one. */
  lemma {:induction false} HexDigitsExactly(c: char)
    ensures HexValue(c).Some? <==> '0' <= c <= '9' || 'A' <= c <= 'F' || 'a' <= c <= 'f'
    ensures 'A' <= c <= 'F' ==> HexValue(c + 32 as char) == HexValue(c)
    ensures forall n :: 0 <= n < 16 ==> HexValue(HexDigit(n)) == Some(n)
  {
  }

  /** What is escaped is escaped in upper-case hexadecimal. */
  lemma {:induction false} EscapesUpperCase(bs: seq<Byte>)
    ensures forall i :: 0 <= i < |EscapeBytes(bs)| ==>
              var c := EscapeBytes(bs)[i]; c == '%' || '0' <= c <= '9' || 'A' <= c <= 'F'
  {
    if bs != [] {
      EscapesUpperCase(bs[1..]);
    }
  }
}
