/** UTF-8, as `str::as_bytes`, `decode_utf8` and `decode_utf8_lossy` use it. */
module Utf8 {
  import opened Text

  type Byte = n: nat | n < 256

  /** The UTF-8 encoding of one scalar value. */
  function EncodeChar(c: char): (bs: seq<Byte>)
    ensures 1 <= |bs| <= 4
    ensures (c as int) < 0x80 <==> bs[0] < 0x80
  {
    var n := c as int;
    var q := n / 64;
    var h := q / 64;
    if n < 0x80 then [n]
    else if n < 0x800 then [0xC0 + q, 0x80 + n % 64]
    else if n < 0x10000 then [0xE0 + h, 0x80 + q % 64, 0x80 + n % 64]
    else [0xF0 + h / 64, 0x80 + h % 64, 0x80 + q % 64, 0x80 + n % 64]
  }

  function Encode(s: string): seq<Byte> {
    if s == [] then [] else EncodeChar(s[0]) + Encode(s[1..])
  }

  predicate IsContinuation(b: Byte) {
    0x80 <= b < 0xC0
  }

  predicate IsScalar(n: int) {
    0 <= n < 0xD800 || 0xE000 <= n < 0x11_0000
  }

  /** The first scalar value of `bs` and its width; overlong forms and surrogates are refused. */
  function DecodeFirst(bs: seq<Byte>): (r: Option<(char, nat)>)
    requires bs != []
    ensures r.Some? ==> 1 <= r.value.1 <= |bs|
  {
    if bs[0] < 0x80 then Some((bs[0] as char, 1))
    else if 0xC0 <= bs[0] < 0xE0 && |bs| >= 2 && IsContinuation(bs[1]) then
      var n := (bs[0] as int - 0xC0) * 64 + (bs[1] as int - 0x80);
      if 0x80 <= n then Some((n as char, 2)) else None
    else if 0xE0 <= bs[0] < 0xF0 && |bs| >= 3 && IsContinuation(bs[1]) && IsContinuation(bs[2]) then
      var n := (bs[0] as int - 0xE0) * 4096 + (bs[1] as int - 0x80) * 64 + (bs[2] as int - 0x80);
      if 0x800 <= n && IsScalar(n) then Some((n as char, 3)) else None
    else if 0xF0 <= bs[0] < 0xF8 && |bs| >= 4
            && IsContinuation(bs[1]) && IsContinuation(bs[2]) && IsContinuation(bs[3]) then
      var n := (bs[0] as int - 0xF0) * 262144 + (bs[1] as int - 0x80) * 4096 + (bs[2] as int - 0x80) * 64 + (bs[3] as int - 0x80);
      if 0x10000 <= n && IsScalar(n) then Some((n as char, 4)) else None
    else None
  }

  /** `decode_utf8`: the string, or nothing when the bytes are not UTF-8. */
  function Decode(bs: seq<Byte>): Option<string> {
    if bs == [] then Some([])
    else
      match DecodeFirst(bs)
      case None => None
      case Some((c, width)) =>
        match Decode(bs[width..])
        case None => None
        case Some(rest) => Some([c] + rest)
  }

  /** `decode_utf8_lossy`: invalid bytes become U+FFFD. */
  function DecodeLossy(bs: seq<Byte>): string {
    if bs == [] then []
    else
      match DecodeFirst(bs)
      case None => ['\U{FFFD}'] + DecodeLossy(bs[1..])
      case Some((c, width)) => [c] + DecodeLossy(bs[width..])
  }

  lemma {:induction false} DecodeFirstOfEncode(c: char, rest: seq<Byte>)
    ensures DecodeFirst(EncodeChar(c) + rest) == Some((c, |EncodeChar(c)|))
  {
    var bs := EncodeChar(c);
    var n := c as int;
    assert (bs + rest)[0] == bs[0];
    if 0x80 <= n {
      assert (bs + rest)[1] == bs[1];
    }
    if 0x800 <= n {
      assert (bs + rest)[2] == bs[2];
    }
    if 0x10000 <= n {
      assert (bs + rest)[3] == bs[3];
    }
  }

  /** Decoding undoes encoding, strictly and lossily. */
  lemma {:induction false} DecodeEncode(s: string)
    ensures Decode(Encode(s)) == Some(s)
    ensures DecodeLossy(Encode(s)) == s
  {
    if s != [] {
      var head, tail := EncodeChar(s[0]), Encode(s[1..]);
      DecodeFirstOfEncode(s[0], tail);
      assert (head + tail)[|head|..] == tail;
      DecodeEncode(s[1..]);
      assert s == [s[0]] + s[1..];
    }
  }

  /** The first character read lossily, and its width. */
  function LossyFirst(bs: seq<Byte>): (r: (char, nat))
    requires bs != []
    ensures 1 <= r.1 <= |bs|
  {
    match DecodeFirst(bs)
    case None => ('\U{FFFD}', 1)
    case Some(first) => first
  }

  lemma {:induction false} LossyUnfold(bs: seq<Byte>)
    requires bs != []
    ensures DecodeLossy(bs) == [LossyFirst(bs).0] + DecodeLossy(bs[LossyFirst(bs).1..])
  {
  }

  lemma {:induction false} LossyHead(c: char, rest: seq<Byte>)
    ensures DecodeLossy(EncodeChar(c) + rest) == [c] + DecodeLossy(rest)
  {
    DecodeFirstOfEncode(c, rest);
    assert (EncodeChar(c) + rest)[|EncodeChar(c)|..] == rest;
  }

  /** Stray continuation bytes are replaced one by one. */
  lemma {:induction false} LossyContinuations(bs: seq<Byte>, k: nat)
    requires k <= |bs| && forall i :: 0 <= i < k ==> IsContinuation(bs[i])
    ensures |DecodeLossy(bs)| == k + |DecodeLossy(bs[k..])|
  {
    if k == 0 {
      assert bs[0..] == bs;
    } else {
      LossyContinuations(bs[1..], k - 1);
      assert bs[1..][k - 1..] == bs[k..];
    }
  }

  /** One more byte in front makes for at most one more character. */
  lemma {:induction false} LossyByte(b: Byte, rest: seq<Byte>)
    ensures |DecodeLossy([b] + rest)| <= 1 + |DecodeLossy(rest)|
  {
    var bs := [b] + rest;
    assert bs[1..] == rest;
    var r := DecodeFirst(bs);
    if r.Some? {
      var k := r.value.1 - 1;
      assert forall i :: 0 <= i < k ==> IsContinuation(bs[i + 1]) && rest[i] == bs[i + 1];
      LossyContinuations(rest, k);
      assert bs[k + 1..] == rest[k..];
    }
  }

  lemma {:induction false} EncodeConcat(s: string, t: string)
    ensures Encode(s + t) == Encode(s) + Encode(t)
  {
    if s == [] {
      assert s + t == t;
    } else {
      assert (s + t)[1..] == s[1..] + t;
      EncodeConcat(s[1..], t);
    }
  }

  lemma {:induction false} EncodeInjective(s: string, t: string)
    requires Encode(s) == Encode(t)
    ensures s == t
  {
    DecodeEncode(s);
    DecodeEncode(t);
  }

  // ---- Only what was encoded is decoded.

  lemma {:induction false} TwoBytes(b0: Byte, b1: Byte, c: char)
    requires 0xC0 <= b0 < 0xE0 && IsContinuation(b1) && 0x80 <= c as int == (b0 as int - 0xC0) * 64 + (b1 as int - 0x80)
    ensures EncodeChar(c) == [b0, b1]
  {
  }

  lemma {:induction false} ThreeBytes(b0: Byte, b1: Byte, b2: Byte, c: char)
    requires 0xE0 <= b0 < 0xF0 && IsContinuation(b1) && IsContinuation(b2)
    requires 0x800 <= c as int == (b0 as int - 0xE0) * 4096 + (b1 as int - 0x80) * 64 + (b2 as int - 0x80)
    ensures EncodeChar(c) == [b0, b1, b2]
  {
  }

  lemma {:induction false} FourBytes(b0: Byte, b1: Byte, b2: Byte, b3: Byte, c: char)
    requires 0xF0 <= b0 < 0xF8 && IsContinuation(b1) && IsContinuation(b2) && IsContinuation(b3)
    requires 0x10000 <= c as int
          == (b0 as int - 0xF0) * 262144 + (b1 as int - 0x80) * 4096 + (b2 as int - 0x80) * 64 + (b3 as int - 0x80)
    ensures EncodeChar(c) == [b0, b1, b2, b3]
  {
    var w, x, y, z := b0 as int - 0xF0, b1 as int - 0x80, b2 as int - 0x80, b3 as int - 0x80;
    Digits64(w * 4096 + x * 64 + y, z);
    Digits64(w * 64 + x, y);
    Digits64(w, x);
    assert c as int == (w * 4096 + x * 64 + y) * 64 + z;
  }

  lemma Digits64(q: nat, r: nat)
    requires r < 64
    ensures (q * 64 + r) / 64 == q && (q * 64 + r) % 64 == r
  {
  }

  lemma {:induction false} FirstIsEncoded(bs: seq<Byte>)
    requires bs != [] && DecodeFirst(bs).Some?
    ensures var (c, width) := DecodeFirst(bs).value; EncodeChar(c) == bs[..width]
  {
    var (c, width) := DecodeFirst(bs).value;
    if bs[0] < 0x80 {
      assert bs[..1] == [bs[0]];
    } else if bs[0] < 0xE0 {
      TwoBytes(bs[0], bs[1], c);
      assert bs[..2] == [bs[0], bs[1]];
    } else if bs[0] < 0xF0 {
      ThreeBytes(bs[0], bs[1], bs[2], c);
      assert bs[..3] == [bs[0], bs[1], bs[2]];
    } else {
      FourBytes(bs[0], bs[1], bs[2], bs[3], c);
      assert bs[..4] == [bs[0], bs[1], bs[2], bs[3]];
    }
  }

  /** Lossy decoding keeps what is text and puts a replacement character for a byte that begins no character. */
  lemma {:induction false} LossyReplaces(s: string, b: Byte, rest: seq<Byte>)
    requires 0x80 <= b < 0xC0
    ensures DecodeLossy(Encode(s) + [b] + rest) == s + "\U{FFFD}" + DecodeLossy(rest)
    decreases |s|
  {
    if s == "" {
      var bs := [b] + rest;
      assert Encode(s) + [b] + rest == bs && bs[0] == b && bs[1..] == rest;
      assert s + "\U{FFFD}" == ['\U{FFFD}'];
    } else {
      var tail := Encode(s[1..]) + [b] + rest;
      assert Encode(s) + [b] + rest == EncodeChar(s[0]) + tail;
      LossyHead(s[0], tail);
      LossyReplaces(s[1..], b, rest);
      assert [s[0]] + (s[1..] + "\U{FFFD}" + DecodeLossy(rest)) == s + "\U{FFFD}" + DecodeLossy(rest);
    }
  }

  /** Bytes are decoded to a string exactly when they are its encoding: overlong forms and surrogates are refused. */
  lemma {:induction false} DecodeExactly(bs: seq<Byte>, s: string)
    ensures Decode(bs) == Some(s) <==> bs == Encode(s)
  {
    DecodeEncode(s);
    if Decode(bs) == Some(s) {
      DecodedIsEncoded(bs);
    }
  }

  lemma {:induction false} DecodedIsEncoded(bs: seq<Byte>)
    requires Decode(bs).Some?
    ensures Encode(Decode(bs).value) == bs
    decreases |bs|
  {
    if bs != [] {
      var (c, width) := DecodeFirst(bs).value;
      FirstIsEncoded(bs);
      DecodedIsEncoded(bs[width..]);
      assert ([c] + Decode(bs[width..]).value)[1..] == Decode(bs[width..]).value;
      assert bs == bs[..width] + bs[width..];
    }
  }
}
