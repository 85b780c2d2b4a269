/**
  `application/x-www-form-urlencoded` query strings: parsing and serialising of sections
  5.1 and 5.2 of the WHATWG URL Standard, and the list parameters read out of them.
 */
module Query {
  import opened Text
  import Utf8
  import opened Percent

  type Pairs = seq<(string, string)>

  function PlusToSpace(s: string): (r: string)
    ensures |r| == |s|
  {
    if s == [] then [] else [if s[0] == '+' then ' ' else s[0]] + PlusToSpace(s[1..])
  }

  function FormDecode(s: string): string {
    Utf8.DecodeLossy(PercentDecode(PlusToSpace(s)))
  }

  function FormPiece(c: char): string {
    if c == ' ' then "+" else EscapeChar(FormByte, c)
  }

  function FormEncode(s: string): string {
    if s == [] then [] else FormPiece(s[0]) + FormEncode(s[1..])
  }

  /** Name and value of one segment: up to the first `=`, the value empty without one. */
  function SegmentPair(seg: string): (string, string) {
    match SplitOnce(seg, "=")
    case Some((n, v)) => (FormDecode(n), FormDecode(v))
    case None => (FormDecode(seg), "")
  }

  function SegmentPairs(segs: seq<string>): Pairs {
    if segs == [] then []
    else (if segs[0] == "" then [] else [SegmentPair(segs[0])]) + SegmentPairs(segs[1..])
  }

  /** `form_urlencoded::parse(query)`: empty segments are skipped. */
  function Parse(query: string): Pairs {
    SegmentPairs(Split(query, "&"))
  }

  function PairSegment(p: (string, string)): string {
    FormEncode(p.0) + "=" + FormEncode(p.1)
  }

  function PairSegments(pairs: Pairs): (segs: seq<string>)
    ensures |segs| == |pairs|
  {
    if pairs == [] then [] else [PairSegment(pairs[0])] + PairSegments(pairs[1..])
  }

  /** `form_urlencoded::Serializer` over `append_pair` calls. */
  function Serialize(pairs: Pairs): string {
    Join(PairSegments(pairs), "&")
  }

  /** The value of the first pair with this name. */
  function FirstValue(pairs: Pairs, name: string): Option<string> {
    if pairs == [] then None
    else if pairs[0].0 == name then Some(pairs[0].1)
    else FirstValue(pairs[1..], name)
  }

  /** The value of the last pair with this name, or `current` without one. */
  function LastValue(pairs: Pairs, name: string, current: Option<string>): Option<string> {
    if pairs == [] then current
    else LastValue(pairs[1..], name, if pairs[0].0 == name then Some(pairs[0].1) else current)
  }

  predicate HasName(pairs: Pairs, name: string) {
    FirstValue(pairs, name).Some?
  }

  // ---- Parsing undoes serialising.

  lemma {:induction false} FormPieceDecodes(c: char)
    ensures DecodesTo(PlusToSpace(FormPiece(c)), Utf8.EncodeChar(c))
  {
    if c == ' ' || Keeps(FormByte, c) {
      assert PlusToSpace(FormPiece(c)) == [c];
      forall rest
        ensures PercentDecode([c] + rest) == Utf8.EncodeChar(c) + PercentDecode(rest)
      {
        DecodePlainChar(c, rest);
      }
    } else {
      EscapedChars(Utf8.EncodeChar(c));
      PlusToSpaceNoPlus(FormPiece(c));
      EscapeBytesDecode(Utf8.EncodeChar(c));
    }
  }

  lemma {:induction false} FormEncodedDecodes(s: string)
    ensures DecodesTo(PlusToSpace(FormEncode(s)), Utf8.Encode(s))
  {
    if s == [] {
      PrependsNothing(PercentDecode);
    } else {
      FormPieceDecodes(s[0]);
      FormEncodedDecodes(s[1..]);
      PlusToSpaceConcat(FormPiece(s[0]), FormEncode(s[1..]));
      PrependsConcat(PercentDecode, PlusToSpace(FormPiece(s[0])), Utf8.EncodeChar(s[0]),
                     PlusToSpace(FormEncode(s[1..])), Utf8.Encode(s[1..]));
    }
  }

  lemma {:induction false} DecodeFormEncodedBytes(s: string, rest: string)
    ensures PercentDecode(PlusToSpace(FormEncode(s)) + rest) == Utf8.Encode(s) + PercentDecode(rest)
  {
    FormEncodedDecodes(s);
  }

  lemma {:induction false} PlusToSpaceConcat(a: string, b: string)
    ensures PlusToSpace(a + b) == PlusToSpace(a) + PlusToSpace(b)
  {
    if a == [] {
      assert a + b == b;
    } else {
      assert (a + b)[1..] == a[1..] + b;
      PlusToSpaceConcat(a[1..], b);
    }
  }

  lemma {:induction false} PlusToSpaceNoPlus(s: string)
    requires '+' !in s
    ensures PlusToSpace(s) == s
  {
    if s != [] {
      PlusToSpaceNoPlus(s[1..]);
    }
  }

  lemma {:induction false} FormDecodeEncode(s: string)
    ensures FormDecode(FormEncode(s)) == s
  {
    DecodeFormEncodedBytes(s, []);
    assert PlusToSpace(FormEncode(s)) + [] == PlusToSpace(FormEncode(s));
    assert Utf8.Encode(s) + PercentDecode([]) == Utf8.Encode(s);
    Utf8.DecodeEncode(s);
  }

  /** Text without `%` and `+` is decoded to itself. */
  lemma {:induction false} FormDecodePlain(s: string)
    requires '%' !in s && '+' !in s
    ensures FormDecode(s) == s
  {
    PlusToSpaceNoPlus(s);
    DecodePlain(s, "");
    assert s + "" == s;
    assert Utf8.Encode(s) + PercentDecode("") == Utf8.Encode(s);
    Utf8.DecodeEncode(s);
  }

  // ---- Reading with and without the rule for `+`.

  /** `bs2` is `bs1` with some bytes of `+` turned into spaces. */
  predicate SpacedFrom(bs1: seq<Utf8.Byte>, bs2: seq<Utf8.Byte>) {
    |bs1| == |bs2| && forall i :: 0 <= i < |bs1| ==> bs2[i] == bs1[i] || (bs1[i] == 0x2B && bs2[i] == 0x20)
  }

  lemma SpacedConcat(a1: seq<Utf8.Byte>, a2: seq<Utf8.Byte>, b1: seq<Utf8.Byte>, b2: seq<Utf8.Byte>)
    requires SpacedFrom(a1, a2) && SpacedFrom(b1, b2)
    ensures SpacedFrom(a1 + b1, a2 + b2)
    ensures a1 + b1 == a2 + b2 <==> a1 == a2 && b1 == b2
  {
    assert (a1 + b1)[..|a1|] == a1 && (a2 + b2)[..|a2|] == a2;
    assert (a1 + b1)[|a1|..] == b1 && (a2 + b2)[|a2|..] == b2;
  }

  lemma SpacedCut(bs1: seq<Utf8.Byte>, bs2: seq<Utf8.Byte>, w: nat)
    requires SpacedFrom(bs1, bs2) && w <= |bs1|
    ensures SpacedFrom(bs1[w..], bs2[w..])
    ensures bs1 == bs2 <==> bs1[..w] == bs2[..w] && bs1[w..] == bs2[w..]
  {
    assert bs1 == bs1[..w] + bs1[w..] && bs2 == bs2[..w] + bs2[w..];
  }

  lemma ConsAgree(c1: char, s1: string, c2: char, s2: string)
    ensures [c1] + s1 == [c2] + s2 <==> c1 == c2 && s1 == s2
  {
    assert ([c1] + s1)[1..] == s1 && ([c2] + s2)[1..] == s2;
    assert ([c1] + s1)[0] == c1 && ([c2] + s2)[0] == c2;
  }

  lemma {:induction false} SpacedLossy(bs1: seq<Utf8.Byte>, bs2: seq<Utf8.Byte>)
    requires SpacedFrom(bs1, bs2)
    ensures |Utf8.DecodeLossy(bs1)| == |Utf8.DecodeLossy(bs2)|
    ensures Utf8.DecodeLossy(bs1) == Utf8.DecodeLossy(bs2) <==> bs1 == bs2
    decreases |bs1|
  {
    if bs1 != [] {
      var (c1, w) := Utf8.LossyFirst(bs1);
      var (c2, w2) := Utf8.LossyFirst(bs2);
      SpacedFirst(bs1, bs2);
      SpacedCut(bs1, bs2, w);
      SpacedLossy(bs1[w..], bs2[w..]);
      Utf8.LossyUnfold(bs1);
      Utf8.LossyUnfold(bs2);
      ConsAgree(c1, Utf8.DecodeLossy(bs1[w..]), c2, Utf8.DecodeLossy(bs2[w..]));
    }
  }

  /** The first character is the same, or a plus became a space. */
  lemma {:induction false} SpacedFirst(bs1: seq<Utf8.Byte>, bs2: seq<Utf8.Byte>)
    requires SpacedFrom(bs1, bs2) && bs1 != []
    ensures var (c1, w1) := Utf8.LossyFirst(bs1); var (c2, w2) := Utf8.LossyFirst(bs2);
            w1 == w2 && (c1 == c2 <==> bs1[..w1] == bs2[..w2])
  {
    var r1 := Utf8.DecodeFirst(bs1);
    assert bs1[..1] == [bs1[0]] && bs2[..1] == [bs2[0]];
    if bs1[0] >= 0x80 && r1.Some? {
      assert forall i :: 1 <= i < r1.value.1 ==> Utf8.IsContinuation(bs1[i]);
    }
  }

  lemma {:induction false} SpacedDecode(s: string)
    ensures SpacedFrom(PercentDecode(s), PercentDecode(PlusToSpace(s)))
    ensures PercentDecode(s) == PercentDecode(PlusToSpace(s)) <==> '+' !in s
    decreases |s|
  {
    if s != [] {
      if EscapeAt(s) {
        SpacedEscape(s);
        SpacedDecode(s[3..]);
        var b := [16 * HexValue(s[1]).value + HexValue(s[2]).value];
        SpacedConcat(b, b, PercentDecode(s[3..]), PercentDecode(PlusToSpace(s[3..])));
      } else {
        SpacedNoEscape(s);
        SpacedDecode(s[1..]);
        var c := if s[0] == '+' then ' ' else s[0];
        SpacedConcat(Utf8.EncodeChar(s[0]), Utf8.EncodeChar(c), PercentDecode(s[1..]), PercentDecode(PlusToSpace(s[1..])));
      }
    }
  }

  /** How the form parser reads a value, against the reading that leaves `+` alone. */
  lemma {:induction false} ReadingsAgree(v: string)
    ensures |FormDecode(v)| == |Utf8.DecodeLossy(PercentDecode(v))|
    ensures FormDecode(v) == Utf8.DecodeLossy(PercentDecode(v)) <==> '+' !in v
  {
    SpacedDecode(v);
    SpacedLossy(PercentDecode(v), PercentDecode(PlusToSpace(v)));
  }

  lemma {:induction false} SpacedTails(s: string)
    requires |s| >= 3
    ensures var t := PlusToSpace(s);
            && t[1..] == PlusToSpace(s[1..]) && t[3..] == PlusToSpace(s[3..])
            && (forall i :: 0 <= i < 3 ==> t[i] == if s[i] == '+' then ' ' else s[i])
  {
    var t := PlusToSpace(s);
    assert t[1..] == PlusToSpace(s[1..]);
    assert t[2..] == t[1..][1..] == PlusToSpace(s[1..][1..]);
    assert s[1..][1..] == s[2..] && s[2..][1..] == s[3..];
    assert t[3..] == t[2..][1..];
    assert t[1] == t[1..][0] && t[2] == t[2..][0];
  }

  lemma {:induction false} SpacedEscape(s: string)
    requires EscapeAt(s)
    ensures PercentDecode(PlusToSpace(s))
         == [16 * HexValue(s[1]).value + HexValue(s[2]).value] + PercentDecode(PlusToSpace(s[3..]))
    ensures '+' in s <==> '+' in s[3..]
  {
    SpacedTails(s);
    assert s == [s[0], s[1], s[2]] + s[3..];
  }

  lemma {:induction false} SpacedNoEscape(s: string)
    requires s != [] && !EscapeAt(s)
    ensures PercentDecode(PlusToSpace(s))
         == Utf8.EncodeChar(if s[0] == '+' then ' ' else s[0]) + PercentDecode(PlusToSpace(s[1..]))
    ensures '+' in s <==> s[0] == '+' || '+' in s[1..]
  {
    if |s| >= 3 {
      SpacedTails(s);
    }
    assert PlusToSpace(s)[1..] == PlusToSpace(s[1..]);
    assert s == [s[0]] + s[1..];
  }

  /** The text of a serialised name or value holds no delimiter of the query syntax. */
  lemma {:induction false} FormEncodedChars(s: string)
    ensures '&' !in FormEncode(s) && '=' !in FormEncode(s) && '?' !in FormEncode(s)
  {
    if s != [] {
      EscapedChars(Utf8.EncodeChar(s[0]));
      FormEncodedChars(s[1..]);
    }
  }

  lemma {:induction false} PairOfSegment(p: (string, string))
    ensures SegmentPair(PairSegment(p)) == p
    ensures '&' !in PairSegment(p) && '?' !in PairSegment(p) && PairSegment(p) != ""
  {
    var n, v := FormEncode(p.0), FormEncode(p.1);
    FormEncodedChars(p.0);
    FormEncodedChars(p.1);
    FreeOfChar(n, '=');
    SplitOnceAfterFree(n, "=", v);
    FormDecodeEncode(p.0);
    FormDecodeEncode(p.1);
    assert SegmentPair(n + "=" + v) == (FormDecode(n), FormDecode(v));
  }

  lemma {:induction false} PairsOfSegments(pairs: Pairs)
    ensures SegmentPairs(PairSegments(pairs)) == pairs
    ensures forall s :: s in PairSegments(pairs) ==> '&' !in s && FreeOf(s, "&")
  {
    if pairs != [] {
      PairOfSegment(pairs[0]);
      FreeOfChar(PairSegment(pairs[0]), '&');
      PairsOfSegments(pairs[1..]);
      assert PairSegments(pairs)[1..] == PairSegments(pairs[1..]);
    }
  }

  lemma {:induction false} ParseSerialize(pairs: Pairs)
    ensures Parse(Serialize(pairs)) == pairs
  {
    PairsOfSegments(pairs);
    if pairs == [] {
      SplitSingle("", "&");
      assert SegmentPairs([""]) == [];
    } else {
      SplitJoin(PairSegments(pairs), "&");
    }
  }

  // ---- Decimal numbers.

  function DigitChar(n: nat): (c: char)
    requires n < 10
    ensures IsDigit(c) && DigitValue(c) == n
  {
    '0' + n as char
  }

  predicate IsDigit(c: char) {
    '0' <= c <= '9'
  }

  function DigitValue(c: char): nat
    requires IsDigit(c)
  {
    (c - '0') as nat
  }

  /** `n.to_string()`. */
  function PrintNat(n: nat): string {
    if n < 10 then [DigitChar(n)] else PrintNat(n / 10) + [DigitChar(n % 10)]
  }

  function DigitsValue(s: string): Option<nat> {
    if s == [] then Some(0)
    else if !IsDigit(s[|s| - 1]) then None
    else
      match DigitsValue(s[..|s| - 1])
      case None => None
      case Some(n) => Some(10 * n + DigitValue(s[|s| - 1]))
  }

  /** `s.parse::<uN>()` for an unsigned type with values below `bound`; a leading `+` is accepted. */
  function ParseUnsigned(s: string, bound: nat): Option<nat> {
    var digits := StripPrefixOrSelf(s, "+");
    if digits == [] then None
    else
      match DigitsValue(digits)
      case None => None
      case Some(n) => if n < bound then Some(n) else None
  }

  lemma {:induction false} DigitsOfPrinted(n: nat)
    ensures DigitsValue(PrintNat(n)) == Some(n)
    ensures PrintNat(n) != [] && IsDigit(PrintNat(n)[0])
  {
    var s := PrintNat(n);
    if n < 10 {
      assert s[..|s| - 1] == [];
    } else {
      DigitsOfPrinted(n / 10);
      assert s[..|s| - 1] == PrintNat(n / 10);
    }
  }

  lemma {:induction false} StartsWithPlus(s: string)
    ensures "+" <= s <==> s != [] && s[0] == '+'
  {
  }

  lemma {:induction false} ParsePrinted(n: nat, bound: nat)
    requires n < bound
    ensures ParseUnsigned(PrintNat(n), bound) == Some(n)
  {
    DigitsOfPrinted(n);
    StartsWithPlus(PrintNat(n));
  }

  // ---- List parameters.

  datatype ListParams = ListParams(
    prefix: string,
    delimiter: string,
    maxKeys: nat,
    continuationToken: Option<string>,
    startAfter: Option<string>,
    encodingType: Option<string>,
    marker: Option<string>,
    isV2: bool)

  const USIZE_BOUND: nat := 0x1_0000_0000_0000_0000

  function OrElse(o: Option<string>, default: string): string {
    if o.Some? then o.value else default
  }

  function MaxKeysOf(o: Option<string>): nat {
    var parsed := if o.None? then None else ParseUnsigned(o.value, USIZE_BOUND);
    var n := if parsed.Some? then parsed.value else 1000;
    if n < 1000 then n else 1000
  }

  function QueryPairs(rawQuery: Option<string>): Pairs {
    if rawQuery.None? then [] else Parse(rawQuery.value)
  }

  /** What a list query asks for: for each parameter the last value given counts. */
  function ListParamsOf(pairs: Pairs): ListParams {
    ListParams(
      OrElse(LastValue(pairs, "prefix", None), ""),
      OrElse(LastValue(pairs, "delimiter", None), ""),
      MaxKeysOf(LastValue(pairs, "max-keys", None)),
      LastValue(pairs, "continuation-token", None),
      LastValue(pairs, "start-after", None),
      LastValue(pairs, "encoding-type", None),
      LastValue(pairs, "marker", None),
      ("list-type", "2") in pairs)
  }

  lemma {:induction false} LastValueAppend(pairs: Pairs, p: (string, string), name: string, current: Option<string>)
    ensures LastValue(pairs + [p], name, current)
         == if p.0 == name then Some(p.1) else LastValue(pairs, name, current)
  {
    if pairs == [] {
      assert pairs + [p] == [p];
      assert LastValue([p][1..], name, Some(p.1)) == Some(p.1);
    } else {
      assert (pairs + [p])[1..] == pairs[1..] + [p];
      LastValueAppend(pairs[1..], p, name, if pairs[0].0 == name then Some(pairs[0].1) else current);
    }
  }

  /** One pass over the query, as the gateway reads it. */
  method ParseListQueryParams(rawQuery: Option<string>) returns (r: ListParams)
    ensures r == ListParamsOf(QueryPairs(rawQuery))
    ensures r.maxKeys <= 1000
  {
    var prefix, delimiter, maxKeys: Option<string> := None, None, None;
    var continuationToken, startAfter: Option<string> := None, None;
    var encodingType, marker: Option<string> := None, None;
    var isV2 := false;
    var pairs := QueryPairs(rawQuery);
    for i := 0 to |pairs|
      invariant prefix == LastValue(pairs[..i], "prefix", None)
      invariant delimiter == LastValue(pairs[..i], "delimiter", None)
      invariant maxKeys == LastValue(pairs[..i], "max-keys", None)
      invariant continuationToken == LastValue(pairs[..i], "continuation-token", None)
      invariant startAfter == LastValue(pairs[..i], "start-after", None)
      invariant encodingType == LastValue(pairs[..i], "encoding-type", None)
      invariant marker == LastValue(pairs[..i], "marker", None)
      invariant isV2 <==> ("list-type", "2") in pairs[..i]
    {
      var k, v := pairs[i].0, pairs[i].1;
      assert pairs[..i + 1] == pairs[..i] + [pairs[i]];
      LastValueAppend(pairs[..i], pairs[i], "prefix", None);
      LastValueAppend(pairs[..i], pairs[i], "delimiter", None);
      LastValueAppend(pairs[..i], pairs[i], "max-keys", None);
      LastValueAppend(pairs[..i], pairs[i], "continuation-token", None);
      LastValueAppend(pairs[..i], pairs[i], "start-after", None);
      LastValueAppend(pairs[..i], pairs[i], "encoding-type", None);
      LastValueAppend(pairs[..i], pairs[i], "marker", None);
      prefix := if k == "prefix" then Some(v) else prefix;
      delimiter := if k == "delimiter" then Some(v) else delimiter;
      maxKeys := if k == "max-keys" then Some(v) else maxKeys;
      continuationToken := if k == "continuation-token" then Some(v) else continuationToken;
      startAfter := if k == "start-after" then Some(v) else startAfter;
      encodingType := if k == "encoding-type" then Some(v) else encodingType;
      marker := if k == "marker" then Some(v) else marker;
      isV2 := isV2 || (k == "list-type" && v == "2");
    }
    assert pairs[..|pairs|] == pairs;
    r := ListParams(OrElse(prefix, ""), OrElse(delimiter, ""), MaxKeysOf(maxKeys), continuationToken,
                    startAfter, encodingType, marker, isV2);
  }

  // ---- A listing's parameters, written and read back.

  function Optional(name: string, value: Option<string>): Pairs {
    if value.None? then [] else [(name, value.value)]
  }

  /** The parameters of a listing as a client writes them. */
  function WrittenParams(p: ListParams): seq<Pairs> {
    [[("prefix", p.prefix)], [("delimiter", p.delimiter)], [("max-keys", PrintNat(p.maxKeys))],
     Optional("continuation-token", p.continuationToken), Optional("start-after", p.startAfter),
     Optional("encoding-type", p.encodingType), Optional("marker", p.marker), if p.isV2 then [("list-type", "2")] else [("list-type", "1")]]
  }

  function Flatten(parts: seq<Pairs>): Pairs {
    if parts == [] then [] else parts[0] + Flatten(parts[1..])
  }

  lemma {:induction false} LastValueConcat(a: Pairs, b: Pairs, name: string, current: Option<string>)
    ensures LastValue(a + b, name, current) == LastValue(b, name, LastValue(a, name, current))
  {
    if a == [] {
      assert a + b == b;
    } else {
      assert (a + b)[1..] == a[1..] + b;
      LastValueConcat(a[1..], b, name, if a[0].0 == name then Some(a[0].1) else current);
    }
  }

  lemma {:induction false} ValueInPart(part: Pairs, name: string, current: Option<string>)
    requires |part| <= 1
    ensures LastValue(part, name, current) == if part != [] && part[0].0 == name then Some(part[0].1) else current
  {
  }

  predicate ShortParts(parts: seq<Pairs>) {
    forall i :: 0 <= i < |parts| ==> |parts[i]| <= 1
  }

  predicate NameAt(parts: seq<Pairs>, name: string, k: nat) {
    forall i :: 0 <= i < |parts| && i != k && parts[i] != [] ==> parts[i][0].0 != name
  }

  /** Of parts with at most one pair each, the value of a name is that of the one part that may have it. */
  lemma {:induction false} ValueOfPart(parts: seq<Pairs>, name: string, k: nat, current: Option<string>)
    requires ShortParts(parts) && NameAt(parts, name, k)
    ensures LastValue(Flatten(parts), name, current)
         == if k < |parts| && parts[k] != [] && parts[k][0].0 == name then Some(parts[k][0].1) else current
  {
    if parts != [] {
      var next := LastValue(parts[0], name, current);
      LastValueConcat(parts[0], Flatten(parts[1..]), name, current);
      ValueInPart(parts[0], name, current);
      assert forall i :: 0 <= i < |parts[1..]| ==> parts[1..][i] == parts[i + 1];
      ValueOfPart(parts[1..], name, if k == 0 then |parts| else k - 1, next);
    }
  }

  lemma {:induction false} MemberOfPart(parts: seq<Pairs>, p: (string, string), k: nat)
    requires ShortParts(parts) && NameAt(parts, p.0, k)
    ensures p in Flatten(parts) <==> k < |parts| && p in parts[k]
  {
    if parts != [] {
      assert forall i :: 0 <= i < |parts[1..]| ==> parts[1..][i] == parts[i + 1];
      MemberOfPart(parts[1..], p, if k == 0 then |parts| else k - 1);
      assert p in Flatten(parts) <==> p in parts[0] || p in Flatten(parts[1..]);
    }
  }

  lemma ListNames()
    ensures "prefix"[0] == 'p' && "delimiter"[0] == 'd' && "max-keys"[0] == 'm' && "max-keys"[2] == 'x'
    ensures "continuation-token"[0] == 'c' && "start-after"[0] == 's' && "encoding-type"[0] == 'e'
    ensures "marker"[0] == 'm' && "marker"[2] == 'r' && "list-type"[0] == 'l'
  {
  }

  /** Each name in its own place. */
  predicate InPlace(parts: seq<Pairs>) {
    && |parts| == 8 && ShortParts(parts)
    && NameAt(parts, "prefix", 0) && NameAt(parts, "delimiter", 1) && NameAt(parts, "max-keys", 2)
    && NameAt(parts, "continuation-token", 3) && NameAt(parts, "start-after", 4) && NameAt(parts, "encoding-type", 5)
    && NameAt(parts, "marker", 6) && NameAt(parts, "list-type", 7)
  }

  /** What a name is given in one part. */
  function ValueIn(part: Pairs, name: string): Option<string> {
    if part != [] && part[0].0 == name then Some(part[0].1) else None
  }

  lemma {:induction false} ReadAt(parts: seq<Pairs>, name: string, k: nat)
    requires ShortParts(parts) && NameAt(parts, name, k) && k < |parts|
    ensures LastValue(Flatten(parts), name, None) == ValueIn(parts[k], name)
  {
    ValueOfPart(parts, name, k, None);
  }

  /** Whatever is written for a name in its place is read as that parameter. */
  lemma {:induction false} ReadFromParts(parts: seq<Pairs>)
    requires InPlace(parts)
    ensures ListParamsOf(Flatten(parts))
         == ListParams(OrElse(ValueIn(parts[0], "prefix"), ""), OrElse(ValueIn(parts[1], "delimiter"), ""),
                       MaxKeysOf(ValueIn(parts[2], "max-keys")), ValueIn(parts[3], "continuation-token"),
                       ValueIn(parts[4], "start-after"), ValueIn(parts[5], "encoding-type"), ValueIn(parts[6], "marker"),
                       ("list-type", "2") in parts[7])
  {
    ReadAt(parts, "prefix", 0);
    ReadAt(parts, "delimiter", 1);
    ReadAt(parts, "max-keys", 2);
    ReadAt(parts, "continuation-token", 3);
    ReadAt(parts, "start-after", 4);
    ReadAt(parts, "encoding-type", 5);
    ReadAt(parts, "marker", 6);
    MemberOfPart(parts, ("list-type", "2"), 7);
  }

  lemma {:induction false} WrittenInPlace(p: ListParams)
    ensures InPlace(WrittenParams(p))
  {
    ListNames();
  }

  /** A listing's parameters are read back from the query that spells them, for every page size the service allows. */
  lemma {:induction false} ListParamsReadBack(p: ListParams)
    requires p.maxKeys <= 1000
    ensures ListParamsOf(QueryPairs(Some(Serialize(Flatten(WrittenParams(p)))))) == p
  {
    WrittenReads(p);
    ParseSerialize(Flatten(WrittenParams(p)));
  }

  lemma {:induction false} WrittenReads(p: ListParams)
    requires p.maxKeys <= 1000
    ensures ListParamsOf(Flatten(WrittenParams(p))) == p
  {
    WrittenInPlace(p);
    ReadFromParts(WrittenParams(p));
    ParsePrinted(p.maxKeys, USIZE_BOUND);
  }

  /** A query without any of these names asks for the first thousand keys of everything, in version 1. */
  lemma NothingAsked()
    ensures ListParamsOf([]) == ListParams("", "", 1000, None, None, None, None, false)
  {
  }

  function Later<T>(later: Option<T>, earlier: Option<T>): Option<T> {
    if later.Some? then later else earlier
  }

  lemma {:induction false} ReadAfter(earlier: Pairs, parts: seq<Pairs>, name: string, k: nat)
    requires ShortParts(parts) && NameAt(parts, name, k) && k < |parts|
    ensures LastValue(earlier + Flatten(parts), name, None) == Later(ValueIn(parts[k], name), LastValue(earlier, name, None))
  {
    LastValueConcat(earlier, Flatten(parts), name, None);
    ValueOfPart(parts, name, k, LastValue(earlier, name, None));
  }

  lemma {:induction false} ReadFromPartsAfter(earlier: Pairs, parts: seq<Pairs>)
    requires InPlace(parts) && parts[0] != [] && parts[0][0].0 == "prefix" && parts[1] != [] && parts[1][0].0 == "delimiter"
    requires parts[2] != [] && parts[2][0].0 == "max-keys"
    ensures var r, e, p := ListParamsOf(earlier + Flatten(parts)), ListParamsOf(earlier), ListParamsOf(Flatten(parts));
            r == ListParams(p.prefix, p.delimiter, p.maxKeys, Later(p.continuationToken, e.continuationToken),
                            Later(p.startAfter, e.startAfter), Later(p.encodingType, e.encodingType), Later(p.marker, e.marker),
                            p.isV2 || e.isV2)
  {
    ReadFromParts(parts);
    ReadAfter(earlier, parts, "prefix", 0);
    ReadAfter(earlier, parts, "delimiter", 1);
    ReadAfter(earlier, parts, "max-keys", 2);
    ReadAfter(earlier, parts, "continuation-token", 3);
    ReadAfter(earlier, parts, "start-after", 4);
    ReadAfter(earlier, parts, "encoding-type", 5);
    ReadAfter(earlier, parts, "marker", 6);
    MemberOfPart(parts, ("list-type", "2"), 7);
    assert ("list-type", "2") in earlier + Flatten(parts) <==> ("list-type", "2") in earlier || ("list-type", "2") in Flatten(parts);
  }

  /** Of a name given more than once the last value is read, and asking for version 2 once is enough. */
  lemma {:induction false} LaterParamsWin(earlier: Pairs, p: ListParams)
    requires p.maxKeys <= 1000
    ensures var r, e := ListParamsOf(earlier + Flatten(WrittenParams(p))), ListParamsOf(earlier);
            r == ListParams(p.prefix, p.delimiter, p.maxKeys, Later(p.continuationToken, e.continuationToken),
                            Later(p.startAfter, e.startAfter), Later(p.encodingType, e.encodingType), Later(p.marker, e.marker),
                            p.isV2 || e.isV2)
  {
    WrittenInPlace(p);
    WrittenReads(p);
    ReadFromPartsAfter(earlier, WrittenParams(p));
  }

  /** A printed number is read if it is below the bound, with or without a plus sign, and is no number otherwise. */
  lemma {:induction false} BoundedNumber(n: nat, bound: nat)
    ensures ParseUnsigned(PrintNat(n), bound) == if n < bound then Some(n) else None
    ensures ParseUnsigned("+" + PrintNat(n), bound) == if n < bound then Some(n) else None
    ensures ParseUnsigned("", bound) == None
  {
    DigitsOfPrinted(n);
    StartsWithPlus(PrintNat(n));
    var plus := "+" + PrintNat(n);
    assert "+" <= plus && plus[|"+"|..] == PrintNat(n);
  }

  /** The page size is the number asked for, a thousand at most, and a thousand if none can be read. */
  lemma {:induction false} PageSize(n: nat, text: string)
    requires n < 0x1_0000_0000_0000_0000
    ensures MaxKeysOf(None) == 1000
    ensures MaxKeysOf(Some(PrintNat(n))) == if n < 1000 then n else 1000
    ensures (text == "" || exists i :: 1 <= i < |text| && !('0' <= text[i] <= '9')) ==> MaxKeysOf(Some(text)) == 1000
  {
    ParsePrinted(n, USIZE_BOUND);
    if i :| 1 <= i < |text| && !('0' <= text[i] <= '9') {
      var digits := StripPrefixOrSelf(text, "+");
      if "+" <= text {
        assert digits[i - 1] == text[i];
        NotDigits(digits, i - 1);
      } else {
        NotDigits(digits, i);
      }
    }
  }

  lemma {:induction false} NotDigits(s: string, i: nat)
    requires i < |s| && !IsDigit(s[i])
    ensures DigitsValue(s) == None
  {
    if i < |s| - 1 {
      assert s[..|s| - 1][i] == s[i];
      NotDigits(s[..|s| - 1], i);
    }
  }
}
