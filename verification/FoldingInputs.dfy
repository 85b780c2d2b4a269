/** Queries on which folding the list prefix keeps the listing, and on which it does not. */
module FoldingInputs {
  import opened Text
  import opened Percent
  import Utf8
  import opened Keys
  import opened Query
  import opened Listing
  import opened PrefixView
  import opened PathMapping
  import opened PrefixFolding
  import opened FirstKeys
  import opened FolderListing
  import opened FoldedListing

  // ---- Queries.

  /** A version 2 listing with these prefix parameters, from an offset on. */
  function ListQuery(values: seq<string>, after: Option<string>): string {
    Join(ListSegments(values, after), "&")
  }

  function ListSegments(values: seq<string>, after: Option<string>): seq<string> {
    [ListType("2")] + (PrefixSegments(values) + OffsetSegment(after))
  }

  function ListType(version: string): string {
    "list-type=" + version
  }

  function OffsetSegment(after: Option<string>): seq<string> {
    if after.None? then [] else [StartAfter(after.value)]
  }

  function StartAfter(v: string): string {
    "start-after=" + v
  }

  function PrefixSegments(values: seq<string>): (r: seq<string>)
    ensures |r| == |values|
    ensures forall i :: 0 <= i < |values| ==> r[i] == PrefixSegment(values[i])
  {
    if values == [] then [] else [PrefixSegment(values[0])] + PrefixSegments(values[1..])
  }

  /** The offset as the list parser reads it. */
  function ReadOffset(after: Option<string>): Option<string> {
    if after.None? then None else Some(FormDecode(after.value))
  }

  predicate Unsplit(values: seq<string>, after: Option<string>) {
    && (forall i :: 0 <= i < |values| ==> '&' !in values[i])
    && (after.Some? ==> '&' !in after.value)
  }

  lemma {:induction false} ListSegmentsFree(values: seq<string>, after: Option<string>)
    requires Unsplit(values, after)
    ensures forall p :: p in ListSegments(values, after) ==> FreeOf(p, "&")
  {
    forall p | p in ListSegments(values, after)
      ensures FreeOf(p, "&")
    {
      FreeOfChar(p, '&');
    }
  }

  lemma {:induction false} ListTypeName(seg: string, version: string)
    requires seg == ListType(version)
    ensures SplitOnce(seg, "=") == Some(("list-type", version))
    ensures SegmentPair(seg) == ("list-type", FormDecode(version)) && !NamesPrefix(seg)
  {
    FreeOfChar("list-type", '=');
    assert seg == "list-type" + "=" + version;
    SplitOnceAfterFree("list-type", "=", version);
    PlainSegment("list-type", version);
  }

  lemma {:induction false} StartAfterName(seg: string, v: string)
    requires seg == StartAfter(v)
    ensures SegmentPair(seg) == ("start-after", FormDecode(v)) && !NamesPrefix(seg)
  {
    assert seg == "start-after" + "=" + v;
    PlainSegment("start-after", v);
  }

  lemma {:induction false} FirstOfPrefixes(values: seq<string>, tail: seq<string>)
    requires values != []
    ensures FirstParam(PrefixSegments(values) + tail, "prefix") == Some(values[0])
  {
    FreeOfChar("prefix", '=');
    SplitOnceAfterFree("prefix", "=", values[0]);
    assert "prefix" + "=" + values[0] == PrefixSegment(values[0]);
  }

  lemma {:induction false} LastOfPrefixes(values: seq<string>, after: Option<string>, current: Option<string>)
    ensures LastPrefixSegment(PrefixSegments(values) + OffsetSegment(after), current)
         == if values == [] then current else Some(PrefixSegment(values[|values| - 1]))
  {
    if values != [] {
      PrefixNamed(PrefixSegment(values[0]));
      LastOfPrefixes(values[1..], after, Some(PrefixSegment(values[0])));
      TailOfPrefixes(values, after);
    } else if after.Some? {
      StartAfterName(StartAfter(after.value), after.value);
      assert PrefixSegments(values) + OffsetSegment(after) == [StartAfter(after.value)];
    }
  }

  lemma {:induction false} TailOfPrefixes(values: seq<string>, after: Option<string>)
    requires values != []
    ensures var segs := PrefixSegments(values) + OffsetSegment(after);
            segs[0] == PrefixSegment(values[0]) && segs[1..] == PrefixSegments(values[1..]) + OffsetSegment(after)
  {
    assert PrefixSegments(values)[1..] == PrefixSegments(values[1..]);
  }

  lemma {:induction false} SkipFirst(seg: string, rest: seq<string>)
    requires !NamesPrefix(seg) && SplitOnce(seg, "=").Some? && SplitOnce(seg, "=").value.0 != "prefix"
    ensures FirstParam([seg] + rest, "prefix") == FirstParam(rest, "prefix")
    ensures LastPrefixSegment([seg] + rest, None) == LastPrefixSegment(rest, None)
  {
    assert ([seg] + rest)[1..] == rest;
  }

  lemma {:induction false} ListQueryParts(values: seq<string>, after: Option<string>)
    requires values != [] && Unsplit(values, after)
    ensures var query := ListQuery(values, after);
            && Split(query, "&") == ListSegments(values, after) && IsListRequest(query)
            && ExtractQueryParam(query, "prefix") == Some(Utf8.DecodeLossy(PercentDecode(values[0])))
            && LastPrefixSegment(Split(query, "&"), None) == Some(PrefixSegment(values[|values| - 1]))
  {
    var segs := ListSegments(values, after);
    ListSegmentsFree(values, after);
    SplitJoin(segs, "&");
    assert segs[0] in segs && "list-type=" <= segs[0];
    ListTypeName(segs[0], "2");
    FirstOfPrefixes(values, OffsetSegment(after));
    LastOfPrefixes(values, after, None);
    SkipFirst(segs[0], PrefixSegments(values) + OffsetSegment(after));
  }

  function OffsetPairs(after: Option<string>): Pairs {
    if after.None? then [] else [("start-after", FormDecode(after.value))]
  }

  lemma {:induction false} OthersOfPrefixes(values: seq<string>, after: Option<string>)
    ensures Others(SegmentPairs(PrefixSegments(values) + OffsetSegment(after))) == OffsetPairs(after)
  {
    var segs := PrefixSegments(values) + OffsetSegment(after);
    if values != [] {
      PrefixNamed(PrefixSegment(values[0]));
      TailOfPrefixes(values, after);
      OthersOfPrefixes(values[1..], after);
      OthersCons(SegmentPair(segs[0]), SegmentPairs(segs[1..]));
    } else if after.Some? {
      StartAfterName(segs[0], after.value);
      assert segs == [StartAfter(after.value)] && segs[1..] == [];
      OthersCons(SegmentPair(segs[0]), []);
    }
  }

  /** Such a listing asks for nothing but its prefix and its offset. */
  lemma {:induction false} ListQueryAsks(values: seq<string>, after: Option<string>)
    requires values != [] && Unsplit(values, after)
    ensures var asked := ListParamsOf(QueryPairs(Some(ListQuery(values, after))));
            asked.continuationToken.None? && AfterOf(asked) == ReadOffset(after)
  {
    var pairs := Query.Parse(ListQuery(values, after));
    var segs := ListSegments(values, after);
    ListQueryParts(values, after);
    ListTypeName(segs[0], "2");
    FormDecodePlain("2");
    OthersOfPrefixes(values, after);
    assert segs[1..] == PrefixSegments(values) + OffsetSegment(after);
    OthersCons(("list-type", "2"), SegmentPairs(segs[1..]));
    OthersDecide(pairs, "continuation-token", None);
    OthersDecide(pairs, "start-after", None);
    OthersHold(pairs, ("list-type", "2"));
    ReadTwo(OffsetPairs(after));
  }

  lemma {:induction false} ReadTwo(tail: Pairs)
    requires tail == [] || (|tail| == 1 && tail[0].0 == "start-after")
    ensures var pairs := [("list-type", "2")] + tail;
            && LastValue(pairs, "continuation-token", None) == None && ("list-type", "2") in pairs
            && LastValue(pairs, "start-after", None) == if tail == [] then None else Some(tail[0].1)
  {
    var pairs := [("list-type", "2")] + tail;
    assert pairs[1..] == tail;
    ReadTail(tail, "continuation-token");
    ReadTail(tail, "start-after");
  }

  lemma {:induction false} ReadTail(tail: Pairs, name: string)
    requires |tail| <= 1
    ensures LastValue(tail, name, None) == if tail != [] && tail[0].0 == name then Some(tail[0].1) else None
  {
  }

  // ---- Inputs.

  predicate PlainText(s: string) {
    '%' !in s && '+' !in s && '&' !in s
  }

  lemma {:induction false} PlainDecodes(s: string)
    requires '%' !in s
    ensures Utf8.DecodeLossy(PercentDecode(s)) == s
  {
    DecodePlain(s, "");
    assert s + "" == s && Utf8.Encode(s) + PercentDecode("") == Utf8.Encode(s);
    Utf8.DecodeEncode(s);
  }

  predicate ProductName(product: string, c: char) {
    PlainText(product) && '/' !in product && c !in product && !DegenerateSegment(product)
  }

  /** The mapping of accounts and products, and an account whose name can be told apart. */
  predicate AccountMapping(m: PathMapping, account: string, c: char) {
    m == PathMapping(2, [c], 1) && c != '/' && account != "" && '/' !in account && c !in account
  }

  /** One prefix parameter `v`, which the fold reads as product and remainder, and an offset. */
  lemma {:induction false} OneInput(m: PathMapping, account: string, c: char, v: string, after: Option<string>, product: string,
                                    rest: string)
    requires AccountMapping(m, account, c) && ProductName(product, c)
    requires Unsplit([v], after) && Utf8.DecodeLossy(PercentDecode(v)) == product + "/" + rest
    ensures KeepsListing(m, account, ListQuery([v], after))
            <==> '+' !in v && !HasEscape(rest) && SameFirstKey(product + "/", ReadOffset(after), rest)
  {
    var query := ListQuery([v], after);
    ListQueryParts([v], after);
    ListQueryAsks([v], after);
    ListTypeName(ListSegments([v], after)[0], "2");
    if after.Some? {
      StartAfterName(ListSegments([v], after)[2], after.value);
    }
    OneAmong(ListSegments([v], after), v);
    PartsOf(product, rest);
    FoldingKeepsListing(m, account, c, query, v);
  }

  lemma OneAmong(segs: seq<string>, v: string)
    requires 2 <= |segs| <= 3 && !NamesPrefix(segs[0]) && segs[1] == PrefixSegment(v) && (|segs| == 3 ==> !NamesPrefix(segs[2]))
    ensures AllPrefixesAre(segs, v)
  {
  }

  /** `prefix=b/x+y` asks for `b/x y`, and the folded query for `x+y`. */
  lemma {:induction false} PlusInput(m: PathMapping, account: string, c: char, product: string, a: string, b: string)
    requires AccountMapping(m, account, c) && ProductName(product, c) && PlainText(a) && PlainText(b)
    ensures !KeepsListing(m, account, ListQuery([product + "/" + (a + "+" + b)], None))
  {
    var v := product + "/" + (a + "+" + b);
    assert v[|product| + 1 + |a|] == '+';
    PlainDecodes(v);
    OneInput(m, account, c, v, None, product, a + "+" + b);
  }

  /**
    A client that resumes after a key it was shown, `prefix=b/&start-after=b/m` say, has the
    folder taken off its prefix but not off the key, and is shown other keys.
   */
  lemma {:induction false} ResumeInput(m: PathMapping, account: string, c: char, v: string, after: string, product: string,
                                       rest: string, k: string)
    requires AccountMapping(m, account, c) && ProductName(product, c)
    requires Unsplit([v], Some(after)) && Utf8.DecodeLossy(PercentDecode(v)) == product + "/" + rest
    requires FormDecode(after) == product + "/" + k && IsPath(k) && rest <= k
    ensures !KeepsListing(m, account, ListQuery([v], Some(after)))
  {
    ProductFolder(product);
    PathIsRooted(k);
    PathBehind(product + "/", k);
    ResumingDiffers(product + "/", k, rest);
    OneInput(m, account, c, v, Some(after), product, rest);
  }

  /** Of two prefix parameters the fold reads the first and the list parser the last: plain ones must be equal. */
  lemma {:induction false} DisagreeingInput(m: PathMapping, account: string, c: char, product: string, first: string, last: string)
    requires AccountMapping(m, account, c) && ProductName(product, c) && PlainText(first) && PlainText(last)
    ensures KeepsListing(m, account, ListQuery([product + "/" + first, product + "/" + last], None)) <==> first == last
  {
    var v1, v2 := product + "/" + first, product + "/" + last;
    PlainDecodes(v1);
    FormDecodePlain(v2);
    PartsOf(product, first);
    NoEscapeInPlain(first);
    ValueSurvivesExactly(first);
    TwoInput(m, account, c, v1, v2, product, first);
    ConcatCancels(product + "/", last, first);
  }

  lemma {:induction false} TwoInput(m: PathMapping, account: string, c: char, v1: string, v2: string, product: string, first: string)
    requires AccountMapping(m, account, c) && ProductName(product, c) && '&' !in v1 && '&' !in v2
    requires v1 != "" && FoldParts(v1) == (product, first) && Received(first) == first
    requires Utf8.DecodeLossy(PercentDecode(v1)) == v1 && FormDecode(v2) == v2
    ensures KeepsListing(m, account, ListQuery([v1, v2], None)) <==> v2 == product + "/" + first
  {
    TwoPrefixes(v1, v2);
    ListQueryAsks([v1, v2], None);
    FoldingExactly(m, account, c, ListQuery([v1, v2], None), v1);
  }

  lemma {:induction false} TwoPrefixes(v1: string, v2: string)
    requires '&' !in v1 && '&' !in v2
    ensures var query := ListQuery([v1, v2], None);
            var last := LastPrefixSegment(Split(query, "&"), None);
            && IsListRequest(query)
            && ExtractQueryParam(query, "prefix") == Some(Utf8.DecodeLossy(PercentDecode(v1)))
            && last.Some? && "prefix=" <= last.value && last.value[7..] == v2
  {
    ListQueryParts([v1, v2], None);
    assert PrefixSegment(v2)[7..] == v2;
  }

  lemma {:induction false} PartsOf(product: string, rest: string)
    requires '/' !in product
    ensures FoldParts(product + "/" + rest) == (product, rest) && '/' in product + "/" + rest
  {
    FreeOfChar(product, '/');
    SplitOnceAfterFree(product, "/", rest);
    assert (product + "/" + rest)[|product|] == '/';
  }

  lemma {:induction false} NoEscapeInPlain(s: string)
    requires '%' !in s
    ensures !HasEscape(s)
  {
    if s != "" {
      NoEscapeInPlain(s[1..]);
    }
  }

  /** A client that percent-encodes its prefix gets the listing it asked for exactly when the remainder holds no escape itself. */
  lemma {:induction false} EncodedInput(m: PathMapping, account: string, c: char, product: string, rest: string)
    requires AccountMapping(m, account, c) && ProductName(product, c)
    ensures KeepsListing(m, account, ListQuery([product + "/" + PercentEncode(StrictPath, rest)], None)) <==> !HasEscape(rest)
  {
    var e := PercentEncode(StrictPath, rest);
    EncodedChars(StrictPath, rest);
    HalfEncoded(product + "/", rest);
    SpelledInput(m, account, c, product, e, rest);
  }

  lemma {:induction false} SpelledInput(m: PathMapping, account: string, c: char, product: string, e: string, rest: string)
    requires AccountMapping(m, account, c) && ProductName(product, c) && '&' !in e && '+' !in e
    requires Utf8.DecodeLossy(PercentDecode(product + "/" + e)) == product + "/" + rest
    ensures KeepsListing(m, account, ListQuery([product + "/" + e], None)) <==> !HasEscape(rest)
  {
    OneInput(m, account, c, product + "/" + e, None, product, rest);
  }

  lemma {:induction false} HalfEncoded(plain: string, rest: string)
    requires '%' !in plain
    ensures Utf8.DecodeLossy(PercentDecode(plain + PercentEncode(StrictPath, rest))) == plain + rest
  {
    var e := PercentEncode(StrictPath, rest);
    DecodePlain(plain, e);
    DecodeEncodeBytes(StrictPath, rest, "");
    assert e + "" == e && Utf8.Encode(rest) + PercentDecode("") == Utf8.Encode(rest);
    Utf8.EncodeConcat(plain, rest);
    Utf8.DecodeEncode(plain + rest);
  }
}
