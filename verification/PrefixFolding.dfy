/**
  Folding the first component of a list prefix into the bucket name: what the rewritten query
  asks for, and when the folded name is taken apart again.
 */
module PrefixFolding {
  import opened Text
  import opened Percent
  import Utf8
  import opened Types
  import opened Keys
  import opened Query
  import opened Requests
  import opened PathMapping

  /** The pairs of a query with the `prefix=` segments replaced. */
  function ReplacedPairs(segs: seq<string>, rest: string): Pairs {
    if segs == [] then []
    else (if segs[0] == "" then [] else if "prefix=" <= segs[0] then [("prefix", rest)] else [SegmentPair(segs[0])])
         + ReplacedPairs(segs[1..], rest)
  }

  /** What a value written with the query-value set is read as downstream. */
  function Received(value: string): string {
    FormDecode(PercentEncode(QueryValue, value))
  }

  /** A value is received as it was sent exactly when it holds no escape. */
  lemma {:induction false} ValueSurvivesExactly(value: string)
    ensures Received(value) == value <==> !HasEscape(value)
    ensures '=' !in PercentEncode(QueryValue, value) && '&' !in PercentEncode(QueryValue, value)
  {
    EncodedChars(QueryValue, value);
    PlusToSpaceNoPlus(PercentEncode(QueryValue, value));
    QueryValueRoundTrip(value);
    QueryValueShrinks(value);
    Utf8.DecodeEncode(value);
  }

  function PrefixSegment(encoded: string): string {
    "prefix=" + encoded
  }

  lemma {:induction false} PrefixSegmentPair(value: string)
    ensures SegmentPair(PrefixSegment(PercentEncode(QueryValue, value))) == ("prefix", Received(value))
  {
    var e := PercentEncode(QueryValue, value);
    PlainSegment("prefix", e);
    assert "prefix" + "=" + e == PrefixSegment(e);
  }

  lemma {:induction false} ReplacedSegments(segs: seq<string>, rest: string)
    ensures SegmentPairs(ReplacePrefix(segs, PercentEncode(QueryValue, rest))) == ReplacedPairs(segs, Received(rest))
  {
    if segs != [] {
      var e := PercentEncode(QueryValue, rest);
      ReplacedSegments(segs[1..], rest);
      PrefixSegmentPair(rest);
      var r := ReplacePrefix(segs, e);
      assert r[1..] == ReplacePrefix(segs[1..], e);
      assert "prefix=" <= segs[0] ==> r[0] == PrefixSegment(e);
      assert "prefix=" + e != "";
    }
  }

  lemma {:induction false} ReplacedFree(segs: seq<string>, e: string)
    requires '&' !in e && forall p :: p in segs ==> '&' !in p
    ensures forall p :: p in ReplacePrefix(segs, e) ==> FreeOf(p, "&")
  {
    if segs != [] {
      assert segs[0] in segs;
      ReplacedFree(segs[1..], e);
      FreeOfChar(segs[0], '&');
      FreeOfChar("prefix=" + e, '&');
    }
  }

  /** Downstream, the rewritten query has the same parameters in the same order, the prefix aside. */
  lemma {:induction false} RewrittenQuery(query: string, rest: string)
    ensures Query.Parse(RewritePrefixInQuery(query, rest)) == ReplacedPairs(Split(query, "&"), Received(rest))
  {
    var segs, e := Split(query, "&"), PercentEncode(QueryValue, rest);
    SplitCharParts(query, '&');
    ValueSurvivesExactly(rest);
    ReplacedFree(segs, e);
    SplitJoin(ReplacePrefix(segs, e), "&");
    ReplacedSegments(segs, rest);
  }

  lemma {:induction false} PlainSegment(name: string, v: string)
    requires '=' !in name && '%' !in name && '+' !in name
    ensures SegmentPair(name + "=" + v) == (name, FormDecode(v))
  {
    FreeOfChar(name, '=');
    SplitOnceAfterFree(name, "=", v);
    FormDecodePlain(name);
  }

  lemma {:induction false} PrefixNamed(seg: string)
    requires "prefix=" <= seg
    ensures SegmentPair(seg) == ("prefix", FormDecode(seg[7..])) && NamesPrefix(seg)
  {
    PlainSegment("prefix", seg[7..]);
    assert seg == "prefix" + "=" + seg[7..];
  }

  lemma {:induction false} UnmappedAccount(m: PathMapping, account: string)
    requires m.Valid() && m.bucketSegments == 2 && account != "" && '/' !in account
    ensures m.Parse("/" + account) == None
    ensures TrimStart(TrimEnd("/" + account, '/'), '/') == account
  {
    FreeOfChar(account, '/');
    FindNoneOfFree(account, "/");
    assert ("/" + account)[1..] == account;
    TrimEndOfTrimmed("/" + account, '/');
    TrimStartOfTrimmed(account, '/');
  }

  // ---- What the list parser reads.

  predicate NamesPrefix(seg: string) {
    seg != "" && SegmentPair(seg).0 == "prefix"
  }

  /** The last segment that names the prefix, however it spells the name. */
  function LastPrefixSegment(segs: seq<string>, current: Option<string>): Option<string> {
    if segs == [] then current
    else LastPrefixSegment(segs[1..], if NamesPrefix(segs[0]) then Some(segs[0]) else current)
  }

  function ValueAfter(seg: Option<string>): Option<string> {
    if seg.None? then None else Some(SegmentPair(seg.value).1)
  }

  /** Its value once `prefix=` segments are replaced: only a plainly spelled one is. */
  function ReplacedValue(seg: Option<string>, v: string): Option<string> {
    if seg.None? then None else if "prefix=" <= seg.value then Some(v) else Some(SegmentPair(seg.value).1)
  }

  lemma {:induction false} ListedPrefix(segs: seq<string>, current: Option<string>)
    ensures LastValue(SegmentPairs(segs), "prefix", ValueAfter(current)) == ValueAfter(LastPrefixSegment(segs, current))
  {
    if segs != [] {
      var next := if NamesPrefix(segs[0]) then Some(segs[0]) else current;
      ListedPrefix(segs[1..], next);
      var q := SegmentPairs(segs);
      if segs[0] == "" {
        assert q == SegmentPairs(segs[1..]);
      } else {
        assert q[0] == SegmentPair(segs[0]) && q[1..] == SegmentPairs(segs[1..]);
      }
    }
  }

  lemma {:induction false} FoldedPrefix(segs: seq<string>, v: string, current: Option<string>)
    ensures LastValue(ReplacedPairs(segs, v), "prefix", ReplacedValue(current, v))
         == ReplacedValue(LastPrefixSegment(segs, current), v)
  {
    if segs != [] {
      var next := if NamesPrefix(segs[0]) then Some(segs[0]) else current;
      FoldedPrefix(segs[1..], v, next);
      var q := ReplacedPairs(segs, v);
      if segs[0] == "" {
        assert q == ReplacedPairs(segs[1..], v);
      } else {
        if "prefix=" <= segs[0] {
          PrefixNamed(segs[0]);
        }
        assert q[1..] == ReplacedPairs(segs[1..], v);
      }
    }
  }

  /** The parameters that are not the prefix. */
  function Others(pairs: Pairs): Pairs {
    if pairs == [] then []
    else if pairs[0].0 == "prefix" then Others(pairs[1..])
    else [pairs[0]] + Others(pairs[1..])
  }

  lemma {:induction false} OthersKept(segs: seq<string>, v: string)
    ensures Others(ReplacedPairs(segs, v)) == Others(SegmentPairs(segs))
  {
    if segs != [] {
      OthersKept(segs[1..], v);
      var p, q := ReplacedPairs(segs[1..], v), SegmentPairs(segs[1..]);
      if segs[0] == "" {
        assert ReplacedPairs(segs, v) == p && SegmentPairs(segs) == q;
      } else {
        if "prefix=" <= segs[0] {
          PrefixNamed(segs[0]);
        }
        OthersCons(("prefix", v), p);
        OthersCons(SegmentPair(segs[0]), p);
        OthersCons(SegmentPair(segs[0]), q);
      }
    }
  }

  lemma {:induction false} OthersCons(pair: (string, string), rest: Pairs)
    ensures Others([pair] + rest) == if pair.0 == "prefix" then Others(rest) else [pair] + Others(rest)
  {
    assert ([pair] + rest)[1..] == rest;
  }

  // ---- The internal bucket.

  lemma {:induction false} SplitCount(x: string, c: char)
    ensures |Split(x, [c])| == 1 <==> c !in x
    ensures c !in x ==> Split(x, [c]) == [x]
  {
    FindChar(x, c);
  }

  /** The folded name is taken apart again exactly when neither part holds the separator and the product is named. */
  lemma {:induction false} FoldedNameExactly(m: PathMapping, account: string, product: string, c: char)
    requires m == PathMapping(2, [c], 1) && account != ""
    ensures var r := m.ParseBucketName(account + [c] + product);
            && (r.Some? <==> c !in account && c !in product && product != "")
            && (r.Some? ==> r.value.keyPrefix == product + "/" && r.value.displayBucket == account)
  {
    SplitConcat(account, c, product);
    SplitCount(account, c);
    SplitCount(product, c);
    var segs := Split(account, [c]) + Split(product, [c]);
    if c !in account && c !in product {
      assert segs == [account, product];
      assert segs[1..] == [product] && segs[..1] == [account];
    }
  }

  // ---- The whole rewrite.

  /** The component that goes into the bucket name, and what remains of the prefix. */
  function FoldParts(prefix: string): (string, string) {
    match SplitOnce(prefix, "/")
    case Some((product, rest)) => (product, rest)
    case None => (prefix, "")
  }

  lemma {:induction false} FoldPartsSpell(prefix: string)
    ensures var (product, rest) := FoldParts(prefix);
            && '/' !in product
            && ('/' in prefix <==> prefix == product + "/" + rest)
            && ('/' !in prefix ==> product == prefix && rest == "")
  {
    FindChar(prefix, '/');
    if '/' in prefix {
      var i := Find(prefix, "/").value;
      assert prefix == prefix[..i] + "/" + prefix[i + 1..];
    }
  }

  lemma {:induction false} FoldedRequest(m: PathMapping, account: string, query: string, prefix: string)
    requires m.bucketSegments == 2 && m.Valid() && account != "" && '/' !in account
    requires IsListRequest(query) && ExtractQueryParam(query, "prefix") == Some(prefix) && prefix != ""
    ensures var (product, rest) := FoldParts(prefix);
            var r := m.RewriteRequest("/" + account, Some(query));
            r.path == "/" + account + m.bucketSeparator + product && r.query == Some(RewritePrefixInQuery(query, rest))
  {
    UnmappedAccount(m, account);
  }

  /** What the two queries ask for. */
  lemma {:induction false} FoldAsked(query: string, rest: string)
    ensures var last := LastPrefixSegment(Split(query, "&"), None);
            var folded := Query.Parse(RewritePrefixInQuery(query, rest));
            && LastValue(Query.Parse(query), "prefix", None) == ValueAfter(last)
            && LastValue(folded, "prefix", None) == ReplacedValue(last, Received(rest))
            && Others(folded) == Others(Query.Parse(query))
  {
    var segs := Split(query, "&");
    RewrittenQuery(query, rest);
    ListedPrefix(segs, None);
    FoldedPrefix(segs, Received(rest), None);
    OthersKept(segs, Received(rest));
  }

  lemma AskedExactly(last: Option<string>, product: string, rest: string)
    ensures var asked := ReplacedValue(last, Received(rest));
            asked.Some? && ValueAfter(last) == Some(product + "/" + asked.value)
            <==> last.Some? && "prefix=" <= last.value && SegmentPair(last.value).1 == product + "/" + Received(rest)
  {
    if last.Some? {
      var value := SegmentPair(last.value).1;
      assert |product + "/" + value| > |value|;
    }
  }

  lemma {:induction false} FoldedTarget(account: string, product: string, c: char)
    requires account != "" && '/' !in account && '/' !in product && c != '/'
    ensures ParsePathStyle("/" + account + [c] + product) == Ok((account + [c] + product, ""))
  {
    assert "/" + (account + [c] + product) == "/" + account + [c] + product;
    ParsePathOf(account + [c] + product, "");
  }

  // ---- Queries whose prefix parameters agree.

  /** Every prefix parameter is `prefix=` followed by the same text. */
  predicate AllPrefixesAre(segs: seq<string>, v: string) {
    forall i :: 0 <= i < |segs| && NamesPrefix(segs[i]) ==> segs[i] == "prefix=" + v
  }

  lemma {:induction false} LastAmongEqual(segs: seq<string>, v: string, current: Option<string>)
    requires AllPrefixesAre(segs, v) && (current.Some? ==> current.value == "prefix=" + v)
    ensures var last := LastPrefixSegment(segs, current); last.Some? ==> last.value == "prefix=" + v
    ensures FirstParam(segs, "prefix").Some? ==> FirstParam(segs, "prefix").value == v
    ensures FirstParam(segs, "prefix").Some? || current.Some? ==> LastPrefixSegment(segs, current).Some?
  {
    if segs != [] {
      var next := if NamesPrefix(segs[0]) then Some(segs[0]) else current;
      assert forall i :: 0 <= i < |segs[1..]| ==> segs[1..][i] == segs[i + 1];
      LastAmongEqual(segs[1..], v, next);
      RawName(segs[0], v);
    }
  }

  /** A segment that spells the name plainly names the prefix. */
  lemma {:induction false} RawName(seg: string, v: string)
    ensures var r := SplitOnce(seg, "=");
            r.Some? && r.value.0 == "prefix" ==>
              NamesPrefix(seg) && "prefix=" <= seg && (seg == "prefix=" + v ==> r.value.1 == v)
  {
    var r := SplitOnce(seg, "=");
    if r.Some? && r.value.0 == "prefix" {
      FindChar(seg, '=');
      var i := Find(seg, "=").value;
      assert seg[..i] == "prefix" && seg[i] == '=';
      assert seg[..7] == "prefix=";
      PrefixNamed(seg);
      assert r.value.1 == seg[7..];
    }
  }

  /** Of two readings as long as each other, one spelled out by the parts, the other by what is received of them. */
  lemma {:induction false} PlainReading(prefix: string, product: string, rest: string, other: string)
    requires |other| == |prefix|
    requires '/' in prefix <==> prefix == product + "/" + rest
    requires '/' !in prefix ==> product == prefix && rest == ""
    ensures other == product + "/" + Received(rest)
            <==> '/' in prefix && other == prefix && !HasEscape(rest)
  {
    ReceivedLength(rest);
    ValueSurvivesExactly(rest);
  }

  lemma {:induction false} ReceivedLength(rest: string)
    ensures |Received(rest)| <= |rest| && (HasEscape(rest) ==> |Received(rest)| < |rest|)
  {
    EncodedChars(QueryValue, rest);
    PlusToSpaceNoPlus(PercentEncode(QueryValue, rest));
    QueryValueShrinks(rest);
  }
}
