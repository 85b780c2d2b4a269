/**
  LIST requests: one page of a backend listing shown through a backend prefix.
  The backend is a reference model of S3 listing; the gateway's part is everything from
  `HandleList` down.
 */
module Listing {
  import opened Text
  import opened Ordering
  import opened Percent
  import opened Types
  import opened Keys
  import opened Query

  // ---- The backend: keys with sizes, listed in order, grouped by a delimiter, cut into pages.

  type Store = map<string, nat>

  datatype Entry = Single(key: string) | Rolled(prefix: string)

  datatype Page = Page(objects: seq<string>, commons: seq<string>, truncated: bool)

  ghost function Selected(store: Store, prefix: string, after: Option<string>): set<string> {
    set k | k in store && prefix <= k && (after.None? || Less(after.value, k))
  }

  predicate AllUnder(keys: seq<string>, prefix: string) {
    forall i :: 0 <= i < |keys| ==> prefix <= keys[i]
  }

  /** The entry a key is listed as: itself, or everything up to the first delimiter after the prefix. */
  function Classify(key: string, prefix: string, delim: string): Entry
    requires prefix <= key
  {
    if delim == "" then Single(key)
    else
      match Find(key[|prefix|..], delim)
      case None => Single(key)
      case Some(i) => Rolled(key[..|prefix| + i + |delim|])
  }

  /** Neighbours rolled into the same common prefix are listed once. */
  function Group(keys: seq<string>, prefix: string, delim: string): seq<Entry>
    requires AllUnder(keys, prefix)
  {
    if keys == [] then []
    else
      var e := Classify(keys[0], prefix, delim);
      var rest := Group(keys[1..], prefix, delim);
      if e.Rolled? && rest != [] && rest[0] == e then rest else [e] + rest
  }

  function Singles(es: seq<Entry>): seq<string> {
    if es == [] then []
    else (if es[0].Single? then [es[0].key] else []) + Singles(es[1..])
  }

  function Rolls(es: seq<Entry>): seq<string> {
    if es == [] then []
    else (if es[0].Rolled? then [es[0].prefix] else []) + Rolls(es[1..])
  }

  function PageOf(keys: seq<string>, prefix: string, delim: string, max: nat): Page
    requires AllUnder(keys, prefix)
  {
    var es := Group(keys, prefix, delim);
    var shown := if |es| <= max then es else es[..max];
    Page(Singles(shown), Rolls(shown), |es| > max)
  }

  // ---- What is listed, and how often.

  /** What begins with two keys' common beginning and lies between them begins so too. */
  lemma {:induction false} PrefixBetween(p: string, a: string, k: string, b: string)
    requires p <= a && p <= b && Less(a, k) && Less(k, b)
    ensures p <= k
  {
    if p != "" {
      assert a[0] == p[0] && b[0] == p[0];
      assert p[1..] <= a[1..] && p[1..] <= b[1..];
      PrefixBetween(p[1..], a[1..], k[1..], b[1..]);
      assert p == [p[0]] + p[1..] && k == [k[0]] + k[1..];
    }
  }

  lemma {:induction false} SameFirst(s: string, t: string, delim: string, i: nat)
    requires delim != "" && Find(s, delim) == Some(i) && i + |delim| <= |s| && s[..i + |delim|] <= t
    ensures Find(t, delim) == Some(i)
  {
    FindSpec(s, delim);
    FindSpec(t, delim);
    var both := s[..i + |delim|];
    assert t[i..i + |delim|] == both[i..] == s[i..i + |delim|];
    assert OccursAt(t, delim, i);
    forall j | 0 <= j < i
      ensures !OccursAt(t, delim, j)
    {
      assert t[j..j + |delim|] == both[j..j + |delim|] == s[j..j + |delim|];
      assert !OccursAt(s, delim, j);
    }
  }

  /** Whatever begins with a common prefix is rolled into it. */
  lemma {:induction false} RolledTogether(key: string, other: string, prefix: string, delim: string, common: string)
    requires prefix <= key && prefix <= other && Classify(key, prefix, delim) == Rolled(common) && common <= other
    ensures Classify(other, prefix, delim) == Rolled(common)
  {
    var i := Find(key[|prefix|..], delim).value;
    FindSpec(key[|prefix|..], delim);
    assert key[|prefix|..][..i + |delim|] == common[|prefix|..] <= other[|prefix|..];
    SameFirst(key[|prefix|..], other[|prefix|..], delim, i);
  }

  lemma {:induction false} GroupHead(keys: seq<string>, prefix: string, delim: string)
    requires AllUnder(keys, prefix) && keys != []
    ensures Group(keys, prefix, delim) != [] && Group(keys, prefix, delim)[0] == Classify(keys[0], prefix, delim)
  {
  }

  predicate SomeKeyIs(e: Entry, keys: seq<string>, prefix: string, delim: string)
    requires AllUnder(keys, prefix)
  {
    exists i :: 0 <= i < |keys| && Classify(keys[i], prefix, delim) == e
  }

  lemma {:induction false} SomeKeyCons(e: Entry, keys: seq<string>, prefix: string, delim: string)
    requires AllUnder(keys, prefix) && keys != []
    ensures SomeKeyIs(e, keys, prefix, delim) <==> Classify(keys[0], prefix, delim) == e || SomeKeyIs(e, keys[1..], prefix, delim)
  {
    if SomeKeyIs(e, keys[1..], prefix, delim) {
      var i :| 0 <= i < |keys[1..]| && Classify(keys[1..][i], prefix, delim) == e;
      assert Classify(keys[i + 1], prefix, delim) == e;
    }
    if SomeKeyIs(e, keys, prefix, delim) {
      var i :| 0 <= i < |keys| && Classify(keys[i], prefix, delim) == e;
      assert i > 0 ==> keys[1..][i - 1] == keys[i];
    }
  }

  /** The entries of a listing are those of its keys. */
  lemma {:induction false} GroupLists(e: Entry, keys: seq<string>, prefix: string, delim: string)
    requires AllUnder(keys, prefix)
    ensures e in Group(keys, prefix, delim) <==> SomeKeyIs(e, keys, prefix, delim)
  {
    if keys != [] {
      GroupLists(e, keys[1..], prefix, delim);
      SomeKeyCons(e, keys, prefix, delim);
    }
  }

  /** If the first key's entry comes again, it is the entry of the very next key. */
  lemma {:induction false} NextIsSame(keys: seq<string>, prefix: string, delim: string)
    requires AllUnder(keys, prefix) && StrictlySorted(keys) && keys != []
    requires SomeKeyIs(Classify(keys[0], prefix, delim), keys[1..], prefix, delim)
    ensures Classify(keys[0], prefix, delim).Rolled? && |keys| > 1 && Classify(keys[1], prefix, delim) == Classify(keys[0], prefix, delim)
  {
    var e := Classify(keys[0], prefix, delim);
    var i :| 0 <= i < |keys[1..]| && Classify(keys[1..][i], prefix, delim) == e;
    var j := i + 1;
    assert keys[1..][i] == keys[j] && Less(keys[0], keys[j]);
    LessTotal(keys[0], keys[j]);
    assert e.Rolled? && e.prefix <= keys[0] && e.prefix <= keys[j];
    if j > 1 {
      assert Less(keys[0], keys[1]) && Less(keys[1], keys[j]);
      PrefixBetween(e.prefix, keys[0], keys[1], keys[j]);
      RolledTogether(keys[0], keys[1], prefix, delim, e.prefix);
    }
  }

  predicate Distinct(es: seq<Entry>) {
    forall i, j :: 0 <= i < j < |es| ==> es[i] != es[j]
  }

  /** Every key and every common prefix of a sorted store is listed once. */
  lemma {:induction false} ListedOnce(keys: seq<string>, prefix: string, delim: string)
    requires AllUnder(keys, prefix) && StrictlySorted(keys)
    ensures Distinct(Group(keys, prefix, delim))
  {
    if keys != [] {
      var e, rest := Classify(keys[0], prefix, delim), Group(keys[1..], prefix, delim);
      ListedOnce(keys[1..], prefix, delim);
      GroupLists(e, keys[1..], prefix, delim);
      if SomeKeyIs(e, keys[1..], prefix, delim) {
        NextIsSame(keys, prefix, delim);
        GroupHead(keys[1..], prefix, delim);
      } else {
        assert e !in rest;
        assert forall j :: 0 <= j < |rest| ==> rest[j] in rest;
      }
    }
  }

  lemma {:induction false} SelectedSorted(store: Store, prefix: string, after: Option<string>)
    ensures Enumerates(SortedKeys(Selected(store, prefix, after)), Selected(store, prefix, after))
    ensures AllUnder(SortedKeys(Selected(store, prefix, after)), prefix)
  {
    var keys := Selected(store, prefix, after);
    SortedKeysEnumerates(keys);
    forall i | 0 <= i < |SortedKeys(keys)|
      ensures prefix <= SortedKeys(keys)[i]
    {
      assert SortedKeys(keys)[i] in keys;
    }
  }

  ghost function ListPage(store: Store, prefix: string, delim: string, after: Option<string>, max: nat): Page {
    SelectedSorted(store, prefix, after);
    PageOf(SortedKeys(Selected(store, prefix, after)), prefix, delim, max)
  }

  // ---- The gateway.

  datatype Content = Content(key: string, size: nat)

  /** What `object_store` returns: every key and common prefix as a parsed path. */
  datatype StorePage = StorePage(objects: seq<Content>, commonPrefixes: seq<string>, more: bool)

  datatype ListRewrite = ListRewrite(stripPrefix: string, addPrefix: string)

  datatype ListEntries = ListEntries(contents: seq<Content>, commonPrefixes: seq<string>, prefixValue: string)

  datatype ListResponse =
    | ResponseV2(name: string, entries: ListEntries, isTruncated: bool, keyCount: nat)
    | ResponseV1(name: string, entries: ListEntries, isTruncated: bool, nextMarker: Option<string>)

  function BuildListPrefix(config: BucketConfig, clientPrefix: string): (r: string)
    ensures r == KeyPrefix(config) + clientPrefix
  {
    assert "" + clientPrefix == clientPrefix;
    match config.backendPrefix
    case Some(prefix) =>
      var bp := TrimEnd(prefix, '/');
      if bp == "" then clientPrefix else bp + "/" + clientPrefix
    case None => clientPrefix
  }

  function S3Encode(s: string, urlEncode: bool): string {
    if urlEncode then PercentEncode(StrictPath, s) else s
  }

  function RewriteKey(raw: string, stripPrefix: string, rewrite: Option<ListRewrite>): string {
    var key := if stripPrefix != "" then StripPrefixOrSelf(raw, stripPrefix) else raw;
    match rewrite
    case None => key
    case Some(rw) =>
      var key' := if rw.stripPrefix != "" then StripPrefixOrSelf(key, rw.stripPrefix) else key;
      if rw.addPrefix != "" then
        if key' == "" || key'[0] == '/' || EndsWith(rw.addPrefix, "/") then rw.addPrefix + key'
        else rw.addPrefix + "/" + key'
      else key'
  }

  /** A name behind a folder, with a slash between the two only where neither side has one. */
  lemma {:induction false} PutBehind(key: string, add: string)
    ensures RewriteKey(key, "", Some(ListRewrite("", add)))
         == add + (if add != "" && key != "" && add[|add| - 1] != '/' && key[0] != '/' then "/" else "") + key
  {
    assert add + "" + key == add + key && "" + key == key;
    if add != "" {
      assert EndsWith(add, "/") <==> add[|add| - 1] == '/';
    }
  }

  lemma StripsWhole(p: string, rest: string)
    ensures StripPrefixOrSelf(p + rest, p) == rest
    ensures p == "" ==> p + rest == rest
  {
    assert (p + rest)[|p|..] == rest;
  }

  /** The bucket's prefix goes first, then the folder to be stripped, if the name is in it. */
  lemma {:induction false} StrippedInTurn(p: string, strip: string, rest: string, add: string)
    ensures RewriteKey(p + rest, p, None) == rest
    ensures RewriteKey(p + (strip + rest), p, Some(ListRewrite(strip, add))) == RewriteKey(rest, "", Some(ListRewrite("", add)))
    ensures !(strip <= rest) ==> RewriteKey(p + rest, p, Some(ListRewrite(strip, add))) == RewriteKey(rest, "", Some(ListRewrite("", add)))
  {
    StripsWhole(p, rest);
    StripsWhole(p, strip + rest);
    StripsWhole(strip, rest);
  }

  predicate IsDirectoryMarker(obj: Content, commonPrefixes: seq<string>, backendPrefix: string, listPrefix: string) {
    obj.size == 0 && (obj.key in commonPrefixes || obj.key == backendPrefix || obj.key == listPrefix)
  }

  function CollectContents(objects: seq<Content>, commonPrefixes: seq<string>, config: BucketConfig,
                           clientPrefix: string, rewrite: Option<ListRewrite>, urlEncode: bool): seq<Content>
  {
    if objects == [] then []
    else
      var obj := objects[0];
      var listPrefix := TrimEnd(KeyPrefix(config) + clientPrefix, '/');
      (if IsDirectoryMarker(obj, commonPrefixes, TrimmedPrefix(config), listPrefix) then []
       else [Content(S3Encode(RewriteKey(obj.key, KeyPrefix(config), rewrite), urlEncode), obj.size)])
      + CollectContents(objects[1..], commonPrefixes, config, clientPrefix, rewrite, urlEncode)
  }

  function CollectPrefixes(commonPrefixes: seq<string>, config: BucketConfig, rewrite: Option<ListRewrite>,
                           urlEncode: bool): seq<string>
  {
    if commonPrefixes == [] then []
    else [S3Encode(RewriteKey(commonPrefixes[0] + "/", KeyPrefix(config), rewrite), urlEncode)]
         + CollectPrefixes(commonPrefixes[1..], config, rewrite, urlEncode)
  }

  function CollectListEntries(clientPrefix: string, urlEncode: bool, page: StorePage, config: BucketConfig,
                              rewrite: Option<ListRewrite>): ListEntries
  {
    ListEntries(
      CollectContents(page.objects, page.commonPrefixes, config, clientPrefix, rewrite, urlEncode),
      CollectPrefixes(page.commonPrefixes, config, rewrite, urlEncode),
      S3Encode(if rewrite.Some? && rewrite.value.addPrefix != "" then rewrite.value.addPrefix + clientPrefix
               else clientPrefix, urlEncode))
  }

  function ParsePaths(raws: seq<string>): Option<seq<string>> {
    if raws == [] then Some([])
    else
      match ParsePath(raws[0])
      case None => None
      case Some(p) =>
        match ParsePaths(raws[1..])
        case None => None
        case Some(ps) => Some([p] + ps)
  }

  /** Paths with the sizes of the keys they were parsed from. */
  function WithSizes(paths: seq<string>, raws: seq<string>, store: Store): seq<Content>
    requires |paths| == |raws|
  {
    if paths == [] then []
    else [Content(paths[0], if raws[0] in store then store[raws[0]] else 0)]
         + WithSizes(paths[1..], raws[1..], store)
  }

  /** A page as `object_store` hands it over; a key that is not a path makes the listing fail. */
  function ToStorePage(store: Store, page: Page): Option<StorePage> {
    match ParsePaths(page.objects)
    case None => None
    case Some(objects) =>
      match ParsePaths(page.commons)
      case None => None
      case Some(commons) =>
        if |objects| != |page.objects| then None
        else Some(StorePage(WithSizes(objects, page.objects, store), commons, page.truncated))
  }

  function AfterOf(params: ListParams): Option<string> {
    if params.isV2 then params.startAfter else params.marker
  }

  function UrlEncoded(params: ListParams): bool {
    params.encodingType == Some("url")
  }

  /** The backend page asked for: prefix and offset mapped into the backend's key space. */
  ghost function BackendPage(store: Store, config: BucketConfig, params: ListParams): Page {
    var after := AfterOf(params);
    var offset := if after.None? then None else Some(BuildListPrefix(config, after.value));
    ListPage(store, BuildListPrefix(config, params.prefix), params.delimiter, offset, params.maxKeys)
  }

  function Respond(config: BucketConfig, params: ListParams, page: StorePage, rewrite: Option<ListRewrite>,
                   displayName: Option<string>): ListResponse
  {
    var name := OrElse(displayName, config.name);
    var entries := CollectListEntries(params.prefix, UrlEncoded(params), page, config, rewrite);
    if params.isV2 then
      ResponseV2(name, entries, page.more, |page.objects| + |page.commonPrefixes|)
    else
      var nextMarker := if page.more && page.objects != [] then Some(page.objects[|page.objects| - 1].key) else None;
      ResponseV1(name, entries, page.more, nextMarker)
  }

  /** The same objects, their keys encoded. */
  predicate EncodedContents(plain: seq<Content>, encoded: seq<Content>) {
    && |encoded| == |plain|
    && forall i :: 0 <= i < |plain| ==> encoded[i] == Content(PercentEncode(StrictPath, plain[i].key), plain[i].size)
  }

  lemma {:induction false} ContentEncoded(hidden: bool, key: string, size: nat, plain: seq<Content>, encoded: seq<Content>)
    requires EncodedContents(plain, encoded)
    ensures EncodedContents((if hidden then [] else [Content(S3Encode(key, false), size)]) + plain,
                            (if hidden then [] else [Content(S3Encode(key, true), size)]) + encoded)
  {
    assert [] + plain == plain && [] + encoded == encoded;
  }

  lemma {:induction false} ContentsEncoded(objects: seq<Content>, commonPrefixes: seq<string>, config: BucketConfig, clientPrefix: string,
                                           rewrite: Option<ListRewrite>)
    ensures EncodedContents(CollectContents(objects, commonPrefixes, config, clientPrefix, rewrite, false),
                            CollectContents(objects, commonPrefixes, config, clientPrefix, rewrite, true))
  {
    if objects != [] {
      ContentsEncoded(objects[1..], commonPrefixes, config, clientPrefix, rewrite);
      var obj := objects[0];
      ContentEncoded(IsDirectoryMarker(obj, commonPrefixes, TrimmedPrefix(config), TrimEnd(KeyPrefix(config) + clientPrefix, '/')),
                     RewriteKey(obj.key, KeyPrefix(config), rewrite), obj.size,
                     CollectContents(objects[1..], commonPrefixes, config, clientPrefix, rewrite, false),
                     CollectContents(objects[1..], commonPrefixes, config, clientPrefix, rewrite, true));
    }
  }

  lemma {:induction false} PrefixesEncoded(commonPrefixes: seq<string>, config: BucketConfig, rewrite: Option<ListRewrite>)
    ensures var plain := CollectPrefixes(commonPrefixes, config, rewrite, false);
            var encoded := CollectPrefixes(commonPrefixes, config, rewrite, true);
            && |encoded| == |plain|
            && forall i :: 0 <= i < |plain| ==> encoded[i] == PercentEncode(StrictPath, plain[i])
  {
    if commonPrefixes != [] {
      PrefixesEncoded(commonPrefixes[1..], config, rewrite);
    }
  }

  /** The encoding type `url`, spelled so, encodes the names of an answer and nothing else; every other one changes nothing. */
  lemma {:induction false} EncodedExactly(config: BucketConfig, params: ListParams, page: StorePage, rewrite: Option<ListRewrite>,
                                          displayName: Option<string>)
    ensures var plain := Respond(config, params.(encodingType := None), page, rewrite, displayName);
            var r := Respond(config, params, page, rewrite, displayName);
            && (params.encodingType != Some("url") ==> r == plain)
            && (params.encodingType == Some("url") ==>
                && r.entries.prefixValue == PercentEncode(StrictPath, plain.entries.prefixValue)
                && |r.entries.commonPrefixes| == |plain.entries.commonPrefixes|
                && (forall i :: 0 <= i < |r.entries.commonPrefixes| ==>
                      r.entries.commonPrefixes[i] == PercentEncode(StrictPath, plain.entries.commonPrefixes[i]))
                && EncodedContents(plain.entries.contents, r.entries.contents)
                && r.(entries := plain.entries) == plain)
  {
    ContentsEncoded(page.objects, page.commonPrefixes, config, params.prefix, rewrite);
    PrefixesEncoded(page.commonPrefixes, config, rewrite);
  }

  ghost function HandleList(store: Store, config: BucketConfig, params: ListParams,
                            rewrite: Option<ListRewrite>, displayName: Option<string>): Result<ListResponse, ProxyError>
    requires params.continuationToken.None?
  {
    match ToStorePage(store, BackendPage(store, config, params))
    case None => Err(BackendError)
    case Some(page) => Ok(Respond(config, params, page, rewrite, displayName))
  }

  // ---- The virtual store a client sees.

  ghost function StrippedKeys(keys: set<string>, prefix: string): set<string> {
    set key | key in keys && prefix <= key :: key[|prefix|..]
  }

  ghost function View(store: Store, prefix: string): Store {
    map k | k in StrippedKeys(store.Keys, prefix) && prefix + k in store :: store[prefix + k]
  }

  lemma {:induction false} ViewHas(store: Store, prefix: string, k: string)
    ensures k in View(store, prefix) <==> prefix + k in store
    ensures k in View(store, prefix) ==> View(store, prefix)[k] == store[prefix + k]
  {
    if prefix + k in store {
      assert prefix <= prefix + k && (prefix + k)[|prefix|..] == k;
    }
  }

  function Prefixed(p: string, ks: seq<string>): (r: seq<string>)
    ensures |r| == |ks|
    ensures forall i :: 0 <= i < |ks| ==> r[i] == p + ks[i]
  {
    if ks == [] then [] else [p + ks[0]] + Prefixed(p, ks[1..])
  }

  function PrefixedEntry(p: string, e: Entry): Entry {
    if e.Single? then Single(p + e.key) else Rolled(p + e.prefix)
  }

  function PrefixedEntries(p: string, es: seq<Entry>): (r: seq<Entry>)
    ensures |r| == |es|
    ensures forall i :: 0 <= i < |es| ==> r[i] == PrefixedEntry(p, es[i])
  {
    if es == [] then [] else [PrefixedEntry(p, es[0])] + PrefixedEntries(p, es[1..])
  }

  function PrefixedAfter(p: string, after: Option<string>): Option<string> {
    if after.None? then None else Some(p + after.value)
  }

  /** Selection through the prefix is selection in the view. */
  lemma {:induction false} SelectedThroughPrefix(store: Store, p: string, prefix: string, after: Option<string>)
    ensures forall k :: k in Selected(View(store, p), prefix, after)
                        <==> p + k in Selected(store, p + prefix, PrefixedAfter(p, after))
    ensures forall key :: key in Selected(store, p + prefix, PrefixedAfter(p, after)) ==> p <= key
  {
    forall k
      ensures k in Selected(View(store, p), prefix, after)
              <==> p + k in Selected(store, p + prefix, PrefixedAfter(p, after))
    {
      ViewHas(store, p, k);
      assert prefix <= k <==> p + prefix <= p + k by {
        assert p + prefix <= p + k ==> (p + k)[|p|..|p + prefix|] == prefix;
        assert prefix <= k ==> (p + k)[..|p + prefix|] == p + prefix;
      }
      if after.Some? {
        LessCommonPrefix(p, after.value, k);
      }
    }
    forall key | key in Selected(store, p + prefix, PrefixedAfter(p, after))
      ensures p <= key
    {
      assert key[..|p|] == (p + prefix)[..|p|];
    }
  }

  lemma {:induction false} PrefixedSorted(p: string, ks: seq<string>)
    requires StrictlySorted(ks)
    ensures StrictlySorted(Prefixed(p, ks))
  {
    var r := Prefixed(p, ks);
    forall i, j | 0 <= i < j < |r|
      ensures Less(r[i], r[j])
    {
      LessCommonPrefix(p, ks[i], ks[j]);
    }
  }

  lemma {:induction false} PrefixedHas(p: string, ks: seq<string>, key: string)
    ensures key in Prefixed(p, ks) <==> p <= key && key[|p|..] in ks
  {
    var r := Prefixed(p, ks);
    if key in r {
      var i :| 0 <= i < |r| && r[i] == key;
      assert (p + ks[i])[|p|..] == ks[i];
    }
    if p <= key && key[|p|..] in ks {
      var i :| 0 <= i < |ks| && ks[i] == key[|p|..];
      assert r[i] == p + key[|p|..] == key;
    }
  }

  /** Order commutes with prefixing. */
  lemma {:induction false} SortedThroughPrefix(p: string, inner: set<string>, outer: set<string>)
    requires forall k :: k in inner <==> p + k in outer
    requires forall key :: key in outer ==> p <= key
    ensures SortedKeys(outer) == Prefixed(p, SortedKeys(inner))
  {
    SortedKeysEnumerates(inner);
    var ks := SortedKeys(inner);
    PrefixedSorted(p, ks);
    forall key
      ensures key in Prefixed(p, ks) <==> key in outer
    {
      PrefixedHas(p, ks, key);
      if p <= key {
        assert key == p + key[|p|..];
        assert key[|p|..] in inner <==> key in outer;
      }
    }
    SortedKeysUnique(Prefixed(p, ks), outer);
  }

  lemma {:induction false} ClassifyThroughPrefix(p: string, key: string, prefix: string, delim: string)
    requires prefix <= key
    ensures p + prefix <= p + key
    ensures Classify(p + key, p + prefix, delim) == PrefixedEntry(p, Classify(key, prefix, delim))
  {
    assert (p + key)[..|p + prefix|] == p + prefix;
    assert (p + key)[|p + prefix|..] == key[|prefix|..];
    if delim != "" {
      var r := Find(key[|prefix|..], delim);
      if r.Some? {
        var n := |prefix| + r.value + |delim|;
        assert (p + key)[..|p| + n] == p + key[..n];
      }
    }
  }

  /** Grouping commutes with stripping. */
  lemma {:induction false} GroupThroughPrefix(p: string, keys: seq<string>, prefix: string, delim: string)
    requires AllUnder(keys, prefix)
    ensures AllUnder(Prefixed(p, keys), p + prefix)
    ensures Group(Prefixed(p, keys), p + prefix, delim) == PrefixedEntries(p, Group(keys, prefix, delim))
  {
    forall i | 0 <= i < |keys|
      ensures p + prefix <= Prefixed(p, keys)[i]
    {
      ClassifyThroughPrefix(p, keys[i], prefix, delim);
    }
    if keys != [] {
      ClassifyThroughPrefix(p, keys[0], prefix, delim);
      GroupThroughPrefix(p, keys[1..], prefix, delim);
      assert Prefixed(p, keys)[1..] == Prefixed(p, keys[1..]);
      var e, rest := Classify(keys[0], prefix, delim), Group(keys[1..], prefix, delim);
      if e.Rolled? && rest != [] {
        PrefixedEntryInjective(p, rest[0], e);
      }
    }
  }

  lemma {:induction false} PrefixedEntryInjective(p: string, e1: Entry, e2: Entry)
    ensures PrefixedEntry(p, e1) == PrefixedEntry(p, e2) <==> e1 == e2
  {
    if PrefixedEntry(p, e1) == PrefixedEntry(p, e2) {
      if e1.Single? {
        assert (p + e1.key)[|p|..] == e1.key && (p + e2.key)[|p|..] == e2.key;
      } else {
        assert (p + e1.prefix)[|p|..] == e1.prefix && (p + e2.prefix)[|p|..] == e2.prefix;
      }
    }
  }

  lemma {:induction false} SplitsThroughPrefix(p: string, es: seq<Entry>)
    ensures Singles(PrefixedEntries(p, es)) == Prefixed(p, Singles(es))
    ensures Rolls(PrefixedEntries(p, es)) == Prefixed(p, Rolls(es))
  {
    if es != [] {
      SplitsThroughPrefix(p, es[1..]);
    }
  }

  lemma {:induction false} PageOfThroughPrefix(p: string, keys: seq<string>, prefix: string, delim: string, max: nat)
    requires AllUnder(keys, prefix)
    ensures AllUnder(Prefixed(p, keys), p + prefix)
    ensures PageOf(Prefixed(p, keys), p + prefix, delim, max)
         == PrefixedPage(p, PageOf(keys, prefix, delim, max))
  {
    GroupThroughPrefix(p, keys, prefix, delim);
    var es := Group(keys, prefix, delim);
    SplitsThroughPrefix(p, es);
    if |es| > max {
      SplitsThroughPrefix(p, es[..max]);
      assert PrefixedEntries(p, es)[..max] == PrefixedEntries(p, es[..max]);
    }
  }

  function PrefixedPage(p: string, page: Page): Page {
    Page(Prefixed(p, page.objects), Prefixed(p, page.commons), page.truncated)
  }

  /** One backend page under the prefix is the prefixed page of the view. */
  lemma {:induction false} PageThroughPrefix(store: Store, p: string, prefix: string, delim: string,
                                             after: Option<string>, max: nat)
    ensures ListPage(store, p + prefix, delim, PrefixedAfter(p, after), max)
         == PrefixedPage(p, ListPage(View(store, p), prefix, delim, after, max))
  {
    var inner := Selected(View(store, p), prefix, after);
    var outer := Selected(store, p + prefix, PrefixedAfter(p, after));
    SelectedThroughPrefix(store, p, prefix, after);
    SortedThroughPrefix(p, inner, outer);
    SelectedSorted(View(store, p), prefix, after);
    SelectedSorted(store, p + prefix, PrefixedAfter(p, after));
    PageOfThroughPrefix(p, SortedKeys(inner), prefix, delim, max);
  }
}
