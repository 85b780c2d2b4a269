/** What is listed under a mapped name can be fetched under it, and the rewrites keep their meaning. */
module PathMappingProofs {
  import opened Text
  import opened Percent
  import Utf8
  import opened Types
  import opened Keys
  import opened Query
  import opened Requests
  import opened Listing
  import opened PrefixView
  import opened PathMapping

  // ---- Bucket names.

  /** The internal name is taken apart into the segments it was joined from exactly when none of them holds the separator. */
  lemma {:induction false} BucketNameRoundTrip(m: PathMapping, path: string, c: char)
    requires m.Valid() && m.bucketSegments >= 1 && m.bucketSeparator == [c]
    requires m.Parse(path).Some?
    ensures var mapped := m.Parse(path).value;
            m.ParseBucketName(mapped.bucket) == Some(mapped.(key := None))
            <==> forall i :: 0 <= i < |mapped.segments| ==> c !in mapped.segments[i]
  {
    var mapped := m.Parse(path).value;
    var segs := mapped.segments;
    if forall i :: 0 <= i < |segs| ==> c !in segs[i] {
      forall p | p in segs
        ensures FreeOf(p, [c])
      {
        FreeOfChar(p, c);
      }
      SplitJoin(segs, [c]);
    } else {
      var i :| 0 <= i < |segs| && c in segs[i];
      NotASplit(mapped.bucket, segs, i, c);
    }
  }

  lemma {:induction false} NotASplit(s: string, segs: seq<string>, i: nat, c: char)
    requires i < |segs| && c in segs[i]
    ensures Split(s, [c]) != segs
  {
    SplitCharParts(s, c);
    if i < |Split(s, [c])| {
      assert Split(s, [c])[i] in Split(s, [c]);
    }
  }

  // ---- Paths made of segments.

  predicate PathSegments(segs: seq<string>, c: char) {
    forall i :: 0 <= i < |segs| ==> segs[i] != "" && '/' !in segs[i] && c !in segs[i]
  }

  lemma {:induction false} SplitNHead(head: string, rest: string, n: nat)
    requires '/' !in head && n >= 1
    ensures SplitN(head + "/" + rest, "/", n + 1) == [head] + SplitN(rest, "/", n)
  {
    var s := head + "/" + rest;
    FreeOfChar(head, '/');
    FindAfterFree(head, "/", rest);
    assert s[..|head|] == head && s[|head| + 1..] == rest;
  }

  lemma {:induction false} SplitNOfJoined(segs: seq<string>, key: string)
    requires segs != [] && forall i :: 0 <= i < |segs| ==> '/' !in segs[i]
    ensures SplitN(Join(segs, "/") + "/" + key, "/", |segs| + 1) == segs + [key]
    decreases |segs|
  {
    if |segs| == 1 {
      SplitNHead(segs[0], key, 1);
      assert segs == [segs[0]];
    } else {
      var tail := Join(segs[1..], "/");
      JoinCons(segs[0], segs[1..]);
      assert segs == [segs[0]] + segs[1..];
      SplitNHead(segs[0], tail + "/" + key, |segs|);
      SplitNOfJoined(segs[1..], key);
      assert segs[0] + "/" + (tail + "/" + key) == (segs[0] + "/" + tail) + "/" + key;
      assert segs + [key] == [segs[0]] + (segs[1..] + [key]);
    }
  }

  lemma {:induction false} JoinConcat(a: seq<string>, b: seq<string>, sep: string)
    requires a != [] && b != []
    ensures Join(a + b, sep) == Join(a, sep) + sep + Join(b, sep)
    decreases |a|
  {
    if |a| == 1 {
      assert (a + b)[1..] == b;
    } else {
      assert (a + b)[1..] == a[1..] + b;
      JoinConcat(a[1..], b, sep);
      assert a[0] + sep + (Join(a[1..], sep) + sep + Join(b, sep)) == (a[0] + sep + Join(a[1..], sep)) + sep + Join(b, sep);
    }
  }

  lemma {:induction false} JoinNonEmpty(segs: seq<string>, sep: string)
    requires segs != [] && segs[0] != ""
    ensures Join(segs, sep) != "" && Join(segs, sep)[0] == segs[0][0]
  {
  }

  /** Display name, key prefix and key together spell out all segments. */
  lemma {:induction false} DisplayedPath(m: PathMapping, segs: seq<string>, key: string)
    requires m.Valid() && m.displayBucketSegments >= 1 && |segs| == m.bucketSegments
    ensures m.DisplayBucket(segs) + "/" + (m.KeyPrefixOf(segs) + key) == Join(segs, "/") + "/" + key
  {
    var d := m.displayBucketSegments;
    assert segs == segs[..d] + segs[d..];
    if d < m.bucketSegments {
      JoinConcat(segs[..d], segs[d..], "/");
      var a, b := Join(segs[..d], "/"), Join(segs[d..], "/");
      assert a + "/" + ((b + "/") + key) == (a + "/" + b) + "/" + key;
    } else {
      assert segs[..d] == segs;
      assert "" + key == key;
    }
  }

  lemma {:induction false} SplitPathParses(m: PathMapping, spelled: string, segs: seq<string>, key: string)
    requires m.Valid() && |segs| == m.bucketSegments && NoneEmpty(segs) && key != "" && spelled != ""
    requires SplitN(spelled, "/", m.bucketSegments + 1) == segs + [key]
    ensures m.Parse("/" + spelled)
         == Some(MappedPath(Join(segs, m.bucketSeparator), Some(key), m.DisplayBucket(segs), m.KeyPrefixOf(segs), segs))
  {
    assert ("/" + spelled)[1..] == spelled;
    assert (segs + [key])[..|segs|] == segs;
  }

  lemma {:induction false} SpelledPathParses(m: PathMapping, segs: seq<string>, c: char, key: string)
    requires m.Valid() && |segs| == m.bucketSegments >= 1
    requires PathSegments(segs, c) && key != ""
    ensures m.Parse("/" + (Join(segs, "/") + "/" + key))
         == Some(MappedPath(Join(segs, m.bucketSeparator), Some(key), m.DisplayBucket(segs), m.KeyPrefixOf(segs), segs))
  {
    SplitNOfJoined(segs, key);
    SplitPathParses(m, Join(segs, "/") + "/" + key, segs, key);
  }

  /** A path spelled out in segments is rewritten to the internal bucket and the key, and parsed as such. */
  lemma {:induction false} SpelledPathResolves(m: PathMapping, segs: seq<string>, c: char, key: string, query: Option<string>)
    requires m.Valid() && m.displayBucketSegments >= 1 && m.bucketSeparator == [c] && c != '/'
    requires |segs| == m.bucketSegments && PathSegments(segs, c) && key != ""
    ensures var path := "/" + m.DisplayBucket(segs) + "/" + (m.KeyPrefixOf(segs) + key);
            var bucket := Join(segs, [c]);
            && m.RewriteRequest(path, query).path == "/" + bucket + "/" + key
            && ParsePathStyle(m.RewriteRequest(path, query).path) == Ok((bucket, key))
  {
    var path := "/" + m.DisplayBucket(segs) + "/" + (m.KeyPrefixOf(segs) + key);
    var spelled := Join(segs, "/") + "/" + key;
    var bucket := Join(segs, [c]);
    DisplayedPath(m, segs, key);
    assert path == "/" + spelled;
    SpelledPathParses(m, segs, c, key);
    assert "/" + bucket + ("/" + key) == "/" + bucket + "/" + key;
    JoinNonEmpty(segs, [c]);
    JoinNoSlash(segs, c);
    ParsePathOf(bucket, key);
  }

  lemma {:induction false} JoinNoSlash(segs: seq<string>, c: char)
    requires c != '/' && forall i :: 0 <= i < |segs| ==> '/' !in segs[i]
    ensures '/' !in Join(segs, [c])
    decreases |segs|
  {
    if |segs| > 1 {
      JoinNoSlash(segs[1..], c);
    }
  }

  lemma {:induction false} BucketNameParses(m: PathMapping, segs: seq<string>, c: char)
    requires m.Valid() && m.bucketSegments >= 1 && m.bucketSeparator == [c]
    requires |segs| == m.bucketSegments && PathSegments(segs, c)
    ensures m.ParseBucketName(Join(segs, [c]))
         == Some(MappedPath(Join(segs, [c]), None, m.DisplayBucket(segs), m.KeyPrefixOf(segs), segs))
  {
    forall p | p in segs
      ensures FreeOf(p, [c])
    {
      FreeOfChar(p, c);
    }
    SplitJoin(segs, [c]);
  }

  // ---- Listings through the mapping.

  /** `shown` is `plain` with `add` before every key, and encoded if asked for. */
  ghost predicate ShownBehind(plain: seq<Content>, shown: seq<Content>, add: string, urlEncode: bool) {
    |shown| == |plain|
    && forall i :: 0 <= i < |plain| ==> shown[i] == Content(S3Encode(add + plain[i].key, urlEncode), plain[i].size)
  }

  lemma ShownConcat(p1: seq<Content>, s1: seq<Content>, p2: seq<Content>, s2: seq<Content>, add: string, urlEncode: bool)
    requires ShownBehind(p1, s1, add, urlEncode) && ShownBehind(p2, s2, add, urlEncode)
    ensures ShownBehind(p1 + p2, s1 + s2, add, urlEncode)
  {
  }

  /** The rewrite of a mapped bucket; none for an empty key prefix. */
  function RewriteOf(add: string): Option<ListRewrite> {
    if add == "" then None else Some(ListRewrite("", add))
  }

  lemma ShownOne(obj: Content, commons: seq<string>, config: BucketConfig, clientPrefix: string, add: string, urlEncode: bool)
    requires add == "" || add[|add| - 1] == '/'
    ensures ShownBehind(Shown(obj, commons, config, clientPrefix, None, false),
                        Shown(obj, commons, config, clientPrefix, RewriteOf(add), urlEncode), add, urlEncode)
  {
    var key := RewriteKey(obj.key, KeyPrefix(config), None);
    assert add == "" ==> add + key == key;
  }

  /** The list rewrite puts its prefix before every key the plain listing shows. */
  lemma {:induction false} RewrittenContents(objects: seq<Content>, commons: seq<string>, config: BucketConfig,
                                             clientPrefix: string, add: string, urlEncode: bool)
    requires add == "" || add[|add| - 1] == '/'
    ensures ShownBehind(CollectContents(objects, commons, config, clientPrefix, None, false),
                        CollectContents(objects, commons, config, clientPrefix, RewriteOf(add), urlEncode), add, urlEncode)
  {
    if objects != [] {
      var obj, rest := objects[0], objects[1..];
      RewrittenContents(rest, commons, config, clientPrefix, add, urlEncode);
      CollectCons(objects, commons, config, clientPrefix, None, false);
      CollectCons(objects, commons, config, clientPrefix, RewriteOf(add), urlEncode);
      ShownOne(obj, commons, config, clientPrefix, add, urlEncode);
      ShownConcat(Shown(obj, commons, config, clientPrefix, None, false),
                  Shown(obj, commons, config, clientPrefix, RewriteOf(add), urlEncode),
                  CollectContents(rest, commons, config, clientPrefix, None, false),
                  CollectContents(rest, commons, config, clientPrefix, RewriteOf(add), urlEncode), add, urlEncode);
    }
  }

  /** And before every common prefix. */
  lemma {:induction false} RewrittenPrefixes(config: BucketConfig, cs: seq<string>, add: string, urlEncode: bool)
    requires forall i :: 0 <= i < |cs| ==> EndsWith(cs[i], "/")
    requires add == "" || add[|add| - 1] == '/'
    ensures CollectPrefixes(UnslashedAll(Prefixed(KeyPrefix(config), cs)), config, RewriteOf(add), urlEncode)
         == EncodedAll(Prefixed(add, cs), urlEncode)
  {
    if cs != [] {
      var p := KeyPrefix(config);
      UnslashedPrefixed(p, cs[0]);
      assert Unslashed(p + cs[0]) + "/" == p + cs[0];
      RewrittenBack(p, cs[0], add);
      RewrittenPrefixes(config, cs[1..], add, urlEncode);
      assert UnslashedAll(Prefixed(p, cs))[1..] == UnslashedAll(Prefixed(p, cs[1..]));
      assert Prefixed(add, cs)[1..] == Prefixed(add, cs[1..]);
    }
  }

  lemma {:induction false} RewrittenBack(p: string, k: string, add: string)
    requires add == "" || add[|add| - 1] == '/'
    ensures RewriteKey(p + k, p, RewriteOf(add)) == add + k
  {
    assert (p + k)[|p|..] == k && p <= p + k;
    assert "" + k == k;
    assert add != "" ==> EndsWith(add, "/");
  }

  /** What the registry wrapper hands to the listing of an internal bucket. */
  function Mapped(m: PathMapping, segs: seq<string>, c: char, config: BucketConfig): ResolvedBucket
    requires m.Valid() && |segs| == m.bucketSegments
  {
    ApplyMapping(m, Join(segs, [c]), ResolvedBucket(config, None, None))
  }

  lemma {:induction false} MappedIs(m: PathMapping, segs: seq<string>, c: char, config: BucketConfig)
    requires m.Valid() && m.bucketSegments >= 1 && m.bucketSeparator == [c]
    requires |segs| == m.bucketSegments && PathSegments(segs, c)
    ensures Mapped(m, segs, c, config)
         == ResolvedBucket(config, RewriteOf(m.KeyPrefixOf(segs)), Some(m.DisplayBucket(segs)))
  {
    BucketNameParses(m, segs, c);
  }

  /** What a client makes of a listed key: percent-decoded if it asked for encoding. */
  function ReadKey(shown: string, urlEncode: bool): Option<string> {
    if urlEncode then Utf8.Decode(PercentDecode(shown)) else Some(shown)
  }

  lemma {:induction false} ReadShown(key: string, urlEncode: bool)
    ensures ReadKey(S3Encode(key, urlEncode), urlEncode) == Some(key)
  {
    Percent.DecodeEncode(StrictPath, key);
  }

  /** The objects a page shows, by their own keys. */
  ghost function VisibleKeys(store: Store, config: BucketConfig, params: ListParams): seq<string> {
    var view := View(store, KeyPrefix(config));
    var page := DirectPage(view, params);
    Visible(view, page.objects, page.commons, params.prefix)
  }

  /** The contents of the plain listing, before any encoding. */
  ghost function PlainContents(store: Store, config: BucketConfig, params: ListParams): seq<Content> {
    SeenContents(View(store, KeyPrefix(config)), config, params.(encodingType := None))
  }

  /** The keys of the listing under the mapping are the plain listing's, behind the key prefix. */
  lemma {:induction false} MappedContents(store: Store, m: PathMapping, segs: seq<string>, c: char, config: BucketConfig, params: ListParams)
    requires m.Valid() && m.bucketSegments >= 1 && m.bucketSeparator == [c]
    requires |segs| == m.bucketSegments && PathSegments(segs, c)
    requires PathStore(store) && params.continuationToken.None?
    requires FoldersOnly(DirectPage(View(store, KeyPrefix(config)), params), params.delimiter)
    ensures var resolved := Mapped(m, segs, c, config);
            var r := HandleList(store, config, params, resolved.listRewrite, resolved.displayName);
            && r.Ok? && r.value.name == m.DisplayBucket(segs)
            && ShownBehind(PlainContents(store, config, params), r.value.entries.contents, m.KeyPrefixOf(segs), UrlEncoded(params))
  {
    MappedIs(m, segs, c, config);
    BackendPageOfView(store, config, params);
    StorePageOfView(store, config, params);
    CollectedEntries(store, config, params.(encodingType := None));
    var sp := ViewStorePage(store, config, params);
    RewrittenContents(sp.objects, sp.commonPrefixes, config, params.prefix, m.KeyPrefixOf(segs), UrlEncoded(params));
  }

  lemma {:induction false} MappedCommons(store: Store, add: string, config: BucketConfig, params: ListParams)
    requires PathStore(store) && (add == "" || add[|add| - 1] == '/')
    requires FoldersOnly(DirectPage(View(store, KeyPrefix(config)), params), params.delimiter)
    ensures var page := DirectPage(View(store, KeyPrefix(config)), params);
            CollectPrefixes(ViewStorePage(store, config, params).commonPrefixes, config, RewriteOf(add), UrlEncoded(params))
            == EncodedAll(Prefixed(add, page.commons), UrlEncoded(params))
  {
    PageParses(store, config, params);
    RewrittenPrefixes(config, DirectPage(View(store, KeyPrefix(config)), params).commons, add, UrlEncoded(params));
  }

  lemma MappedEcho(sp: StorePage, add: string, config: BucketConfig, params: ListParams, displayName: string)
    ensures var r := Respond(config, params, sp, RewriteOf(add), Some(displayName));
            && r.entries.commonPrefixes == CollectPrefixes(sp.commonPrefixes, config, RewriteOf(add), UrlEncoded(params))
            && r.entries.prefixValue == S3Encode(add + params.prefix, UrlEncoded(params))
            && r.isTruncated == sp.more && (params.isV2 <==> r.ResponseV2?)
            && (params.isV2 ==> r.keyCount == |sp.objects| + |sp.commonPrefixes|)
  {
    assert "" + params.prefix == params.prefix;
  }

  /** The listing under the mapping is the plain listing with its keys, common prefixes and prefix behind the key prefix. */
  lemma {:induction false} MappedListing(store: Store, m: PathMapping, segs: seq<string>, c: char, config: BucketConfig, params: ListParams)
    requires m.Valid() && m.bucketSegments >= 1 && m.bucketSeparator == [c]
    requires |segs| == m.bucketSegments && PathSegments(segs, c)
    requires PathStore(store) && params.continuationToken.None?
    requires FoldersOnly(DirectPage(View(store, KeyPrefix(config)), params), params.delimiter)
    ensures var resolved := Mapped(m, segs, c, config);
            var r := HandleList(store, config, params, resolved.listRewrite, resolved.displayName);
            var page := DirectPage(View(store, KeyPrefix(config)), params);
            var add := m.KeyPrefixOf(segs);
            && r.Ok? && r.value.name == m.DisplayBucket(segs)
            && ShownBehind(PlainContents(store, config, params), r.value.entries.contents, add, UrlEncoded(params))
            && r.value.entries.commonPrefixes == EncodedAll(Prefixed(add, page.commons), UrlEncoded(params))
            && r.value.entries.prefixValue == S3Encode(add + params.prefix, UrlEncoded(params))
            && r.value.isTruncated == page.truncated
            && (params.isV2 <==> r.value.ResponseV2?)
            && (params.isV2 ==> r.value.keyCount == |page.objects| + |page.commons|)
  {
    var add := m.KeyPrefixOf(segs);
    MappedContents(store, m, segs, c, config, params);
    MappedIs(m, segs, c, config);
    BackendPageOfView(store, config, params);
    StorePageOfView(store, config, params);
    MappedCommons(store, add, config, params);
    MappedEcho(ViewStorePage(store, config, params), add, config, params, m.DisplayBucket(segs));
  }

  /**
    Every key shown in a mapped bucket names one: the path made of the listing's bucket name
    and the shown key resolves to the internal bucket and the key the object is seen under.
    That is the listed object itself exactly when the object is no folder marker.
   */
  lemma {:induction false} ListedKeysAreFetchable(store: Store, m: PathMapping, segs: seq<string>, c: char, config: BucketConfig,
                                                  params: ListParams, i: nat, query: Option<string>)
    requires m.Valid() && m.displayBucketSegments >= 1 && m.bucketSeparator == [c] && c != '/'
    requires |segs| == m.bucketSegments && PathSegments(segs, c)
    requires PathStore(store) && params.continuationToken.None?
    requires FoldersOnly(DirectPage(View(store, KeyPrefix(config)), params), params.delimiter)
    requires i < |VisibleKeys(store, config, params)|
    ensures var resolved := Mapped(m, segs, c, config);
            var r := HandleList(store, config, params, resolved.listRewrite, resolved.displayName);
            var stored := VisibleKeys(store, config, params)[i];
            var key := SeenKey(config, stored);
            && r.Ok? && |r.value.entries.contents| == |VisibleKeys(store, config, params)|
            && ApplyBackendPrefix(config, stored) in store
            && (key == stored <==> !FolderName(stored))
            && var listed := ReadKey(r.value.entries.contents[i].key, UrlEncoded(params));
            && listed.Some?
            && ParsePathStyle(m.RewriteRequest("/" + r.value.name + "/" + listed.value, query).path) == Ok((Join(segs, [c]), key))
  {
    var stored := VisibleKeys(store, config, params)[i];
    MappedContents(store, m, segs, c, config, params);
    VisibleStored(store, config, params, stored);
    PrefixedPath(config, stored);
    ReadShown(m.KeyPrefixOf(segs) + SeenKey(config, stored), UrlEncoded(params));
    SpelledPathResolves(m, segs, c, SeenKey(config, stored), query);
  }

  lemma {:induction false} VisibleStored(store: Store, config: BucketConfig, params: ListParams, k: string)
    requires PathStore(store) && k in VisibleKeys(store, config, params)
    ensures IsPath(KeyPrefix(config) + k) && ApplyBackendPrefix(config, k) in store
  {
    var view := View(store, KeyPrefix(config));
    var page := DirectPage(view, params);
    VisibleMembers(view, page.objects, page.commons, params.prefix);
    ViewHas(store, KeyPrefix(config), k);
    ApplyIsKeyPrefix(config, k);
  }

  /** Beside a folder marker its name without the slash is stored; for the marker of the root, the prefix twice. */
  predicate HasTwin(store: Store, config: BucketConfig, k: string)
    requires FolderName(k)
  {
    if k == "" then KeyPrefix(config) + TrimmedPrefix(config) in store else KeyPrefix(config) + k[..|k| - 1] in store
  }

  /**
    Every key shown in a mapped bucket can be fetched exactly when for each visible folder
    marker the store also holds the key without the slash, and for a marker of the bucket's
    own root the one with the backend prefix twice.
   */
  lemma {:induction false} AllFetchableExactly(store: Store, config: BucketConfig, params: ListParams)
    requires PathStore(store)
    ensures var keys := VisibleKeys(store, config, params);
            (forall i :: 0 <= i < |keys| ==> ApplyBackendPrefix(config, SeenKey(config, keys[i])) in store)
            <==> forall i :: 0 <= i < |keys| && FolderName(keys[i]) ==> HasTwin(store, config, keys[i])
  {
    var keys := VisibleKeys(store, config, params);
    forall i | 0 <= i < |keys|
      ensures FolderName(keys[i]) ==>
                (ApplyBackendPrefix(config, SeenKey(config, keys[i])) in store <==> HasTwin(store, config, keys[i]))
      ensures !FolderName(keys[i]) ==> ApplyBackendPrefix(config, SeenKey(config, keys[i])) in store
    {
      assert keys[i] in keys;
      VisibleStored(store, config, params, keys[i]);
      PrefixedPath(config, keys[i]);
      ApplyIsKeyPrefix(config, SeenKey(config, keys[i]));
    }
  }

  // ---- Copy sources.

  /** A copy source is rewritten as its path is, with the version carried along. */
  lemma {:induction false} CopySourceAgreesWithRequest(m: PathMapping, path: string, version: Option<string>, query: Option<string>)
    requires m.Valid() && m.Parse(path).Some? && m.Parse(path).value.key.Some?
    requires FreeOf(StripPrefixOrSelf(path, "/"), "?versionId=")
    ensures m.RewriteCopySource(path + (if version.Some? then "?versionId=" + version.value else ""))
         == Some(m.RewriteRequest(path, query).path + (if version.Some? then "?versionId=" + version.value else ""))
  {
    var value := StripPrefixOrSelf(path, "/");
    var suffix := if version.Some? then "?versionId=" + version.value else "";
    assert value != "";
    assert StripPrefixOrSelf(path + suffix, "/") == value + suffix by {
      assert (path + suffix)[0] == path[0];
    }
    if version.Some? {
      assert value + suffix == value + "?versionId=" + version.value;
      SplitOnceAfterFree(value, "?versionId=", version.value);
    } else {
      assert value + suffix == value;
      FindNoneOfFree(value, "?versionId=");
    }
    assert ("/" + value)[1..] == value;
    assert m.Parse("/" + value) == m.Parse(path);
    var mapped := m.Parse(path).value;
    assert "/" + mapped.bucket + "/" + mapped.key.value == "/" + mapped.bucket + ("/" + mapped.key.value);
  }

  // ---- Which requests are rewritten, and what the signature is checked against.

  /** The path and query that were signed are kept, whatever is done to the request. */
  lemma SigningKeepsOriginal(m: PathMapping, path: string, query: Option<string>)
    requires m.Valid()
    ensures m.RewriteRequest(path, query).signingPath == path && m.RewriteRequest(path, query).signingQuery == query
  {
  }

  /** A path of so many named segments, with or without a key behind them. */
  ghost predicate SpellsMapped(spelled: string, segs: seq<string>, key: Option<string>) {
    && (forall i :: 0 <= i < |segs| ==> segs[i] != "" && '/' !in segs[i])
    && (spelled == Join(segs, "/") || spelled == Join(segs, "/") + "/" + (if key.Some? then key.value else ""))
    && (key.Some? ==> key.value != "" && spelled == Join(segs, "/") + "/" + key.value)
  }

  predicate FreeUpTo(parts: seq<string>, k: nat) {
    forall i :: 0 <= i < |parts| && i < k ==> '/' !in parts[i]
  }

  lemma FreeCons(head: string, rest: seq<string>, k: nat)
    requires '/' !in head && FreeUpTo(rest, k)
    ensures FreeUpTo([head] + rest, k + 1)
  {
    assert forall i :: 0 < i < |[head] + rest| ==> ([head] + rest)[i] == rest[i - 1];
  }

  /** All pieces but the last are free of slashes, and the last too if there are fewer than asked for. */
  lemma {:induction false} SplitNFree(s: string, n: nat)
    requires n >= 1
    ensures FreeUpTo(SplitN(s, "/", n), n - 1)
    ensures |SplitN(s, "/", n)| < n ==> FreeUpTo(SplitN(s, "/", n), n)
    decreases n
  {
    FindChar(s, '/');
    if n > 1 && Find(s, "/").Some? {
      var i := Find(s, "/").value;
      var rest := SplitN(s[i + |"/"|..], "/", n - 1);
      SplitNFree(s[i + |"/"|..], n - 1);
      FreeCons(s[..i], rest, n - 2);
      if |rest| < n - 1 {
        FreeCons(s[..i], rest, n - 1);
      }
    }
  }

  lemma {:induction false} JoinCons(head: string, rest: seq<string>)
    requires rest != []
    ensures Join([head] + rest, "/") == head + "/" + Join(rest, "/")
  {
    assert ([head] + rest)[1..] == rest;
  }

  lemma {:induction false} SplitNJoins(s: string, n: nat)
    requires n >= 1
    ensures Join(SplitN(s, "/", n), "/") == s
    decreases n
  {
    FindChar(s, '/');
    if n > 1 && Find(s, "/").Some? {
      var i := Find(s, "/").value;
      SplitNJoins(s[i + |"/"|..], n - 1);
      JoinCons(s[..i], SplitN(s[i + |"/"|..], "/", n - 1));
      assert s == s[..i] + "/" + s[i + |"/"|..];
    }
  }

  /** Pieces of a path, so many named segments first, spell it. */
  lemma {:induction false} PiecesSpell(spelled: string, parts: seq<string>, n: nat)
    requires Join(parts, "/") == spelled && 1 <= n <= |parts| <= n + 1
    requires FreeUpTo(parts, n) && NoneEmpty(parts[..n])
    ensures SpellsMapped(spelled, parts[..n], if |parts| > n && parts[n] != "" then Some(parts[n]) else None)
  {
    var segs := parts[..n];
    assert forall i :: 0 <= i < n ==> segs[i] == parts[i];
    if |parts| == n {
      assert segs == parts;
    } else {
      assert parts == segs + [parts[n]];
      JoinConcat(segs, [parts[n]], "/");
    }
  }

  /** What is parsed of a path is spelled by it. */
  lemma {:induction false} MappedIsSpelled(m: PathMapping, path: string)
    requires m.Valid() && m.bucketSegments >= 1 && m.Parse(path).Some?
    ensures var mapped := m.Parse(path).value;
            && |mapped.segments| == m.bucketSegments
            && SpellsMapped(StripPrefixOrSelf(path, "/"), mapped.segments, mapped.key)
  {
    var spelled := StripPrefixOrSelf(path, "/");
    var n := m.bucketSegments;
    var parts := SplitN(spelled, "/", n + 1);
    SplitNJoins(spelled, n + 1);
    SplitNFree(spelled, n + 1);
    PiecesSpell(spelled, parts, n);
  }

  /** A path is parsed exactly when it spells so many named segments, and then those. */
  lemma {:induction false} MappedExactly(m: PathMapping, path: string)
    requires m.Valid() && m.bucketSegments >= 1
    ensures m.Parse(path).Some?
            <==> exists segs, key :: |segs| == m.bucketSegments && SpellsMapped(StripPrefixOrSelf(path, "/"), segs, key)
  {
    if m.Parse(path).Some? {
      MappedIsSpelled(m, path);
    }
    if segs, key :| |segs| == m.bucketSegments && SpellsMapped(StripPrefixOrSelf(path, "/"), segs, key) {
      SpelledIsMapped(m, StripPrefixOrSelf(path, "/"), segs, key);
    }
  }

  /** The key behind the named segments. */
  lemma {:induction false} KeyBehind(m: PathMapping, spelled: string, segs: seq<string>, key: Option<string>)
    requires m.Valid() && |segs| == m.bucketSegments >= 1 && SpellsMapped(spelled, segs, key)
    ensures var parts := SplitN(spelled, "/", m.bucketSegments + 1);
            if |parts| > m.bucketSegments && parts[m.bucketSegments] != "" then key == Some(parts[m.bucketSegments]) else key.None?
  {
    if spelled == Join(segs, "/") + "/" + (if key.Some? then key.value else "") {
      SplitNOfJoined(segs, if key.Some? then key.value else "");
    } else {
      SplitNOfSegments(segs, m.bucketSegments + 1);
    }
  }

  /** A mapped path becomes its segments joined to one bucket name, the key behind it, and keeps its query. */
  lemma {:induction false} MappedRewritten(m: PathMapping, path: string, query: Option<string>, segs: seq<string>, key: Option<string>)
    requires m.Valid() && |segs| == m.bucketSegments >= 1 && SpellsMapped(StripPrefixOrSelf(path, "/"), segs, key)
    ensures m.RewriteRequest(path, query).path
         == (if key.None? then "/" + Join(segs, m.bucketSeparator) else "/" + Join(segs, m.bucketSeparator) + "/" + key.value)
    ensures m.RewriteRequest(path, query).query == query
  {
    var spelled := StripPrefixOrSelf(path, "/");
    SpelledIsMapped(m, spelled, segs, key);
    KeyBehind(m, spelled, segs, key);
    assert "/" + Join(segs, m.bucketSeparator) + "" == "/" + Join(segs, m.bucketSeparator);
    assert key.Some? ==> "/" + Join(segs, m.bucketSeparator) + ("/" + key.value) == "/" + Join(segs, m.bucketSeparator) + "/" + key.value;
  }

  /** Without a separator no bucket name is taken apart: there is nothing before the first character. */
  lemma {:induction false} NoSeparator(m: PathMapping, name: string)
    requires m.Valid() && m.bucketSeparator == ""
    ensures m.ParseBucketName(name).None?
  {
    assert ([""] + Chars(name) + [""])[0] == "";
  }

  lemma {:induction false} SplitNOfSegments(segs: seq<string>, n: nat)
    requires segs != [] && (forall i :: 0 <= i < |segs| ==> '/' !in segs[i]) && n >= |segs|
    ensures SplitN(Join(segs, "/"), "/", n) == segs
    decreases |segs|
  {
    if |segs| == 1 {
      FreeOfChar(segs[0], '/');
      FindNoneOfFree(segs[0], "/");
      assert segs == [segs[0]];
    } else {
      SplitNOfSegments(segs[1..], n - 1);
      assert segs == [segs[0]] + segs[1..];
      JoinCons(segs[0], segs[1..]);
      SplitNHead(segs[0], Join(segs[1..], "/"), n - 1);
    }
  }

  lemma {:induction false} SpelledIsMapped(m: PathMapping, spelled: string, segs: seq<string>, key: Option<string>)
    requires m.Valid() && |segs| == m.bucketSegments >= 1 && SpellsMapped(spelled, segs, key)
    ensures spelled != "" && SplitN(spelled, "/", m.bucketSegments + 1)[..] != []
    ensures var parts := SplitN(spelled, "/", m.bucketSegments + 1);
            |parts| >= m.bucketSegments && parts[..m.bucketSegments] == segs
  {
    JoinNonEmpty(segs, "/");
    if spelled == Join(segs, "/") {
      SplitNOfSegments(segs, m.bucketSegments + 1);
      assert segs[..m.bucketSegments] == segs;
    } else {
      var k := if key.Some? then key.value else "";
      SplitNOfJoined(segs, k);
      assert (segs + [k])[..|segs|] == segs;
    }
  }

  /** A place in a query where a parameter begins, spelled with a given tag. */
  ghost predicate BeginsAt(query: string, tag: string, i: int) {
    0 <= i <= |query| && (i == 0 || query[i - 1] == '&') && tag <= query[i..]
  }

  ghost predicate SomeSegment(query: string, tag: string) {
    exists p :: p in Split(query, "&") && tag <= p
  }

  ghost predicate BeginsSomewhere(query: string, tag: string) {
    exists i :: BeginsAt(query, tag, i)
  }

  lemma {:induction false} SegmentsBegin(query: string, tag: string)
    requires '&' !in tag
    ensures SomeSegment(query, tag) <==> BeginsSomewhere(query, tag)
    decreases |query|
  {
    FindChar(query, '&');
    FindSpec(query, "&");
    var r := Find(query, "&");
    if r.None? {
      OnlySegment(query, tag);
    } else {
      var k := r.value;
      SegmentsBegin(query[k + 1..], tag);
      AnyOfCons(query[..k], Split(query[k + 1..], "&"), tag);
      BeginsCons(query, tag, k);
    }
  }

  lemma AnyOfCons(head: string, rest: seq<string>, tag: string)
    ensures (exists p :: p in [head] + rest && tag <= p) <==> tag <= head || exists p :: p in rest && tag <= p
  {
    assert head in [head] + rest;
    if p :| p in rest && tag <= p {
      assert p in [head] + rest;
    }
  }

  lemma OnlySegment(query: string, tag: string)
    requires Split(query, "&") == [query] && '&' !in query
    ensures SomeSegment(query, tag) <==> BeginsSomewhere(query, tag)
  {
    assert query in [query] && query[0..] == query;
    assert tag <= query ==> BeginsAt(query, tag, 0);
  }

  /** What is free of a character and begins a text ends before that character. */
  lemma EndsBefore(query: string, tag: string, k: nat)
    requires k < |query| && query[k] == '&' && '&' !in tag && tag <= query
    ensures tag <= query[..k]
  {
    assert forall j :: 0 <= j < |tag| ==> query[j] == tag[j] && tag[j] in tag;
  }

  lemma NoneBefore(query: string, k: nat, i: nat)
    requires k < |query| && '&' !in query[..k] && 0 < i <= |query| && query[i - 1] == '&'
    ensures i - 1 >= k
  {
    forall j | 0 <= j < k
      ensures query[j] != '&'
    {
      assert query[..k][j] == query[j];
    }
  }

  lemma BeginsCons(query: string, tag: string, k: nat)
    requires k < |query| && query[k] == '&' && '&' !in query[..k] && '&' !in tag
    ensures BeginsSomewhere(query, tag) <==> tag <= query[..k] || BeginsSomewhere(query[k + 1..], tag)
  {
    var rest := query[k + 1..];
    assert query[0..] == query;
    if tag <= query[..k] {
      assert BeginsAt(query, tag, 0);
    }
    if j :| BeginsAt(rest, tag, j) {
      assert rest[j..] == query[k + 1 + j..];
      assert BeginsAt(query, tag, k + 1 + j);
    }
    if i :| BeginsAt(query, tag, i) {
      if i == 0 {
        EndsBefore(query, tag, k);
      } else {
        NoneBefore(query, k, i);
        assert rest[i - k - 1..] == query[i..];
        assert BeginsAt(rest, tag, i - k - 1);
      }
    }
  }

  /** A list request spells `list-type=` at its beginning or behind an `&`. */
  lemma {:induction false} ListAskedExactly(query: string)
    ensures IsListRequest(query) <==> exists i :: BeginsAt(query, "list-type=", i)
  {
    SegmentsBegin(query, "list-type=");
  }

  /** A request that is neither mapped nor a list request for an account's prefix passes as it is. */
  lemma PassesThrough(m: PathMapping, path: string, query: Option<string>)
    requires m.Valid() && m.Parse(path).None?
    requires var name := TrimStart(TrimEnd(path, '/'), '/');
             || name == "" || '/' in name || query.None? || !IsListRequest(query.value)
             || ExtractQueryParam(query.value, "prefix") == None || ExtractQueryParam(query.value, "prefix") == Some("")
    ensures m.RewriteRequest(path, query).path == path && m.RewriteRequest(path, query).query == query
  {
    if query.None? {
      NoListInNothing();
    }
  }

  lemma NoListInNothing()
    ensures !IsListRequest("")
  {
    SplitSingle("", "&");
    assert !("list-type=" <= "");
  }
}
