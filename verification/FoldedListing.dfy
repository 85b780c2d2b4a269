/** When the listing of a folded bucket is the listing the client asked for. */
module FoldedListing {
  import opened Text
  import opened Ordering
  import opened Percent
  import opened Types
  import opened Keys
  import opened Query
  import opened Requests
  import opened Listing
  import opened PrefixView
  import opened PathMapping
  import opened PrefixFolding
  import opened FirstKeys
  import opened FolderListing

  /** The internal bucket's listing, as the mapping has it shown, against the folder's under the client's own parameters. */
  ghost predicate SameListing(m: PathMapping, bucket: string, account: string, folder: string, store: Store, config: BucketConfig,
                              sent: ListParams, asked: ListParams)
    requires m.Valid() && sent.continuationToken.None? && asked.continuationToken.None?
  {
    var resolved := ApplyMapping(m, bucket, ResolvedBucket(config, None, None));
    Listed(HandleList(store, config, sent, resolved.listRewrite, resolved.displayName))
    == Listed(HandleList(UnderFolder(folder, View(store, KeyPrefix(config))), PLAIN, asked, None, Some(account)))
  }

  /**
    Whatever the internal bucket holds and whatever its backend prefix, the answer to the
    rewritten request is the answer to the client's own parameters from a bucket in which the
    keys lie in the folder of the product. The marker for the next page is left aside.
   */
  ghost predicate KeepsListing(m: PathMapping, account: string, query: string)
    requires m.Valid()
  {
    var r := m.RewriteRequest("/" + account, Some(query));
    var target := ParsePathStyle(r.path);
    var prefix := ExtractQueryParam(query, "prefix");
    var asked, sent := ListParamsOf(QueryPairs(Some(query))), ListParamsOf(QueryPairs(r.query));
    && target.Ok? && target.value.1 == "" && prefix.Some?
    && asked.continuationToken.None? && sent.continuationToken.None?
    && var folder := FoldParts(prefix.value).0 + "/";
    SameOnAll(m, target.value.0, account, folder, sent, asked)
  }

  ghost predicate SameOnAll(m: PathMapping, bucket: string, account: string, folder: string, sent: ListParams, asked: ListParams)
    requires m.Valid() && sent.continuationToken.None? && asked.continuationToken.None?
  {
    forall store, config :: PathStore(store) && KeyPrefix(config) !in store ==>
      SameListing(m, bucket, account, folder, store, config, sent, asked)
  }

  // ---- Offsets.

  /** The first key the offset lets through is the same in the folder and outside it. */
  predicate SameFirstKey(folder: string, after: Option<string>, rest: string) {
    FirstListed(BoundOf(after), rest) == FirstListed(Shifted(folder, BoundOf(after)), rest)
  }

  lemma {:induction false} OffsetAgreesExactly(folder: string, after: Option<string>, rest: string)
    ensures OffsetAgrees(folder, after, rest) <==> SameFirstKey(folder, after, rest)
  {
    var b := BoundOf(after);
    SameKeysExactly(b, Shifted(folder, b), rest);
    forall k
      ensures Past(b, folder + k) <==> Past(Shifted(folder, b), k)
    {
      ShiftedPast(folder, b, k);
    }
  }

  // ---- What a listing of at most one key shows.

  predicate ShowsSomething(r: Result<ListResponse, ProxyError>) {
    r.Err? || r.value.isTruncated || r.value.entries.contents != [] || r.value.entries.commonPrefixes != []
  }

  lemma {:induction false} OneKeySelected(key: string, prefix: string, after: Option<string>)
    requires prefix <= key
    ensures SortedKeys(Selected(map[key := 1], prefix, after)) == if Past(BoundOf(after), key) then [key] else []
  {
    var keys := Selected(map[key := 1], prefix, after);
    var ks := if Past(BoundOf(after), key) then [key] else [];
    assert keys == if Past(BoundOf(after), key) then {key} else {};
    assert Enumerates(ks, keys);
    SortedKeysUnique(ks, keys);
  }

  lemma {:induction false} OneKeyPage(key: string, params: ListParams)
    requires params.prefix <= key
    ensures var page := DirectPage(map[key := 1], params);
            if !Past(BoundOf(AfterOf(params)), key) then page == Page([], [], false)
            else || page == Page([], [], true) || page == Page([key], [], false)
                 || (|page.commons| == 1 && page == Page([], page.commons, false))
  {
    var after := AfterOf(params);
    OneKeySelected(key, params.prefix, after);
    SelectedSorted(map[key := 1], params.prefix, after);
    var ks := SortedKeys(Selected(map[key := 1], params.prefix, after));
    if Past(BoundOf(after), key) {
      var e := Classify(key, params.prefix, params.delimiter);
      assert [key][1..] == [];
      assert Group([key], params.prefix, params.delimiter) == [e];
      assert Singles([e]) == if e.Single? then [e.key] else [];
      assert Rolls([e]) == if e.Rolled? then [e.prefix] else [];
    }
  }

  lemma {:induction false} EmptyPageShows(store: Store, config: BucketConfig, params: ListParams, rewrite: Option<ListRewrite>,
                                          displayName: Option<string>, more: bool)
    requires params.continuationToken.None? && BackendPage(store, config, params) == Page([], [], more)
    ensures var r := HandleList(store, config, params, rewrite, displayName);
            && r.Ok? && (ShowsSomething(r) <==> more)
            && r.value.name == OrElse(displayName, config.name)
            && r.value.entries.prefixValue == S3Encode(PrefixEcho(params, rewrite), UrlEncoded(params))
  {
    assert ToStorePage(store, Page([], [], more)) == Some(StorePage([], [], more));
  }

  lemma {:induction false} KeyShows(key: string, params: ListParams, rewrite: Option<ListRewrite>, displayName: Option<string>)
    requires IsPath(key)
    requires params.continuationToken.None? && BackendPage(map[key := 1], PLAIN, params) == Page([key], [], false)
    ensures ShowsSomething(HandleList(map[key := 1], PLAIN, params, rewrite, displayName))
  {
    var store: Store, obj := map[key := 1], Content(Unslashed(key), 1);
    ParseIsPath(key);
    ParseOne(key);
    assert WithSizes([obj.key], [key], store) == [obj] + WithSizes([obj.key][1..], [key][1..], store);
    assert ParsePaths([]) == Some([]) && WithSizes([obj.key], [key], store) == [obj];
    assert ToStorePage(store, Page([key], [], false)) == Some(StorePage([obj], [], false));
    HandleIs(store, PLAIN, params, rewrite, displayName, Some(StorePage([obj], [], false)));
    CollectCons([obj], [], PLAIN, params.prefix, rewrite, UrlEncoded(params));
  }

  lemma {:induction false} CommonShows(store: Store, params: ListParams, rewrite: Option<ListRewrite>, displayName: Option<string>, c: string)
    requires params.continuationToken.None? && BackendPage(store, PLAIN, params) == Page([], [c], false)
    ensures ShowsSomething(HandleList(store, PLAIN, params, rewrite, displayName))
  {
    ParseOne(c);
  }

  lemma {:induction false} ParseOne(raw: string)
    ensures ParsePaths([raw]) == if ParsePath(raw).None? then None else Some([ParsePath(raw).value])
  {
    var raws := [raw];
    assert raws[1..] == [] && ParsePaths(raws[1..]) == Some([]);
    if ParsePath(raw).Some? {
      assert [ParsePath(raw).value] + [] == [ParsePath(raw).value];
    }
  }

  /** Of a bucket with one key of one byte, a listing shows something exactly when the offset lets the key through. */
  lemma {:induction false} OneKeyShows(key: string, params: ListParams, rewrite: Option<ListRewrite>, displayName: Option<string>)
    requires IsPath(key) && params.prefix <= key && params.continuationToken.None?
    ensures ShowsSomething(HandleList(map[key := 1], PLAIN, params, rewrite, displayName)) <==> Past(BoundOf(AfterOf(params)), key)
  {
    var store: Store := map[key := 1];
    var page := DirectPage(store, params);
    OneKeyPage(key, params);
    PlainPage(store, params);
    if page.objects != [] {
      KeyShows(key, params, rewrite, displayName);
    } else if page.commons != [] {
      assert page.commons == [page.commons[0]];
      CommonShows(store, params, rewrite, displayName, page.commons[0]);
    } else {
      EmptyPageShows(store, PLAIN, params, rewrite, displayName, page.truncated);
    }
  }

  lemma {:induction false} EmptyStore(config: BucketConfig, params: ListParams, rewrite: Option<ListRewrite>, displayName: Option<string>)
    requires params.continuationToken.None?
    ensures var r := HandleList(map[], config, params, rewrite, displayName);
            && r.Ok? && r.value.name == OrElse(displayName, config.name)
            && r.value.entries.prefixValue == S3Encode(PrefixEcho(params, rewrite), UrlEncoded(params))
  {
    NothingToList(BuildListPrefix(config, params.prefix), params.delimiter, BackendAfter(config, params), params.maxKeys);
    EmptyPageShows(map[], config, params, rewrite, displayName, false);
  }

  function BackendAfter(config: BucketConfig, params: ListParams): Option<string> {
    var after := AfterOf(params);
    if after.None? then None else Some(BuildListPrefix(config, after.value))
  }

  lemma {:induction false} NothingToList(prefix: string, delim: string, after: Option<string>, max: nat)
    ensures ListPage(map[], prefix, delim, after, max) == Page([], [], false)
  {
    assert Selected(map[], prefix, after) == {};
    SelectedSorted(map[], prefix, after);
  }

  // ---- What two equal answers tell.

  lemma {:induction false} EmptyFolder(q: string, p: string)
    ensures UnderFolder(q, View(map[], p)) == map[]
  {
    ghost var view := View(map[], p);
    forall k
      ensures k !in view
    {
      ViewHas(map[], p, k);
    }
  }

  lemma {:induction false} OneKeyFolder(q: string, k: string)
    ensures UnderFolder(q, View(map[k := 1], "")) == map[q + k := 1]
  {
    ghost var store: Store := map[k := 1];
    ghost var view := View(store, "");
    forall x
      ensures x in view <==> x == k
    {
      ViewHas(store, "", x);
      assert "" + x == x;
    }
    ViewHas(store, "", k);
    FolderHas(q, view, k);
    forall key
      ensures key in UnderFolder(q, view) <==> key == q + k
    {
      if key in UnderFolder(q, view) {
        assert key == q + key[|q|..];
      }
    }
  }

  const OTHER_NAME := "x"

  /** The name shown for an empty bucket gives away whether the internal name was taken apart. */
  lemma {:induction false} NameIsMapped(m: PathMapping, bucket: string, account: string, folder: string, sent: ListParams, asked: ListParams)
    requires m.Valid() && sent.continuationToken.None? && asked.continuationToken.None?
    requires SameOnAll(m, bucket, account, folder, sent, asked)
    ensures m.ParseBucketName(bucket).Some?
  {
    var config := PLAIN.(name := account + OTHER_NAME);
    assert KeyPrefix(config) == "" && SameListing(m, bucket, account, folder, map[], config, sent, asked);
    EmptyFolder(folder, "");
    EmptyStore(config, sent, None, None);
    EmptyStore(PLAIN, asked, None, Some(account));
  }

  lemma {:induction false} MappedTo(m: PathMapping, bucket: string, folder: string, account: string, config: BucketConfig)
    requires m.Valid() && folder != ""
    requires var r := m.ParseBucketName(bucket); r.Some? && r.value.keyPrefix == folder && r.value.displayBucket == account
    ensures ApplyMapping(m, bucket, ResolvedBucket(config, None, None)) == ResolvedBucket(config, AddsFolder(folder), Some(account))
  {
  }

  /** The prefix shown for an empty bucket is the one asked for. */
  lemma {:induction false} PrefixIsAsked(m: PathMapping, bucket: string, account: string, folder: string, sent: ListParams, asked: ListParams)
    requires m.Valid() && sent.continuationToken.None? && asked.continuationToken.None? && folder != ""
    requires var r := m.ParseBucketName(bucket); r.Some? && r.value.keyPrefix == folder && r.value.displayBucket == account
    requires UrlEncoded(sent) == UrlEncoded(asked)
    requires SameOnAll(m, bucket, account, folder, sent, asked)
    ensures asked.prefix == folder + sent.prefix
  {
    MappedTo(m, bucket, folder, account, PLAIN);
    assert KeyPrefix(PLAIN) == "" && SameListing(m, bucket, account, folder, map[], PLAIN, sent, asked);
    EmptyFolder(folder, "");
    EmptyStore(PLAIN, sent, AddsFolder(folder), Some(account));
    EmptyStore(PLAIN, asked, None, Some(account));
    EncodeInjective(folder + sent.prefix, asked.prefix, UrlEncoded(sent));
  }

  lemma {:induction false} KeyShownAdded(k: string, folder: string, name: string, sent: ListParams)
    requires IsPath(k) && sent.prefix <= k && sent.continuationToken.None?
    ensures ShowsSomething(Listed(HandleList(map[k := 1], PLAIN, sent, AddsFolder(folder), Some(name)))) <==> Past(BoundOf(AfterOf(sent)), k)
  {
    OneKeyShows(k, sent, AddsFolder(folder), Some(name));
    ListedShows(HandleList(map[k := 1], PLAIN, sent, AddsFolder(folder), Some(name)));
  }

  lemma {:induction false} KeyShownInFolder(k: string, folder: string, name: string, asked: ListParams)
    requires IsPath(k) && Base(folder) && asked.prefix <= folder + k && asked.continuationToken.None?
    ensures ShowsSomething(Listed(HandleList(UnderFolder(folder, View(map[k := 1], "")), PLAIN, asked, None, Some(name))))
            <==> Past(BoundOf(AfterOf(asked)), folder + k)
  {
    OneKeyFolder(folder, k);
    PathIsRooted(k);
    PathBehind(folder, k);
    OneKeyShows(folder + k, asked, None, Some(name));
    ListedShows(HandleList(map[folder + k := 1], PLAIN, asked, None, Some(name)));
  }

  /** A bucket of one key tells whether the offset lets it through on both sides. */
  lemma {:induction false} OneKeyTells(m: PathMapping, bucket: string, account: string, folder: string, sent: ListParams, k: string)
    requires m.Valid() && sent.continuationToken.None? && folder != "" && Base(folder)
    requires var r := m.ParseBucketName(bucket); r.Some? && r.value.keyPrefix == folder && r.value.displayBucket == account
    requires SameListing(m, bucket, account, folder, map[k := 1], PLAIN, sent, sent.(prefix := folder + sent.prefix))
    requires IsPath(k) && sent.prefix <= k
    ensures Past(BoundOf(AfterOf(sent)), k) <==> Past(BoundOf(AfterOf(sent)), folder + k)
  {
    var asked := sent.(prefix := folder + sent.prefix);
    MappedTo(m, bucket, folder, account, PLAIN);
    KeyShownAdded(k, folder, account, sent);
    assert (folder + k)[..|folder + sent.prefix|] == folder + sent.prefix;
    KeyShownInFolder(k, folder, account, asked);
    assert KeyPrefix(PLAIN) == "";
  }

  lemma {:induction false} OffsetIsAsked(m: PathMapping, bucket: string, account: string, folder: string, sent: ListParams)
    requires m.Valid() && sent.continuationToken.None? && EndsWith(folder, "/") && Base(folder)
    requires var r := m.ParseBucketName(bucket); r.Some? && r.value.keyPrefix == folder && r.value.displayBucket == account
    requires SameOnAll(m, bucket, account, folder, sent, sent.(prefix := folder + sent.prefix))
    ensures OffsetAgrees(folder, AfterOf(sent), sent.prefix)
  {
    forall k | IsPath(k) && sent.prefix <= k
      ensures Past(BoundOf(AfterOf(sent)), k) <==> Past(BoundOf(AfterOf(sent)), folder + k)
    {
      var store: Store := map[k := 1];
      OneKeyStore(k);
      assert SameListing(m, bucket, account, folder, store, PLAIN, sent, sent.(prefix := folder + sent.prefix));
      OneKeyTells(m, bucket, account, folder, sent, k);
    }
  }

  lemma {:induction false} OneKeyStore(k: string)
    requires IsPath(k)
    ensures PathStore(map[k := 1]) && KeyPrefix(PLAIN) !in map[k := 1]
  {
    PathIsRooted(k);
  }

  lemma ListedShows(r: Result<ListResponse, ProxyError>)
    ensures ShowsSomething(Listed(r)) <==> ShowsSomething(r)
  {
  }

  /** And in every bucket the answers agree when name, prefix and offset do. */
  lemma {:induction false} SameOnAllExactly(m: PathMapping, bucket: string, account: string, folder: string, sent: ListParams, asked: ListParams)
    requires m.Valid() && sent.continuationToken.None? && EndsWith(folder, "/") && Base(folder)
    requires asked == sent.(prefix := asked.prefix)
    requires var r := m.ParseBucketName(bucket); r.Some? ==> r.value.keyPrefix == folder && r.value.displayBucket == account
    ensures SameOnAll(m, bucket, account, folder, sent, asked)
            <==> && m.ParseBucketName(bucket).Some? && asked.prefix == folder + sent.prefix
                 && SameFirstKey(folder, AfterOf(sent), sent.prefix)
  {
    OffsetAgreesExactly(folder, AfterOf(sent), sent.prefix);
    if SameOnAll(m, bucket, account, folder, sent, asked) {
      NameIsMapped(m, bucket, account, folder, sent, asked);
      PrefixIsAsked(m, bucket, account, folder, sent, asked);
      OffsetIsAsked(m, bucket, account, folder, sent);
    }
    if m.ParseBucketName(bucket).Some? && asked.prefix == folder + sent.prefix && SameFirstKey(folder, AfterOf(sent), sent.prefix) {
      forall store, config | PathStore(store) && KeyPrefix(config) !in store
        ensures SameListing(m, bucket, account, folder, store, config, sent, asked)
      {
        MappedTo(m, bucket, folder, account, config);
        FolderShown(store, config, folder, sent, account);
      }
    }
  }

  // ---- What the parameters are read from.

  lemma {:induction false} OthersDecide(pairs: Pairs, name: string, current: Option<string>)
    requires name != "prefix"
    ensures LastValue(pairs, name, current) == LastValue(Others(pairs), name, current)
  {
    if pairs != [] {
      var next := if pairs[0].0 == name then Some(pairs[0].1) else current;
      OthersDecide(pairs[1..], name, next);
      assert pairs[0].0 != "prefix" ==> Others(pairs)[1..] == Others(pairs[1..]);
    }
  }

  lemma {:induction false} OthersHold(pairs: Pairs, p: (string, string))
    requires p.0 != "prefix"
    ensures p in pairs <==> p in Others(pairs)
  {
    if pairs != [] {
      OthersHold(pairs[1..], p);
      assert p in pairs <==> p == pairs[0] || p in pairs[1..];
    }
  }

  /** All list parameters but the prefix are read from the other pairs. */
  lemma {:induction false} ParamsOfOthers(p1: Pairs, p2: Pairs)
    requires Others(p1) == Others(p2)
    ensures ListParamsOf(p1) == ListParamsOf(p2).(prefix := ListParamsOf(p1).prefix)
  {
    forall name | name != "prefix"
      ensures LastValue(p1, name, None) == LastValue(p2, name, None)
    {
      OthersDecide(p1, name, None);
      OthersDecide(p2, name, None);
    }
    OthersHold(p1, ("list-type", "2"));
    OthersHold(p2, ("list-type", "2"));
  }

  lemma {:induction false} FirstGivesLast(segs: seq<string>, current: Option<string>)
    ensures FirstParam(segs, "prefix").Some? || current.Some? ==> LastPrefixSegment(segs, current).Some?
  {
    if segs != [] {
      FirstGivesLast(segs[1..], if NamesPrefix(segs[0]) then Some(segs[0]) else current);
      RawName(segs[0], "");
    }
  }

  // ---- The theorem.

  /**
    Whatever the query holds, the folded listing is the one the client asked for exactly when
    account and product can be told apart in the internal name, the last prefix parameter,
    which the list parser reads, is spelled plainly and reads as the product and what is
    received of the remainder, and the offset, which the fold leaves as it is, lets the same
    first key through inside the product's folder and outside it.
   */
  lemma {:induction false} FoldingExactly(m: PathMapping, account: string, c: char, query: string, prefix: string)
    requires m == PathMapping(2, [c], 1) && c != '/' && account != "" && '/' !in account
    requires IsListRequest(query) && ExtractQueryParam(query, "prefix") == Some(prefix) && prefix != ""
    requires ListParamsOf(QueryPairs(Some(query))).continuationToken.None?
    requires FoldParts(prefix).0 != "." && FoldParts(prefix).0 != ".."
    ensures var (product, rest) := FoldParts(prefix);
            var last := LastPrefixSegment(Split(query, "&"), None);
            KeepsListing(m, account, query)
            <==> && c !in account && c !in product && product != ""
                 && last.Some? && "prefix=" <= last.value
                 && FormDecode(last.value[7..]) == product + "/" + Received(rest)
                 && SameFirstKey(product + "/", AfterOf(ListParamsOf(QueryPairs(Some(query)))), Received(rest))
  {
    var (product, rest) := FoldParts(prefix);
    var last := LastPrefixSegment(Split(query, "&"), None);
    var bucket := account + [c] + product;
    var asked, sent := ListParamsOf(Query.Parse(query)), ListParamsOf(Query.Parse(RewritePrefixInQuery(query, rest)));
    FoldPartsSpell(prefix);
    FoldedRequest(m, account, query, prefix);
    FoldedTarget(account, product, c);
    FoldedNameExactly(m, account, product, c);
    FoldAsked(query, rest);
    FirstGivesLast(Split(query, "&"), None);
    ParamsOfOthers(Query.Parse(query), Query.Parse(RewritePrefixInQuery(query, rest)));
    PrefixNamed("prefix=" + "");
    if "prefix=" <= last.value {
      PrefixNamed(last.value);
    }
    AskedExactly(last, product, rest);
    assert KeepsListing(m, account, query) <==> SameOnAll(m, bucket, account, product + "/", sent, asked);
    if product != "" {
      ProductFolder(product);
      SameOnAllExactly(m, bucket, account, product + "/", sent, asked);
    } else if SameOnAll(m, bucket, account, product + "/", sent, asked) {
      NameIsMapped(m, bucket, account, product + "/", sent, asked);
    }
  }

  lemma {:induction false} ProductFolder(product: string)
    requires '/' !in product && !DegenerateSegment(product)
    ensures Base(product + "/") && EndsWith(product + "/", "/")
  {
    SegmentIsClean(product);
    assert Unslashed(product + "/") == product;
  }

  // ---- Queries whose prefix parameters agree.

  /**
    When the prefix parameters agree, the fold keeps the listing exactly when the names can be
    told apart, the prefix has a slash, neither a raw `+` nor an escape in the remainder is
    read differently downstream, and the offset lets the same first key through.
   */
  lemma {:induction false} FoldingKeepsListing(m: PathMapping, account: string, c: char, query: string, v: string)
    requires m == PathMapping(2, [c], 1) && c != '/' && account != "" && '/' !in account
    requires IsListRequest(query) && AllPrefixesAre(Split(query, "&"), v)
    requires ExtractQueryParam(query, "prefix").Some? && ExtractQueryParam(query, "prefix") != Some("")
    requires ListParamsOf(QueryPairs(Some(query))).continuationToken.None?
    requires var product := FoldParts(ExtractQueryParam(query, "prefix").value).0; product != "." && product != ".."
    ensures var prefix := ExtractQueryParam(query, "prefix").value;
            var (product, rest) := FoldParts(prefix);
            KeepsListing(m, account, query)
            <==> && c !in account && c !in product && product != ""
                 && '/' in prefix && '+' !in v && !HasEscape(rest)
                 && SameFirstKey(product + "/", AfterOf(ListParamsOf(QueryPairs(Some(query)))), rest)
  {
    var prefix := ExtractQueryParam(query, "prefix").value;
    var (product, rest) := FoldParts(prefix);
    FoldingExactly(m, account, c, query, prefix);
    LastAmongEqual(Split(query, "&"), v, None);
    assert ("prefix=" + v)[7..] == v;
    FoldPartsSpell(prefix);
    ReadingsAgree(v);
    ValueSurvivesExactly(rest);
    PlainReading(prefix, product, rest, FormDecode(v));
  }
}
