/**
  One page shown in two ways: keys of a store with a folder's name added to each, and keys
  that lie in that folder. The answers are the same when the offset selects the same keys.
 */
module FolderListing {
  import opened Text
  import opened Ordering
  import opened Types
  import opened Keys
  import opened Query
  import opened Listing
  import opened PrefixView
  import opened FirstKeys

  // ---- The keys of a store, moved into a folder.

  ghost function FolderKeys(q: string, keys: set<string>): set<string> {
    set k | k in keys :: q + k
  }

  ghost function UnderFolder(q: string, view: Store): Store {
    map key | key in FolderKeys(q, view.Keys) && q <= key && key[|q|..] in view :: view[key[|q|..]]
  }

  lemma {:induction false} FolderHas(q: string, view: Store, k: string)
    ensures q + k in UnderFolder(q, view) <==> k in view
    ensures k in view ==> UnderFolder(q, view)[q + k] == view[k]
  {
    assert (q + k)[|q|..] == k;
    if k in view {
      assert q + k in FolderKeys(q, view.Keys);
    }
  }

  function BoundOf(after: Option<string>): Bound {
    if after.None? then Every else After(after.value)
  }

  /** The offset lets a key through exactly when it does so in the folder. */
  ghost predicate OffsetAgrees(q: string, after: Option<string>, rest: string) {
    forall k :: IsPath(k) && rest <= k ==> (Past(BoundOf(after), k) <==> Past(BoundOf(after), q + k))
  }

  ghost predicate KeysArePaths(view: Store) {
    forall k :: k in view ==> IsPath(k)
  }

  lemma {:induction false} FolderSelected(q: string, view: Store, rest: string, after: Option<string>)
    requires KeysArePaths(view) && OffsetAgrees(q, after, rest)
    ensures var inner, outer := Selected(view, rest, after), Selected(UnderFolder(q, view), q + rest, after);
            && (forall k :: k in inner <==> q + k in outer)
            && (forall key :: key in outer ==> q <= key)
  {
    var inner, outer := Selected(view, rest, after), Selected(UnderFolder(q, view), q + rest, after);
    forall k
      ensures k in inner <==> q + k in outer
    {
      FolderHas(q, view, k);
      assert rest <= k <==> q + rest <= q + k by {
        assert q + rest <= q + k ==> (q + k)[|q|..|q + rest|] == rest;
        assert rest <= k ==> (q + k)[..|q + rest|] == q + rest;
      }
      if k in view && rest <= k {
        assert Past(BoundOf(after), k) <==> Past(BoundOf(after), q + k);
      }
    }
  }

  /** The page of the folder is the page of the store, each key and common prefix in the folder. */
  lemma {:induction false} FolderPage(q: string, view: Store, rest: string, delim: string, after: Option<string>, max: nat)
    requires KeysArePaths(view) && OffsetAgrees(q, after, rest)
    ensures ListPage(UnderFolder(q, view), q + rest, delim, after, max)
         == PrefixedPage(q, ListPage(view, rest, delim, after, max))
  {
    var inner, outer := Selected(view, rest, after), Selected(UnderFolder(q, view), q + rest, after);
    FolderSelected(q, view, rest, after);
    SortedThroughPrefix(q, inner, outer);
    SelectedSorted(view, rest, after);
    SelectedSorted(UnderFolder(q, view), q + rest, after);
    PageOfThroughPrefix(q, SortedKeys(inner), rest, delim, max);
  }

  // ---- Paths behind a prefix.

  /** Nothing, or a clean path and a slash. */
  predicate Base(x: string) {
    x == "" || (EndsWith(x, "/") && CleanPath(Unslashed(x)))
  }

  /** Neither empty nor begun by a slash. */
  predicate Rooted(s: string) {
    s != "" && s[0] != '/'
  }

  lemma {:induction false} PathIsRooted(k: string)
    requires IsPath(k)
    ensures Rooted(k)
  {
    CleanPathNotEmpty(Unslashed(k));
  }

  lemma {:induction false} UnslashedBehind(x: string, c: string)
    requires c != ""
    ensures Unslashed(x + c) == x + Unslashed(c)
  {
    assert (x + c)[|x + c| - 1] == c[|c| - 1];
    assert EndsWith(c, "/") ==> (x + c)[..|x + c| - 1] == x + c[..|c| - 1];
  }

  lemma {:induction false} ParseRooted(raw: string)
    requires Rooted(raw)
    ensures ParsePath(raw) == if IsPath(raw) then Some(Unslashed(raw)) else None
  {
    assert StripPrefixOrSelf(raw, "/") == raw;
  }

  lemma {:induction false} PathInFolder(t: string, c: string)
    requires CleanPath(t) && Rooted(c)
    ensures Rooted(t + "/" + c) && (IsPath(t + "/" + c) <==> IsPath(c))
  {
    CleanPathNotEmpty(t);
    PathUnder(t, c);
  }

  lemma {:induction false} PathBehind(x: string, c: string)
    requires Base(x) && Rooted(c)
    ensures IsPath(x + c) <==> IsPath(c)
    ensures ParsePath(x + c) == if IsPath(c) then Some(Unslashed(x + c)) else None
  {
    if x == "" {
      assert x + c == c;
    } else {
      assert x == Unslashed(x) + "/";
      PathInFolder(Unslashed(x), c);
    }
    ParseRooted(x + c);
  }

  predicate AllPaths(ss: seq<string>) {
    forall i :: 0 <= i < |ss| ==> IsPath(ss[i])
  }

  predicate AllRooted(ss: seq<string>) {
    forall i :: 0 <= i < |ss| ==> Rooted(ss[i])
  }

  lemma {:induction false} ParseBehind(x: string, ss: seq<string>)
    requires AllRooted(ss) && (ss == [] || Base(x))
    ensures ParsePaths(Prefixed(x, ss)) == if AllPaths(ss) then Some(UnslashedAll(Prefixed(x, ss))) else None
  {
    if ss != [] {
      PathBehind(x, ss[0]);
      ParseBehind(x, ss[1..]);
      assert Prefixed(x, ss)[1..] == Prefixed(x, ss[1..]);
      assert AllPaths(ss) <==> IsPath(ss[0]) && AllPaths(ss[1..]);
    }
  }

  // ---- What a page shows.

  predicate IsMarker(view: Store, commons: seq<string>, rest: string, k: string)
    requires k in view
  {
    view[k] == 0 && (Unslashed(k) in UnslashedAll(commons) || Unslashed(k) == TrimEnd(rest, '/'))
  }

  predicate AllIn(ks: seq<string>, view: Store) {
    forall i :: 0 <= i < |ks| ==> ks[i] in view
  }

  function OneContent(q: string, view: Store, k: string, commons: seq<string>, rest: string, urlEncode: bool): seq<Content>
    requires k in view
  {
    if IsMarker(view, commons, rest, k) then [] else [Content(S3Encode(q + Unslashed(k), urlEncode), view[k])]
  }

  function FolderContents(q: string, view: Store, ks: seq<string>, commons: seq<string>, rest: string, urlEncode: bool): seq<Content>
    requires AllIn(ks, view)
  {
    if ks == [] then []
    else OneContent(q, view, ks[0], commons, rest, urlEncode) + FolderContents(q, view, ks[1..], commons, rest, urlEncode)
  }

  function FolderCommons(q: string, commons: seq<string>, urlEncode: bool): seq<string> {
    if commons == [] then []
    else [S3Encode(q + (Unslashed(commons[0]) + "/"), urlEncode)] + FolderCommons(q, commons[1..], urlEncode)
  }

  /** The keys the listing shows are what follows `x`, behind `q`. */
  ghost predicate Displays(config: BucketConfig, rewrite: Option<ListRewrite>, x: string, q: string) {
    forall u :: RewriteKey(x + u, KeyPrefix(config), rewrite) == q + u
  }

  /** The objects of a page are stored behind `x` as they are in the view. */
  ghost predicate StoredBehind(store: Store, x: string, view: Store, ks: seq<string>) {
    forall i :: 0 <= i < |ks| ==> IsPath(ks[i]) && ks[i] in view && x + ks[i] in store && store[x + ks[i]] == view[ks[i]]
  }

  lemma {:induction false} MemberBehind(x: string, u: string, cs: seq<string>)
    requires AllRooted(cs)
    ensures x + u in UnslashedAll(Prefixed(x, cs)) <==> u in UnslashedAll(cs)
  {
    var r, s := UnslashedAll(Prefixed(x, cs)), UnslashedAll(cs);
    forall i | 0 <= i < |cs|
      ensures r[i] == x + u <==> s[i] == u
    {
      UnslashedBehind(x, cs[i]);
      ConcatCancels(x, u, Unslashed(cs[i]));
    }
  }

  /** The text before the listed keys is no name of an object under it. */
  lemma {:induction false} ListedFolderBehind(x: string, u: string, rest: string)
    requires u != ""
    ensures x + u == TrimEnd(x + rest, '/') <==> u == TrimEnd(rest, '/')
  {
    TrimEndConcat(x, rest, '/');
    ConcatCancels(x, u, TrimEnd(rest, '/'));
    assert |TrimEnd(x, '/')| <= |x| < |x + u|;
  }

  lemma {:induction false} ShownBehindBase(config: BucketConfig, clientPrefix: string, rewrite: Option<ListRewrite>, x: string, q: string,
                                           view: Store, k: string, cs: seq<string>, rest: string, urlEncode: bool)
    requires KeyPrefix(config) + clientPrefix == x + rest && |TrimmedPrefix(config)| <= |x|
    requires Displays(config, rewrite, x, q)
    requires IsPath(k) && k in view && AllRooted(cs)
    ensures Shown(Content(Unslashed(x + k), view[k]), UnslashedAll(Prefixed(x, cs)), config, clientPrefix, rewrite, urlEncode)
         == OneContent(q, view, k, cs, rest, urlEncode)
  {
    var u := Unslashed(k);
    CleanPathNotEmpty(u);
    PathIsRooted(k);
    UnslashedBehind(x, k);
    MemberBehind(x, u, cs);
    ListedFolderBehind(x, u, rest);
    assert |x + u| > |TrimmedPrefix(config)|;
    assert RewriteKey(x + u, KeyPrefix(config), rewrite) == q + u;
  }

  lemma {:induction false} CollectBehind(store: Store, config: BucketConfig, clientPrefix: string, rewrite: Option<ListRewrite>,
                                         x: string, q: string, view: Store, ks: seq<string>, cs: seq<string>, rest: string,
                                         urlEncode: bool)
    requires KeyPrefix(config) + clientPrefix == x + rest && |TrimmedPrefix(config)| <= |x|
    requires Displays(config, rewrite, x, q)
    requires StoredBehind(store, x, view, ks) && AllIn(ks, view) && AllRooted(cs)
    ensures CollectContents(StoredAs(store, x, ks), UnslashedAll(Prefixed(x, cs)), config, clientPrefix, rewrite, urlEncode)
         == FolderContents(q, view, ks, cs, rest, urlEncode)
  {
    if ks != [] {
      CollectBehind(store, config, clientPrefix, rewrite, x, q, view, ks[1..], cs, rest, urlEncode);
      StoredCons(store, x, ks);
      var objects := StoredAs(store, x, ks);
      assert objects[1..] == StoredAs(store, x, ks[1..]);
      CollectCons(objects, UnslashedAll(Prefixed(x, cs)), config, clientPrefix, rewrite, urlEncode);
      ShownBehindBase(config, clientPrefix, rewrite, x, q, view, ks[0], cs, rest, urlEncode);
    }
  }

  lemma {:induction false} CommonsBehind(config: BucketConfig, rewrite: Option<ListRewrite>, x: string, q: string, cs: seq<string>,
                                         urlEncode: bool)
    requires Displays(config, rewrite, x, q) && AllRooted(cs)
    ensures CollectPrefixes(UnslashedAll(Prefixed(x, cs)), config, rewrite, urlEncode) == FolderCommons(q, cs, urlEncode)
  {
    if cs != [] {
      var u := Unslashed(cs[0]);
      UnslashedBehind(x, cs[0]);
      CommonsBehind(config, rewrite, x, q, cs[1..], urlEncode);
      assert UnslashedAll(Prefixed(x, cs))[1..] == UnslashedAll(Prefixed(x, cs[1..]));
      assert x + u + "/" == x + (u + "/");
      assert RewriteKey(x + (u + "/"), KeyPrefix(config), rewrite) == q + (u + "/");
    }
  }

  // ---- The answer.

  /** An answer without the marker for the next page: that one is a path of the backend, not a shown key. */
  function Listed(r: Result<ListResponse, ProxyError>): Result<ListResponse, ProxyError> {
    if r.Ok? && r.value.ResponseV1? then Ok(r.value.(nextMarker := None)) else r
  }

  function PrefixEcho(params: ListParams, rewrite: Option<ListRewrite>): string {
    if rewrite.Some? && rewrite.value.addPrefix != "" then rewrite.value.addPrefix + params.prefix else params.prefix
  }

  function ListedWith(isV2: bool, name: string, entries: ListEntries, more: bool, count: nat): Result<ListResponse, ProxyError> {
    Ok(if isV2 then ResponseV2(name, entries, more, count) else ResponseV1(name, entries, more, None))
  }

  function FolderEntries(q: string, view: Store, page: Page, rest: string, urlEncode: bool): ListEntries
    requires AllIn(page.objects, view)
  {
    ListEntries(FolderContents(q, view, page.objects, page.commons, rest, urlEncode),
                FolderCommons(q, page.commons, urlEncode), S3Encode(q + rest, urlEncode))
  }

  /** The answer for a page of `view` seen in the folder `q`; a common prefix that is no path is an error. */
  function FolderAnswer(q: string, view: Store, page: Page, rest: string, params: ListParams, name: string): Result<ListResponse, ProxyError>
    requires AllIn(page.objects, view)
  {
    if !AllPaths(page.commons) then Err(BackendError)
    else ListedWith(params.isV2, name, FolderEntries(q, view, page, rest, UrlEncoded(params)), page.truncated,
                    |page.objects| + |page.commons|)
  }

  predicate NothingListed(page: Page) {
    page.objects == [] && page.commons == []
  }

  /** The page as `object_store` hands it over when all its common prefixes are paths. */
  function HandedOver(store: Store, x: string, page: Page): StorePage {
    StorePage(StoredAs(store, x, page.objects), UnslashedAll(Prefixed(x, page.commons)), page.truncated)
  }

  lemma {:induction false} PageBehind(store: Store, x: string, view: Store, page: Page)
    requires Base(x) || NothingListed(page)
    requires StoredBehind(store, x, view, page.objects) && AllRooted(page.commons)
    ensures ToStorePage(store, PrefixedPage(x, page))
         == if AllPaths(page.commons) then Some(HandedOver(store, x, page)) else None
    ensures |StoredAs(store, x, page.objects)| == |page.objects|
  {
    forall i | 0 <= i < |page.objects|
      ensures Rooted(page.objects[i])
    {
      PathIsRooted(page.objects[i]);
    }
    ParseBehind(x, page.objects);
    ParseBehind(x, page.commons);
    SizesKeepKeys(UnslashedAll(Prefixed(x, page.objects)), Prefixed(x, page.objects), store);
  }

  lemma {:induction false} EntriesBehind(store: Store, config: BucketConfig, params: ListParams, rewrite: Option<ListRewrite>,
                                         x: string, q: string, view: Store, page: Page, rest: string)
    requires KeyPrefix(config) + params.prefix == x + rest && |TrimmedPrefix(config)| <= |x|
    requires Displays(config, rewrite, x, q) && PrefixEcho(params, rewrite) == q + rest
    requires StoredBehind(store, x, view, page.objects) && AllIn(page.objects, view) && AllRooted(page.commons)
    ensures CollectListEntries(params.prefix, UrlEncoded(params), HandedOver(store, x, page), config, rewrite)
         == FolderEntries(q, view, page, rest, UrlEncoded(params))
  {
    CollectBehind(store, config, params.prefix, rewrite, x, q, view, page.objects, page.commons, rest, UrlEncoded(params));
    CommonsBehind(config, rewrite, x, q, page.commons, UrlEncoded(params));
  }

  lemma {:induction false} RespondBehind(config: BucketConfig, params: ListParams, sp: StorePage, rewrite: Option<ListRewrite>,
                                         displayName: Option<string>, entries: ListEntries)
    requires CollectListEntries(params.prefix, UrlEncoded(params), sp, config, rewrite) == entries
    ensures Listed(Ok(Respond(config, params, sp, rewrite, displayName)))
         == ListedWith(params.isV2, OrElse(displayName, config.name), entries, sp.more, |sp.objects| + |sp.commonPrefixes|)
  {
  }

  lemma {:induction false} HandleIs(store: Store, config: BucketConfig, params: ListParams, rewrite: Option<ListRewrite>,
                                    displayName: Option<string>, handed: Option<StorePage>)
    requires params.continuationToken.None? && ToStorePage(store, BackendPage(store, config, params)) == handed
    ensures HandleList(store, config, params, rewrite, displayName)
         == if handed.None? then Err(BackendError) else Ok(Respond(config, params, handed.value, rewrite, displayName))
  {
  }

  lemma {:induction false} AnswerBehind(store: Store, config: BucketConfig, params: ListParams, rewrite: Option<ListRewrite>,
                                        displayName: Option<string>, x: string, q: string, view: Store, page: Page, rest: string)
    requires params.continuationToken.None? && BackendPage(store, config, params) == PrefixedPage(x, page)
    requires KeyPrefix(config) + params.prefix == x + rest && |TrimmedPrefix(config)| <= |x|
    requires Displays(config, rewrite, x, q) && PrefixEcho(params, rewrite) == q + rest
    requires Base(x) || NothingListed(page)
    requires StoredBehind(store, x, view, page.objects) && AllIn(page.objects, view) && AllRooted(page.commons)
    ensures Listed(HandleList(store, config, params, rewrite, displayName))
         == FolderAnswer(q, view, page, rest, params, OrElse(displayName, config.name))
  {
    PageBehind(store, x, view, page);
    if AllPaths(page.commons) {
      EntriesBehind(store, config, params, rewrite, x, q, view, page, rest);
      HandleIs(store, config, params, rewrite, displayName, Some(HandedOver(store, x, page)));
      AnswerOf(config, params, rewrite, displayName, HandedOver(store, x, page), q, view, page, rest);
    } else {
      HandleIs(store, config, params, rewrite, displayName, None);
    }
  }

  lemma {:induction false} AnswerOf(config: BucketConfig, params: ListParams, rewrite: Option<ListRewrite>, displayName: Option<string>,
                                    sp: StorePage, q: string, view: Store, page: Page, rest: string)
    requires |sp.objects| == |page.objects| && |sp.commonPrefixes| == |page.commons| && sp.more == page.truncated
    requires AllIn(page.objects, view) && AllPaths(page.commons)
    requires CollectListEntries(params.prefix, UrlEncoded(params), sp, config, rewrite)
          == FolderEntries(q, view, page, rest, UrlEncoded(params))
    ensures Listed(Ok(Respond(config, params, sp, rewrite, displayName)))
         == FolderAnswer(q, view, page, rest, params, OrElse(displayName, config.name))
  {
    RespondBehind(config, params, sp, rewrite, displayName, FolderEntries(q, view, page, rest, UrlEncoded(params)));
  }

  // ---- The two ways.

  const PLAIN := BucketConfig("", S3, None, false, map[])

  function AddsFolder(q: string): Option<ListRewrite> {
    Some(ListRewrite("", q))
  }

  lemma {:induction false} BothDisplay(config: BucketConfig, q: string)
    requires EndsWith(q, "/")
    ensures Displays(config, AddsFolder(q), KeyPrefix(config), q) && Displays(PLAIN, None, q, q)
  {
    var p := KeyPrefix(config);
    forall u
      ensures RewriteKey(p + u, p, AddsFolder(q)) == q + u
    {
      assert (p + u)[|p|..] == u && p <= p + u;
      assert p == "" ==> p + u == u;
    }
  }

  lemma {:induction false} ViewIsPaths(store: Store, config: BucketConfig)
    requires PathStore(store) && KeyPrefix(config) !in store
    ensures var view := View(store, KeyPrefix(config));
            KeysArePaths(view) && (view == map[] || Base(KeyPrefix(config)))
  {
    var p := KeyPrefix(config);
    var view := View(store, p);
    forall k | k in view
      ensures IsPath(k) && Base(p)
    {
      ViewHas(store, p, k);
      assert p + "" == p;
      if p == "" {
        assert p + k == k;
      } else {
        var t := TrimmedPrefix(config);
        UnslashedTail(t, k);
        assert p + k == t + "/" + k;
        CleanPathConcat(t, Unslashed(k));
        assert Unslashed(p) == t;
      }
    }
  }

  /** What is on a page of a store of paths. */
  lemma {:induction false} PagePaths(view: Store, prefix: string, delim: string, after: Option<string>, max: nat)
    requires KeysArePaths(view)
    ensures var page := ListPage(view, prefix, delim, after, max);
            && (forall i :: 0 <= i < |page.objects| ==> page.objects[i] in view && IsPath(page.objects[i]))
            && AllRooted(page.commons) && AllIn(page.objects, view)
            && (view == map[] ==> NothingListed(page))
  {
    var page := ListPage(view, prefix, delim, after, max);
    PageMembers(view, prefix, delim, after, max);
    forall i | 0 <= i < |page.objects|
      ensures page.objects[i] in view && IsPath(page.objects[i])
    {
      assert page.objects[i] in page.objects;
    }
    forall i | 0 <= i < |page.commons|
      ensures Rooted(page.commons[i]) && view != map[]
    {
      var c := page.commons[i];
      assert c in page.commons;
      var k :| k in view && c <= k;
      PathIsRooted(k);
    }
  }

  /**
    Showing a store with a folder's name added to every key is showing the keys of the folder,
    for every store, backend prefix, delimiter, page size and encoding, when the offset
    selects the same keys.
   */
  lemma {:induction false} FolderShown(store: Store, config: BucketConfig, q: string, sent: ListParams, name: string)
    requires PathStore(store) && KeyPrefix(config) !in store && EndsWith(q, "/") && Base(q)
    requires sent.continuationToken.None? && OffsetAgrees(q, AfterOf(sent), sent.prefix)
    ensures var view := View(store, KeyPrefix(config));
            var asked := sent.(prefix := q + sent.prefix);
            Listed(HandleList(store, config, sent, AddsFolder(q), Some(name)))
            == Listed(HandleList(UnderFolder(q, view), PLAIN, asked, None, Some(name)))
  {
    var p := KeyPrefix(config);
    var view := View(store, p);
    var asked := sent.(prefix := q + sent.prefix);
    var page := DirectPage(view, sent);
    ViewIsPaths(store, config);
    PagePaths(view, sent.prefix, sent.delimiter, AfterOf(sent), sent.maxKeys);
    BothDisplay(config, q);
    ShownAdded(store, config, q, sent, name, page);
    ShownInFolder(view, q, sent, name, page);
  }

  lemma {:induction false} ShownAdded(store: Store, config: BucketConfig, q: string, sent: ListParams, name: string, page: Page)
    requires sent.continuationToken.None? && EndsWith(q, "/")
    requires var view := View(store, KeyPrefix(config));
             && page == DirectPage(view, sent) && (view == map[] || Base(KeyPrefix(config)))
             && (forall i :: 0 <= i < |page.objects| ==> page.objects[i] in view && IsPath(page.objects[i]))
             && AllRooted(page.commons) && AllIn(page.objects, view) && (view == map[] ==> NothingListed(page))
    requires Displays(config, AddsFolder(q), KeyPrefix(config), q)
    ensures Listed(HandleList(store, config, sent, AddsFolder(q), Some(name)))
         == FolderAnswer(q, View(store, KeyPrefix(config)), page, sent.prefix, sent, name)
  {
    var p := KeyPrefix(config);
    var view := View(store, p);
    BackendPageOfView(store, config, sent);
    forall i | 0 <= i < |page.objects|
      ensures p + page.objects[i] in store && store[p + page.objects[i]] == view[page.objects[i]]
    {
      ViewHas(store, p, page.objects[i]);
    }
    AnswerBehind(store, config, sent, AddsFolder(q), Some(name), p, q, view, page, sent.prefix);
  }

  /** Every object of the page is in the folder with its size. */
  lemma {:induction false} StoredInFolder(view: Store, q: string, ks: seq<string>)
    requires forall i :: 0 <= i < |ks| ==> ks[i] in view && IsPath(ks[i])
    ensures StoredBehind(UnderFolder(q, view), q, view, ks)
  {
    forall i | 0 <= i < |ks|
      ensures q + ks[i] in UnderFolder(q, view) && UnderFolder(q, view)[q + ks[i]] == view[ks[i]]
    {
      FolderHas(q, view, ks[i]);
    }
  }

  lemma {:induction false} FolderBackendPage(view: Store, q: string, sent: ListParams)
    requires KeysArePaths(view) && OffsetAgrees(q, AfterOf(sent), sent.prefix)
    ensures BackendPage(UnderFolder(q, view), PLAIN, sent.(prefix := q + sent.prefix)) == PrefixedPage(q, DirectPage(view, sent))
  {
    PlainPage(UnderFolder(q, view), sent.(prefix := q + sent.prefix));
    FolderPage(q, view, sent.prefix, sent.delimiter, AfterOf(sent), sent.maxKeys);
  }

  lemma {:induction false} ShownInFolder(view: Store, q: string, sent: ListParams, name: string, page: Page)
    requires sent.continuationToken.None? && Base(q)
    requires KeysArePaths(view) && OffsetAgrees(q, AfterOf(sent), sent.prefix) && page == DirectPage(view, sent)
    requires forall i :: 0 <= i < |page.objects| ==> page.objects[i] in view && IsPath(page.objects[i])
    requires AllRooted(page.commons) && AllIn(page.objects, view) && Displays(PLAIN, None, q, q)
    ensures var asked := sent.(prefix := q + sent.prefix);
            Listed(HandleList(UnderFolder(q, view), PLAIN, asked, None, Some(name)))
            == FolderAnswer(q, view, page, sent.prefix, sent, name)
  {
    FolderBackendPage(view, q, sent);
    StoredInFolder(view, q, page.objects);
    PlainAnswer(UnderFolder(q, view), view, q, sent, sent.(prefix := q + sent.prefix), name, page);
  }

  lemma {:induction false} PlainAnswer(folder: Store, view: Store, q: string, sent: ListParams, asked: ListParams, name: string, page: Page)
    requires sent.continuationToken.None? && Base(q) && asked == sent.(prefix := q + sent.prefix)
    requires BackendPage(folder, PLAIN, asked) == PrefixedPage(q, page)
    requires StoredBehind(folder, q, view, page.objects)
    requires AllRooted(page.commons) && AllIn(page.objects, view) && Displays(PLAIN, None, q, q)
    ensures Listed(HandleList(folder, PLAIN, asked, None, Some(name))) == FolderAnswer(q, view, page, sent.prefix, sent, name)
  {
    assert KeyPrefix(PLAIN) + asked.prefix == q + sent.prefix;
    AnswerBehind(folder, PLAIN, asked, None, Some(name), q, q, view, page, sent.prefix);
    SameAnswer(q, view, page, sent.prefix, sent, asked, name);
  }

  lemma {:induction false} SameAnswer(q: string, view: Store, page: Page, rest: string, p1: ListParams, p2: ListParams, name: string)
    requires AllIn(page.objects, view) && p1.isV2 == p2.isV2 && UrlEncoded(p1) == UrlEncoded(p2)
    ensures FolderAnswer(q, view, page, rest, p1, name) == FolderAnswer(q, view, page, rest, p2, name)
  {
  }

  lemma {:induction false} PlainPage(store: Store, params: ListParams)
    ensures KeyPrefix(PLAIN) == "" && TrimmedPrefix(PLAIN) == ""
    ensures BackendPage(store, PLAIN, params) == DirectPage(store, params)
  {
    var after := AfterOf(params);
    assert "" + params.prefix == params.prefix;
    assert after.Some? ==> "" + after.value == after.value;
  }
}
