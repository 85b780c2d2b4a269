/**
  Listing through a backend prefix is listing the virtual store of prefixed keys with the
  client's own parameters. Paths lose their last slash on the way and common prefixes regain
  one, so two things cannot be had: a common prefix that does not end in `/`, and a folder
  marker (a key ending in `/`) that is not filtered out.
 */
module PrefixView {
  import opened Text
  import opened Ordering
  import opened Percent
  import Utf8
  import opened Types
  import opened Keys
  import opened Query
  import opened Listing

  // ---- What the store holds.

  /** A path with its last slash gone, if it has one. */
  function Unslashed(s: string): string {
    if EndsWith(s, "/") then s[..|s| - 1] else s
  }

  /** The key of an object, or of the marker of a folder: a clean path without or with a final slash. */
  predicate IsPath(raw: string) {
    CleanPath(Unslashed(raw))
  }

  ghost predicate PathStore(store: Store) {
    forall k :: k in store ==> IsPath(k)
  }

  /** A client key that stands for a folder; the empty one is the root of the prefix. */
  predicate FolderName(k: string) {
    k == "" || EndsWith(k, "/")
  }

  // ---- What the client is promised.

  ghost function DirectPage(view: Store, params: ListParams): Page {
    ListPage(view, params.prefix, params.delimiter, AfterOf(params), params.maxKeys)
  }

  /** Zero-byte objects that stand for the folder being listed or a folder in the listing. */
  predicate Hidden(view: Store, commons: seq<string>, clientPrefix: string, k: string) {
    k in view && view[k] == 0 && (Unslashed(k) + "/" in commons || Unslashed(k) == TrimEnd(clientPrefix, '/'))
  }

  function Filter(keep: string -> bool, ks: seq<string>): seq<string> {
    if ks == [] then []
    else if keep(ks[0]) then [ks[0]] + Filter(keep, ks[1..])
    else Filter(keep, ks[1..])
  }

  lemma {:induction false} FilterMembers(keep: string -> bool, ks: seq<string>)
    ensures forall k :: k in Filter(keep, ks) <==> k in ks && keep(k)
  {
    if ks != [] {
      FilterMembers(keep, ks[1..]);
      assert forall k :: k in ks <==> k == ks[0] || k in ks[1..];
    }
  }

  lemma {:induction false} FilterConcat(keep: string -> bool, a: seq<string>, b: seq<string>)
    ensures Filter(keep, a + b) == Filter(keep, a) + Filter(keep, b)
  {
    if a == [] {
      assert a + b == b;
    } else {
      FilterConcat(keep, a[1..], b);
      assert (a + b)[1..] == a[1..] + b;
    }
  }

  function IsVisible(view: Store, commons: seq<string>, clientPrefix: string): string -> bool {
    k => k in view && !Hidden(view, commons, clientPrefix, k)
  }

  /** The objects that are not hidden. */
  function Visible(view: Store, objects: seq<string>, commons: seq<string>, clientPrefix: string): seq<string> {
    Filter(IsVisible(view, commons, clientPrefix), objects)
  }

  lemma {:induction false} VisibleMembers(view: Store, objects: seq<string>, commons: seq<string>, clientPrefix: string)
    ensures forall k :: k in Visible(view, objects, commons, clientPrefix)
                        <==> k in objects && k in view && !Hidden(view, commons, clientPrefix, k)
  {
    FilterMembers(IsVisible(view, commons, clientPrefix), objects);
  }

  /** Contents under the names that `name` gives the keys. */
  function Named(name: string -> string, view: Store, keys: seq<string>, urlEncode: bool): (r: seq<Content>)
    ensures |r| == |keys|
    ensures forall i :: 0 <= i < |keys| ==>
              r[i] == Content(S3Encode(name(keys[i]), urlEncode), if keys[i] in view then view[keys[i]] else 0)
  {
    if keys == [] then []
    else [Content(S3Encode(name(keys[0]), urlEncode), if keys[0] in view then view[keys[0]] else 0)]
         + Named(name, view, keys[1..], urlEncode)
  }

  const OWN_NAME: string -> string := k => k

  /** What a client sees of a key: the last slash is lost, and the root folder goes by the backend prefix. */
  function SeenKey(config: BucketConfig, k: string): string {
    if k == "" then TrimmedPrefix(config) else Unslashed(k)
  }

  function SeenName(config: BucketConfig): string -> string {
    k => SeenKey(config, k)
  }

  function ShownContents(view: Store, objects: seq<string>, commons: seq<string>, clientPrefix: string, urlEncode: bool): seq<Content> {
    Named(OWN_NAME, view, Visible(view, objects, commons, clientPrefix), urlEncode)
  }

  function EncodedAll(ks: seq<string>, urlEncode: bool): (r: seq<string>)
    ensures |r| == |ks|
    ensures forall i :: 0 <= i < |ks| ==> r[i] == S3Encode(ks[i], urlEncode)
  {
    if ks == [] then [] else [S3Encode(ks[0], urlEncode)] + EncodedAll(ks[1..], urlEncode)
  }

  /** The response body for a listing of `view` itself: every object of the page by its own key. */
  ghost function DirectEntries(view: Store, params: ListParams): ListEntries {
    var page := DirectPage(view, params);
    var enc := UrlEncoded(params);
    ListEntries(Named(OWN_NAME, view, page.objects, enc), EncodedAll(page.commons, enc), S3Encode(params.prefix, enc))
  }

  /** The same without the objects the listing hides. */
  ghost function FilteredEntries(view: Store, params: ListParams): ListEntries {
    var page := DirectPage(view, params);
    DirectEntries(view, params).(contents := ShownContents(view, page.objects, page.commons, params.prefix, UrlEncoded(params)))
  }

  predicate FolderDelimiter(delim: string) {
    delim == "" || EndsWith(delim, "/")
  }

  /** No common prefix is there but folders. */
  predicate FoldersOnly(page: Page, delim: string) {
    FolderDelimiter(delim) || page.commons == []
  }

  /** Every folder marker on the page is zero bytes long and one that the listing hides. */
  predicate FoldersHidden(view: Store, page: Page, clientPrefix: string) {
    forall k :: k in page.objects && FolderName(k) ==> Hidden(view, page.commons, clientPrefix, k)
  }

  /** No object on the page is a folder marker, and none is hidden. */
  predicate NothingLost(view: Store, page: Page, clientPrefix: string) {
    forall k :: k in page.objects ==> !FolderName(k) && !Hidden(view, page.commons, clientPrefix, k)
  }

  // ---- What is on a page.

  ghost predicate RolledFrom(c: string, keys: seq<string>, prefix: string, delim: string) {
    prefix <= c && delim != "" && EndsWith(c, delim) && exists k :: k in keys && c <= k
  }

  lemma {:induction false} GroupMembers(keys: seq<string>, prefix: string, delim: string)
    requires AllUnder(keys, prefix)
    ensures forall e :: e in Group(keys, prefix, delim) ==>
              if e.Single? then e.key in keys else RolledFrom(e.prefix, keys, prefix, delim)
  {
    if keys != [] {
      GroupMembers(keys[1..], prefix, delim);
      var e := Classify(keys[0], prefix, delim);
      if e.Rolled? {
        RolledEnd(keys[0], prefix, delim);
        assert keys[0] in keys;
      }
      forall e' | e' in Group(keys[1..], prefix, delim) && e'.Rolled?
        ensures RolledFrom(e'.prefix, keys, prefix, delim)
      {
        var k :| k in keys[1..] && e'.prefix <= k;
        assert k in keys;
      }
    }
  }

  lemma {:induction false} RolledEnd(key: string, prefix: string, delim: string)
    requires prefix <= key && Classify(key, prefix, delim).Rolled?
    ensures delim != "" && EndsWith(Classify(key, prefix, delim).prefix, delim)
    ensures prefix <= Classify(key, prefix, delim).prefix <= key
  {
    var tail := key[|prefix|..];
    FindSpec(tail, delim);
    var i := Find(tail, delim).value;
    assert tail[i..i + |delim|] == delim;
    assert key[|prefix| + i..|prefix| + i + |delim|] == delim;
  }

  lemma {:induction false} EntryLists(es: seq<Entry>)
    ensures forall k :: k in Singles(es) ==> Single(k) in es
    ensures forall c :: c in Rolls(es) ==> Rolled(c) in es
  {
    if es != [] {
      EntryLists(es[1..]);
    }
  }

  lemma {:induction false} PageMembers(store: Store, prefix: string, delim: string, after: Option<string>, max: nat)
    ensures var page := ListPage(store, prefix, delim, after, max);
            && (forall k :: k in page.objects ==> k in store && prefix <= k)
            && (forall c :: c in page.commons ==>
                  prefix <= c && delim != "" && EndsWith(c, delim) && exists k :: k in store && c <= k)
  {
    var keys := SortedKeys(Selected(store, prefix, after));
    SelectedSorted(store, prefix, after);
    GroupMembers(keys, prefix, delim);
    var es := Group(keys, prefix, delim);
    var shown := if |es| <= max then es else es[..max];
    EntryLists(shown);
    forall c | c in Rolls(shown)
      ensures prefix <= c && delim != "" && EndsWith(c, delim) && exists k :: k in store && c <= k
    {
      assert Rolled(c) in es;
      var k :| k in keys && c <= k;
    }
  }

  // ---- Paths: only the last slash is lost and regained.

  function UnslashedAll(ss: seq<string>): (r: seq<string>)
    ensures |r| == |ss|
    ensures forall i :: 0 <= i < |ss| ==> r[i] == Unslashed(ss[i])
  {
    if ss == [] then [] else [Unslashed(ss[0])] + UnslashedAll(ss[1..])
  }

  lemma {:induction false} ParseIsPath(raw: string)
    requires IsPath(raw)
    ensures ParsePath(raw) == Some(Unslashed(raw))
  {
    var path := Unslashed(raw);
    ParseCleanPath(path);
    assert EndsWith(raw, "/") ==> raw == path + "/";
  }

  /** What a key rolls up into is a path. */
  lemma {:induction false} RolledIsPath(c: string, key: string)
    requires c <= key && EndsWith(c, "/") && IsPath(key)
    ensures IsPath(c)
  {
    var a := Unslashed(c);
    assert c == a + "/";
    if c != key {
      var path := Unslashed(key);
      CleanPathNotEmpty(path);
      assert path[..|c|] == c;
      assert path == a + "/" + path[|c|..];
      CleanPathConcat(a, path[|c|..]);
    }
  }

  lemma {:induction false} ParseAll(raws: seq<string>)
    requires forall i :: 0 <= i < |raws| ==> IsPath(raws[i])
    ensures ParsePaths(raws) == Some(UnslashedAll(raws))
  {
    if raws != [] {
      ParseIsPath(raws[0]);
      ParseAll(raws[1..]);
    }
  }

  /** A path under the prefix, slash and all. */
  lemma {:induction false} PrefixedPath(config: BucketConfig, k: string)
    requires IsPath(KeyPrefix(config) + k)
    ensures k == "" ==> KeyPrefix(config) != "" && Unslashed(KeyPrefix(config) + k) == TrimmedPrefix(config)
    ensures k != "" ==> Unslashed(k) != "" && Unslashed(KeyPrefix(config) + k) == KeyPrefix(config) + Unslashed(k)
    ensures SeenKey(config, k) != "" && (SeenKey(config, k) == k <==> !FolderName(k))
  {
    var p := KeyPrefix(config);
    CleanPathNotEmpty(Unslashed(p + k));
    if k == "" {
      assert p + k == p;
    } else {
      assert (p + k)[|p + k| - 1] == k[|k| - 1];
      assert EndsWith(k, "/") ==> (p + k)[..|p + k| - 1] == p + k[..|k| - 1];
      assert Unslashed(p + "/") == p;
    }
  }

  lemma {:induction false} StrippedBack(p: string, k: string)
    ensures RewriteKey(p + k, p, None) == k
  {
    assert "" + k == k;
    assert (p + k)[|p|..] == k;
    assert p <= p + k;
  }

  lemma {:induction false} CollectedPrefixes(config: BucketConfig, cs: seq<string>, urlEncode: bool)
    requires forall i :: 0 <= i < |cs| ==> EndsWith(cs[i], "/")
    ensures CollectPrefixes(UnslashedAll(Prefixed(KeyPrefix(config), cs)), config, None, urlEncode) == EncodedAll(cs, urlEncode)
  {
    if cs != [] {
      var p := KeyPrefix(config);
      var raw := p + cs[0];
      assert Unslashed(raw) + "/" == raw by {
        assert raw[|raw| - 1] == '/';
      }
      StrippedBack(p, cs[0]);
      CollectedPrefixes(config, cs[1..], urlEncode);
      assert UnslashedAll(Prefixed(p, cs))[1..] == UnslashedAll(Prefixed(p, cs[1..]));
    }
  }

  // ---- Directory markers.

  lemma {:induction false} TrimEndConcat(a: string, b: string, c: char)
    ensures TrimEnd(b, c) != "" ==> TrimEnd(a + b, c) == a + TrimEnd(b, c)
    ensures TrimEnd(b, c) == "" ==> TrimEnd(a + b, c) == TrimEnd(a, c)
    decreases |b|
  {
    if b == "" {
      assert a + b == a;
    } else if b[|b| - 1] == c {
      assert (a + b)[..|a + b| - 1] == a + b[..|b| - 1];
      TrimEndConcat(a, b[..|b| - 1], c);
    }
  }

  lemma UnslashedPrefixed(p: string, c: string)
    requires EndsWith(c, "/")
    ensures Unslashed(p + c) == p + Unslashed(c)
    ensures c == Unslashed(c) + "/"
  {
    assert (p + c)[|p + c| - 1] == c[|c| - 1];
  }

  lemma {:induction false} UnslashedMember(p: string, k: string, cs: seq<string>)
    requires forall i :: 0 <= i < |cs| ==> EndsWith(cs[i], "/")
    ensures p + k in UnslashedAll(Prefixed(p, cs)) <==> k + "/" in cs
  {
    var r := UnslashedAll(Prefixed(p, cs));
    forall i | 0 <= i < |cs|
      ensures r[i] == p + k <==> cs[i] == k + "/"
    {
      UnslashedPrefixed(p, cs[i]);
      ConcatCancels(p, k, Unslashed(cs[i]));
      assert (k + "/")[..|k|] == k;
    }
  }

  /** The gateway's marker test on the path of a key, with its slash lost, seen from the client's side. */
  lemma {:induction false} MarkerIsHidden(store: Store, config: BucketConfig, k: string, cs: seq<string>, clientPrefix: string)
    requires KeyPrefix(config) + k in store && IsPath(KeyPrefix(config) + k) && clientPrefix <= k
    requires forall i :: 0 <= i < |cs| ==> EndsWith(cs[i], "/")
    ensures var p := KeyPrefix(config);
            IsDirectoryMarker(Content(Unslashed(p + k), store[p + k]), UnslashedAll(Prefixed(p, cs)), TrimmedPrefix(config),
                              TrimEnd(p + clientPrefix, '/'))
            <==> Hidden(View(store, p), cs, clientPrefix, k)
  {
    var p := KeyPrefix(config);
    ViewHas(store, p, k);
    PrefixedPath(config, k);
    if k != "" {
      var u := Unslashed(k);
      UnslashedMember(p, u, cs);
      TrimEndConcat(p, clientPrefix, '/');
      var t := TrimEnd(clientPrefix, '/');
      ConcatCancels(p, u, t);
      assert |p + u| > |p| >= |TrimmedPrefix(config)|;
      assert t == "" ==> |TrimEnd(p, '/')| <= |p|;
    }
  }

  lemma {:induction false} SeenBack(config: BucketConfig, k: string)
    requires IsPath(KeyPrefix(config) + k)
    ensures RewriteKey(Unslashed(KeyPrefix(config) + k), KeyPrefix(config), None) == SeenKey(config, k)
  {
    PrefixedPath(config, k);
    if k != "" {
      StrippedBack(KeyPrefix(config), Unslashed(k));
    }
  }

  /** The contents an object adds: none if it is a marker. */
  function Shown(obj: Content, commons: seq<string>, config: BucketConfig, clientPrefix: string, rewrite: Option<ListRewrite>,
                 urlEncode: bool): seq<Content>
  {
    if IsDirectoryMarker(obj, commons, TrimmedPrefix(config), TrimEnd(KeyPrefix(config) + clientPrefix, '/')) then []
    else [Content(S3Encode(RewriteKey(obj.key, KeyPrefix(config), rewrite), urlEncode), obj.size)]
  }

  lemma {:induction false} CollectCons(objects: seq<Content>, commons: seq<string>, config: BucketConfig, clientPrefix: string,
                                       rewrite: Option<ListRewrite>, urlEncode: bool)
    requires objects != []
    ensures CollectContents(objects, commons, config, clientPrefix, rewrite, urlEncode)
         == Shown(objects[0], commons, config, clientPrefix, rewrite, urlEncode)
            + CollectContents(objects[1..], commons, config, clientPrefix, rewrite, urlEncode)
  {
  }

  /** The objects of a page as `object_store` hands them over. */
  function StoredAs(store: Store, p: string, ks: seq<string>): seq<Content> {
    WithSizes(UnslashedAll(Prefixed(p, ks)), Prefixed(p, ks), store)
  }

  lemma {:induction false} StoredCons(store: Store, p: string, ks: seq<string>)
    requires ks != [] && p + ks[0] in store
    ensures StoredAs(store, p, ks) == [Content(Unslashed(p + ks[0]), store[p + ks[0]])] + StoredAs(store, p, ks[1..])
  {
    var raws := Prefixed(p, ks);
    assert raws[1..] == Prefixed(p, ks[1..]);
    assert UnslashedAll(raws)[1..] == UnslashedAll(raws[1..]);
  }

  /** What one object adds to the listing. */
  lemma {:induction false} CollectedOne(store: Store, config: BucketConfig, k: string, cs: seq<string>, clientPrefix: string,
                                        urlEncode: bool)
    requires KeyPrefix(config) + k in store && IsPath(KeyPrefix(config) + k) && clientPrefix <= k
    requires forall i :: 0 <= i < |cs| ==> EndsWith(cs[i], "/")
    ensures var p := KeyPrefix(config); var view := View(store, p);
            Shown(Content(Unslashed(p + k), store[p + k]), UnslashedAll(Prefixed(p, cs)), config, clientPrefix, None, urlEncode)
            == (if Hidden(view, cs, clientPrefix, k) || k !in view then []
                else [Content(S3Encode(SeenName(config)(k), urlEncode), if k in view then view[k] else 0)])
  {
    MarkerIsHidden(store, config, k, cs, clientPrefix);
    ViewHas(store, KeyPrefix(config), k);
    SeenBack(config, k);
  }

  lemma {:induction false} CollectedContents(store: Store, config: BucketConfig, ks: seq<string>, cs: seq<string>,
                                             clientPrefix: string, urlEncode: bool)
    requires forall i :: 0 <= i < |ks| ==>
               KeyPrefix(config) + ks[i] in store && IsPath(KeyPrefix(config) + ks[i]) && clientPrefix <= ks[i]
    requires forall i :: 0 <= i < |cs| ==> EndsWith(cs[i], "/")
    ensures var p := KeyPrefix(config); var view := View(store, p);
            CollectContents(StoredAs(store, p, ks), UnslashedAll(Prefixed(p, cs)), config, clientPrefix, None, urlEncode)
            == Named(SeenName(config), view, Visible(view, ks, cs, clientPrefix), urlEncode)
  {
    if ks != [] {
      var p := KeyPrefix(config);
      var view, commons := View(store, p), UnslashedAll(Prefixed(p, cs));
      var objects, rest := StoredAs(store, p, ks), Visible(view, ks[1..], cs, clientPrefix);
      CollectedContents(store, config, ks[1..], cs, clientPrefix, urlEncode);
      StoredCons(store, p, ks);
      assert objects[1..] == StoredAs(store, p, ks[1..]);
      CollectCons(objects, commons, config, clientPrefix, None, urlEncode);
      CollectedOne(store, config, ks[0], cs, clientPrefix, urlEncode);
      VisibleCons(view, ks, cs, clientPrefix);
      NamedCons(SeenName(config), view, ks[0], rest, urlEncode);
      assert [] + Named(SeenName(config), view, rest, urlEncode) == Named(SeenName(config), view, rest, urlEncode);
    }
  }

  lemma {:induction false} VisibleCons(view: Store, ks: seq<string>, cs: seq<string>, clientPrefix: string)
    requires ks != []
    ensures var rest := Visible(view, ks[1..], cs, clientPrefix);
            Visible(view, ks, cs, clientPrefix)
            == if Hidden(view, cs, clientPrefix, ks[0]) || ks[0] !in view then rest else [ks[0]] + rest
  {
  }

  lemma {:induction false} NamedCons(name: string -> string, view: Store, k: string, rest: seq<string>, urlEncode: bool)
    ensures Named(name, view, [k] + rest, urlEncode)
         == [Content(S3Encode(name(k), urlEncode), if k in view then view[k] else 0)] + Named(name, view, rest, urlEncode)
  {
    assert ([k] + rest)[1..] == rest;
  }

  // ---- The refinement.

  lemma {:induction false} BackendPageOfView(store: Store, config: BucketConfig, params: ListParams)
    ensures BackendPage(store, config, params)
         == PrefixedPage(KeyPrefix(config), DirectPage(View(store, KeyPrefix(config)), params))
  {
    PageThroughPrefix(store, KeyPrefix(config), params.prefix, params.delimiter, AfterOf(params), params.maxKeys);
  }

  /** The objects of a page parse, and its prefixes do when they are folders. */
  lemma {:induction false} PageParses(store: Store, config: BucketConfig, params: ListParams)
    requires PathStore(store)
    ensures var p := KeyPrefix(config); var page := DirectPage(View(store, p), params);
            && ParsePaths(Prefixed(p, page.objects)) == Some(UnslashedAll(Prefixed(p, page.objects)))
            && (forall i :: 0 <= i < |page.objects| ==>
                  p + page.objects[i] in store && IsPath(p + page.objects[i]) && params.prefix <= page.objects[i])
            && (FoldersOnly(page, params.delimiter) ==>
                && (forall i :: 0 <= i < |page.commons| ==> EndsWith(page.commons[i], "/"))
                && ParsePaths(Prefixed(p, page.commons)) == Some(UnslashedAll(Prefixed(p, page.commons))))
  {
    var p := KeyPrefix(config);
    var view := View(store, p);
    var page := DirectPage(view, params);
    PageMembers(view, params.prefix, params.delimiter, AfterOf(params), params.maxKeys);
    forall i | 0 <= i < |page.objects|
      ensures p + page.objects[i] in store && IsPath(Prefixed(p, page.objects)[i]) && params.prefix <= page.objects[i]
    {
      var k := page.objects[i];
      assert k in page.objects;
      ViewHas(store, p, k);
    }
    ParseAll(Prefixed(p, page.objects));
    if FoldersOnly(page, params.delimiter) {
      forall i | 0 <= i < |page.commons|
        ensures EndsWith(page.commons[i], "/") && IsPath(Prefixed(p, page.commons)[i])
      {
        assert page.commons[i] in page.commons;
        CommonIsPath(store, p, page.commons[i], params.delimiter);
      }
      ParseAll(Prefixed(p, page.commons));
    }
  }

  lemma {:induction false} CommonIsPath(store: Store, p: string, c: string, delim: string)
    requires PathStore(store) && exists k :: k in View(store, p) && c <= k
    requires EndsWith(c, delim) && EndsWith(delim, "/")
    ensures EndsWith(c, "/") && IsPath(p + c)
  {
    var k :| k in View(store, p) && c <= k;
    ViewHas(store, p, k);
    EndsWithTransitive(c, delim, "/");
    PrefixedFolder(p, c, k);
    RolledIsPath(p + c, p + k);
  }

  lemma PrefixedFolder(p: string, c: string, k: string)
    requires EndsWith(c, "/") && c <= k
    ensures EndsWith(p + c, "/") && p + c <= p + k
  {
    assert (p + c)[|p + c| - 1] == c[|c| - 1];
    assert (p + k)[..|p + c|] == p + c;
  }

  lemma EndsWithTransitive(a: string, b: string, c: string)
    requires EndsWith(a, b) && EndsWith(b, c)
    ensures EndsWith(a, c)
  {
    assert a[|a| - |c|..] == a[|a| - |b|..][|b| - |c|..];
  }

  /** What a client sees on a page: each object that is not hidden under its seen name. */
  ghost function SeenContents(view: Store, config: BucketConfig, params: ListParams): seq<Content> {
    var page := DirectPage(view, params);
    Named(SeenName(config), view, Visible(view, page.objects, page.commons, params.prefix), UrlEncoded(params))
  }

  /**
    For every store of objects and folder markers, every backend prefix and all list parameters
    but a continuation token: the page is the page of the virtual store, its common prefixes
    are the direct ones, and its contents are the objects that are not hidden, under the names
    they are left with.
   */
  lemma {:induction false} PrefixViewSeen(store: Store, config: BucketConfig, params: ListParams)
    requires PathStore(store) && params.continuationToken.None?
    requires FoldersOnly(DirectPage(View(store, KeyPrefix(config)), params), params.delimiter)
    ensures var view := View(store, KeyPrefix(config));
            var page := DirectPage(view, params);
            var r := HandleList(store, config, params, None, None);
            && r.Ok?
            && r.value.entries == DirectEntries(view, params).(contents := SeenContents(view, config, params))
            && r.value.isTruncated == page.truncated
            && r.value.name == config.name
            && (params.isV2 <==> r.value.ResponseV2?)
            && (params.isV2 ==> r.value.keyCount == |page.objects| + |page.commons|)
            && (!params.isV2 ==>
                r.value.nextMarker == if page.truncated && page.objects != []
                                      then Some(Unslashed(KeyPrefix(config) + page.objects[|page.objects| - 1])) else None)
  {
    BackendPageOfView(store, config, params);
    StorePageOfView(store, config, params);
    CollectedEntries(store, config, params);
    var page := DirectPage(View(store, KeyPrefix(config)), params);
    RespondIs(config, params, ViewStorePage(store, config, params), KeyPrefix(config), page);
  }

  /** The listing is that of the virtual store listed directly when no object is lost. */
  lemma {:induction false} PrefixViewRefinement(store: Store, config: BucketConfig, params: ListParams)
    requires PathStore(store) && params.continuationToken.None?
    requires var view := View(store, KeyPrefix(config));
             var page := DirectPage(view, params);
             FoldersOnly(page, params.delimiter) && NothingLost(view, page, params.prefix)
    ensures var view := View(store, KeyPrefix(config));
            var page := DirectPage(view, params);
            var r := HandleList(store, config, params, None, None);
            && r.Ok?
            && r.value.entries == DirectEntries(view, params)
            && r.value.isTruncated == page.truncated
            && r.value.name == config.name
            && (params.isV2 ==> r.value.keyCount == |page.objects| + |page.commons|)
  {
    PrefixViewSeen(store, config, params);
    SeenIsDirect(store, config, params);
  }

  lemma {:induction false} RespondIs(config: BucketConfig, params: ListParams, sp: StorePage, p: string, page: Page)
    requires |sp.objects| == |page.objects| && |sp.commonPrefixes| == |page.commons|
    requires sp.more == page.truncated
    requires forall i :: 0 <= i < |page.objects| ==> sp.objects[i].key == Unslashed(p + page.objects[i])
    ensures var r := Respond(config, params, sp, None, None);
            && r.entries == CollectListEntries(params.prefix, UrlEncoded(params), sp, config, None)
            && r.isTruncated == page.truncated
            && r.name == config.name
            && (params.isV2 <==> r.ResponseV2?)
            && (params.isV2 ==> r.keyCount == |page.objects| + |page.commons|)
            && (!params.isV2 ==> r.nextMarker == if page.truncated && page.objects != []
                                                then Some(Unslashed(p + page.objects[|page.objects| - 1])) else None)
  {
  }

  /** The page `object_store` hands over, in terms of the view. */
  ghost function ViewStorePage(store: Store, config: BucketConfig, params: ListParams): StorePage {
    var p := KeyPrefix(config);
    var page := DirectPage(View(store, p), params);
    StorePage(StoredAs(store, p, page.objects), UnslashedAll(Prefixed(p, page.commons)), page.truncated)
  }

  lemma {:induction false} StorePageOfView(store: Store, config: BucketConfig, params: ListParams)
    requires PathStore(store)
    requires FoldersOnly(DirectPage(View(store, KeyPrefix(config)), params), params.delimiter)
    ensures var p := KeyPrefix(config); var page := DirectPage(View(store, p), params);
            var sp := ViewStorePage(store, config, params);
            && ToStorePage(store, PrefixedPage(p, page)) == Some(sp)
            && |sp.objects| == |page.objects| && |sp.commonPrefixes| == |page.commons|
            && forall i :: 0 <= i < |page.objects| ==> sp.objects[i].key == Unslashed(p + page.objects[i])
  {
    var p := KeyPrefix(config);
    var page := DirectPage(View(store, p), params);
    PageParses(store, config, params);
    SizesKeepKeys(UnslashedAll(Prefixed(p, page.objects)), Prefixed(p, page.objects), store);
  }

  lemma {:induction false} CollectedEntries(store: Store, config: BucketConfig, params: ListParams)
    requires PathStore(store)
    requires FoldersOnly(DirectPage(View(store, KeyPrefix(config)), params), params.delimiter)
    ensures CollectListEntries(params.prefix, UrlEncoded(params), ViewStorePage(store, config, params), config, None)
         == DirectEntries(View(store, KeyPrefix(config)), params)
              .(contents := SeenContents(View(store, KeyPrefix(config)), config, params))
  {
    var p := KeyPrefix(config);
    var page := DirectPage(View(store, p), params);
    PageParses(store, config, params);
    CollectedContents(store, config, page.objects, page.commons, params.prefix, UrlEncoded(params));
    CollectedPrefixes(config, page.commons, UrlEncoded(params));
  }

  lemma {:induction false} SizesKeepKeys(paths: seq<string>, raws: seq<string>, store: Store)
    requires |paths| == |raws|
    ensures |WithSizes(paths, raws, store)| == |paths|
    ensures forall i :: 0 <= i < |paths| ==> WithSizes(paths, raws, store)[i].key == paths[i]
  {
    if paths != [] {
      SizesKeepKeys(paths[1..], raws[1..], store);
    }
  }

  // ---- Exactly when nothing of the listing is lost.

  lemma {:induction false} EncodeInjective(a: string, b: string, urlEncode: bool)
    ensures S3Encode(a, urlEncode) == S3Encode(b, urlEncode) <==> a == b
  {
    Percent.DecodeEncode(StrictPath, a);
    Percent.DecodeEncode(StrictPath, b);
  }

  /** Seen names are the keys themselves exactly when none of the keys is a folder's. */
  lemma {:induction false} NamesAgree(config: BucketConfig, view: Store, keys: seq<string>, urlEncode: bool)
    requires forall i :: 0 <= i < |keys| ==> IsPath(KeyPrefix(config) + keys[i])
    ensures Named(SeenName(config), view, keys, urlEncode) == Named(OWN_NAME, view, keys, urlEncode)
            <==> forall i :: 0 <= i < |keys| ==> !FolderName(keys[i])
  {
    var seen, own := Named(SeenName(config), view, keys, urlEncode), Named(OWN_NAME, view, keys, urlEncode);
    forall i | 0 <= i < |keys|
      ensures seen[i] == own[i] <==> !FolderName(keys[i])
    {
      PrefixedPath(config, keys[i]);
      EncodeInjective(SeenKey(config, keys[i]), keys[i], urlEncode);
    }
  }

  /** No folder is visible exactly when every folder is hidden. */
  lemma {:induction false} VisibleFolders(view: Store, objects: seq<string>, commons: seq<string>, clientPrefix: string)
    requires forall k :: k in objects ==> k in view
    ensures var visible := Visible(view, objects, commons, clientPrefix);
            (forall i :: 0 <= i < |visible| ==> !FolderName(visible[i]))
            <==> forall k :: k in objects && FolderName(k) ==> Hidden(view, commons, clientPrefix, k)
  {
    VisibleMembers(view, objects, commons, clientPrefix);
    var visible := Visible(view, objects, commons, clientPrefix);
    forall i | 0 <= i < |visible|
      ensures visible[i] in objects && !Hidden(view, commons, clientPrefix, visible[i])
    {
      assert visible[i] in visible;
    }
  }

  lemma {:induction false} SeenIsFiltered(store: Store, config: BucketConfig, params: ListParams)
    requires PathStore(store)
    ensures var view := View(store, KeyPrefix(config));
            SeenContents(view, config, params) == FilteredEntries(view, params).contents
            <==> FoldersHidden(view, DirectPage(view, params), params.prefix)
  {
    var view := View(store, KeyPrefix(config));
    var page := DirectPage(view, params);
    var visible := Visible(view, page.objects, page.commons, params.prefix);
    VisibleMembers(view, page.objects, page.commons, params.prefix);
    forall i | 0 <= i < |visible|
      ensures IsPath(KeyPrefix(config) + visible[i])
    {
      assert visible[i] in visible;
      ViewHas(store, KeyPrefix(config), visible[i]);
    }
    NamesAgree(config, view, visible, UrlEncoded(params));
    PageMembers(view, params.prefix, params.delimiter, AfterOf(params), params.maxKeys);
    VisibleFolders(view, page.objects, page.commons, params.prefix);
  }

  function HiddenCount(view: Store, objects: seq<string>, commons: seq<string>, clientPrefix: string): nat {
    if objects == [] then 0
    else (if Hidden(view, commons, clientPrefix, objects[0]) then 1 else 0)
         + HiddenCount(view, objects[1..], commons, clientPrefix)
  }

  lemma {:induction false} VisibleCount(view: Store, objects: seq<string>, commons: seq<string>, clientPrefix: string)
    requires forall i :: 0 <= i < |objects| ==> objects[i] in view
    ensures |Visible(view, objects, commons, clientPrefix)|
         == |objects| - HiddenCount(view, objects, commons, clientPrefix)
    ensures HiddenCount(view, objects, commons, clientPrefix) == 0
            <==> forall k :: k in objects ==> !Hidden(view, commons, clientPrefix, k)
  {
    if objects != [] {
      VisibleCount(view, objects[1..], commons, clientPrefix);
      VisibleCons(view, objects, commons, clientPrefix);
      assert forall k :: k in objects <==> k == objects[0] || k in objects[1..];
    }
  }

  lemma {:induction false} AllVisible(view: Store, objects: seq<string>, commons: seq<string>, clientPrefix: string)
    requires forall k :: k in objects ==> k in view && !Hidden(view, commons, clientPrefix, k)
    ensures Visible(view, objects, commons, clientPrefix) == objects
  {
    if objects != [] {
      VisibleCons(view, objects, commons, clientPrefix);
      AllVisible(view, objects[1..], commons, clientPrefix);
    }
  }

  /** Without a hidden object, what is seen are all keys, by their own names when none is a folder's. */
  lemma {:induction false} SeenInFull(store: Store, config: BucketConfig, objects: seq<string>, commons: seq<string>, clientPrefix: string,
                                      urlEncode: bool)
    requires PathStore(store) && forall k :: k in objects ==> k in View(store, KeyPrefix(config))
    requires forall k :: k in objects ==> !Hidden(View(store, KeyPrefix(config)), commons, clientPrefix, k)
    ensures var view := View(store, KeyPrefix(config));
            Named(SeenName(config), view, Visible(view, objects, commons, clientPrefix), urlEncode)
            == Named(OWN_NAME, view, objects, urlEncode)
            <==> forall k :: k in objects ==> !FolderName(k)
  {
    var view := View(store, KeyPrefix(config));
    AllVisible(view, objects, commons, clientPrefix);
    forall i | 0 <= i < |objects|
      ensures IsPath(KeyPrefix(config) + objects[i])
    {
      assert objects[i] in objects;
      ViewHas(store, KeyPrefix(config), objects[i]);
    }
    NamesAgree(config, view, objects, urlEncode);
  }

  /** What is seen is the whole page exactly when nothing of it is lost. */
  lemma {:induction false} SeenIsDirect(store: Store, config: BucketConfig, params: ListParams)
    requires PathStore(store)
    ensures var view := View(store, KeyPrefix(config));
            SeenContents(view, config, params) == DirectEntries(view, params).contents
            <==> NothingLost(view, DirectPage(view, params), params.prefix)
  {
    var view := View(store, KeyPrefix(config));
    var page := DirectPage(view, params);
    PageMembers(view, params.prefix, params.delimiter, AfterOf(params), params.maxKeys);
    if k :| k in page.objects && Hidden(view, page.commons, params.prefix, k) {
      VisibleCount(view, page.objects, page.commons, params.prefix);
      assert |SeenContents(view, config, params)| < |DirectEntries(view, params).contents|;
    } else {
      SeenInFull(store, config, page.objects, page.commons, params.prefix, UrlEncoded(params));
    }
  }

  /** `KeyCount` counts what the backend returned, so it overstates the entries by the hidden markers. */
  lemma {:induction false} KeyCountCountsMarkers(store: Store, config: BucketConfig, params: ListParams)
    requires PathStore(store) && params.continuationToken.None? && params.isV2
    requires FoldersOnly(DirectPage(View(store, KeyPrefix(config)), params), params.delimiter)
    ensures var view := View(store, KeyPrefix(config));
            var page := DirectPage(view, params);
            var r := HandleList(store, config, params, None, None);
            && r.Ok? && r.value.ResponseV2?
            && r.value.keyCount == |r.value.entries.contents| + |r.value.entries.commonPrefixes|
                                   + HiddenCount(view, page.objects, page.commons, params.prefix)
            && (r.value.keyCount == |r.value.entries.contents| + |r.value.entries.commonPrefixes|
                <==> forall k :: k in page.objects ==> !Hidden(view, page.commons, params.prefix, k))
  {
    var view := View(store, KeyPrefix(config));
    var page := DirectPage(view, params);
    PrefixViewSeen(store, config, params);
    PageMembers(view, params.prefix, params.delimiter, AfterOf(params), params.maxKeys);
    VisibleCount(view, page.objects, page.commons, params.prefix);
  }

  /** With a delimiter that does not end in a slash the common prefixes are not the direct ones. */
  lemma {:induction false} OddDelimiterDiffers(store: Store, config: BucketConfig, params: ListParams)
    requires params.continuationToken.None? && HandleList(store, config, params, None, None).Ok?
    requires !FoldersOnly(DirectPage(View(store, KeyPrefix(config)), params), params.delimiter)
    ensures HandleList(store, config, params, None, None).value.entries.commonPrefixes
         != EncodedAll(DirectPage(View(store, KeyPrefix(config)), params).commons, UrlEncoded(params))
  {
    var view := View(store, KeyPrefix(config));
    var page := DirectPage(view, params);
    BackendPageOfView(store, config, params);
    PageMembers(view, params.prefix, params.delimiter, AfterOf(params), params.maxKeys);
    assert page.commons[0] in page.commons;
    EndsNotInSlash(page.commons[0], params.delimiter);
    FirstPrefixDiffers(store, config, params, page.commons[0]);
  }

  /**
    With any delimiter and any stored paths, the listing is the direct one, with every object
    of the page under its own key, exactly when the common prefixes are folders, no object on
    the page is a folder marker, and none is of zero bytes beside a folder of its name.
   */
  lemma {:induction false} PrefixViewExactly(store: Store, config: BucketConfig, params: ListParams)
    requires PathStore(store) && params.continuationToken.None?
    ensures var view := View(store, KeyPrefix(config));
            var page := DirectPage(view, params);
            var r := HandleList(store, config, params, None, None);
            r.Ok? && r.value.entries == DirectEntries(view, params)
            <==> FoldersOnly(page, params.delimiter) && NothingLost(view, page, params.prefix)
  {
    if FoldersOnly(DirectPage(View(store, KeyPrefix(config)), params), params.delimiter) {
      PrefixViewSeen(store, config, params);
      SeenIsDirect(store, config, params);
    } else if HandleList(store, config, params, None, None).Ok? {
      OddDelimiterDiffers(store, config, params);
    }
  }

  /** Up to the objects the listing means to hide: it is so when every folder marker on the page is a hidden one. */
  lemma {:induction false} PrefixViewModuloFilter(store: Store, config: BucketConfig, params: ListParams)
    requires PathStore(store) && params.continuationToken.None?
    ensures var view := View(store, KeyPrefix(config));
            var page := DirectPage(view, params);
            var r := HandleList(store, config, params, None, None);
            r.Ok? && r.value.entries == FilteredEntries(view, params)
            <==> FoldersOnly(page, params.delimiter) && FoldersHidden(view, page, params.prefix)
  {
    if FoldersOnly(DirectPage(View(store, KeyPrefix(config)), params), params.delimiter) {
      PrefixViewSeen(store, config, params);
      SeenIsFiltered(store, config, params);
    } else if HandleList(store, config, params, None, None).Ok? {
      OddDelimiterDiffers(store, config, params);
    }
  }

  // ---- Inputs on which an object is lost.

  lemma {:induction false} FirstUnderItself(keys: seq<string>, k: string)
    requires StrictlySorted(keys) && k in keys && AllUnder(keys, k)
    ensures keys[0] == k
  {
    var i :| 0 <= i < |keys| && keys[i] == k;
    if keys[0] != k {
      PrefixIsLess(k, keys[0]);
      LessTotal(k, keys[0]);
    }
  }

  /** An object whose name is the prefix asked for is the first of the first page. */
  lemma {:induction false} NameIsListed(view: Store, k: string, delim: string, max: nat)
    requires k in view && max >= 1
    ensures k in ListPage(view, k, delim, None, max).objects
  {
    var keys := SortedKeys(Selected(view, k, None));
    SelectedSorted(view, k, None);
    assert k in Selected(view, k, None);
    FirstUnderItself(keys, k);
    assert k[|k|..] == "";
    var es := Group(keys, k, delim);
    assert es[0] == Single(k);
    assert (if |es| <= max then es else es[..max])[0] == Single(k);
  }

  /** A listing whose prefix is the name of an object of zero bytes leaves that object out. */
  lemma {:induction false} NameAsPrefixInput(store: Store, config: BucketConfig, params: ListParams)
    requires PathStore(store) && params.continuationToken.None? && AfterOf(params).None? && params.maxKeys >= 1
    requires var view := View(store, KeyPrefix(config)); params.prefix in view && view[params.prefix] == 0
    requires !FolderName(params.prefix) && FolderDelimiter(params.delimiter)
    ensures var view := View(store, KeyPrefix(config));
            var page := DirectPage(view, params);
            var shown := Visible(view, page.objects, page.commons, params.prefix);
            var r := HandleList(store, config, params, None, None);
            && r.Ok? && r.value.entries.contents == Named(SeenName(config), view, shown, UrlEncoded(params))
            && params.prefix in page.objects && params.prefix !in shown
  {
    var view := View(store, KeyPrefix(config));
    var page := DirectPage(view, params);
    NameIsListed(view, params.prefix, params.delimiter, params.maxKeys);
    TrimEndOfTrimmed(params.prefix, '/');
    assert Hidden(view, page.commons, params.prefix, params.prefix);
    VisibleMembers(view, page.objects, page.commons, params.prefix);
    PrefixViewSeen(store, config, params);
  }

  lemma NoFinalSlash(d: string)
    requires '/' !in d
    ensures !EndsWith(d, "/")
  {
    if d != "" {
      assert d[|d| - 1] in d;
    }
  }

  lemma {:induction false} BesideFolderPage(d: string, x: string, n: nat, max: nat)
    requires '/' !in d && max >= 2
    ensures ListPage(map[d := 0, d + "/" + x := n], "", "/", None, max) == Page([d], [d + "/"], false)
  {
    var view: Store, key := map[d := 0, d + "/" + x := n], d + "/" + x;
    var keys := [d, key];
    PrefixIsLess(d, key);
    assert Enumerates(keys, Selected(view, "", None));
    SortedKeysUnique(keys, Selected(view, "", None));
    FindChar(d, '/');
    FreeOfChar(d, '/');
    FindAfterFree(d, "/", x);
    assert d[|""|..] == d && key[|""|..] == key;
    assert key[..|d| + 1] == d + "/";
    assert Classify(d, "", "/") == Single(d) && Classify(key, "", "/") == Rolled(d + "/");
    assert keys[1..] == [key];
    var es := [Single(d), Rolled(d + "/")];
    assert keys[1..][1..] == [] && Group(keys[1..][1..], "", "/") == [];
    assert Group([key], "", "/") == [Rolled(d + "/")];
    assert Group(keys, "", "/") == es;
    var tail := es[1..];
    assert tail == [Rolled(d + "/")] && tail[1..] == [] && Singles(tail[1..]) == [] && Rolls(tail[1..]) == [];
    assert Singles(tail) == [] && Rolls(tail) == [d + "/"];
    assert Singles(es) == [d] && Rolls(es) == [d + "/"];
  }

  /** An object of zero bytes beside a folder of its name is counted but not shown. */
  lemma {:induction false} BesideFolderInput(store: Store, config: BucketConfig, params: ListParams, d: string, x: string, n: nat)
    requires PathStore(store) && '/' !in d
    requires View(store, KeyPrefix(config)) == map[d := 0, d + "/" + x := n]
    requires params.continuationToken.None? && AfterOf(params).None? && params.maxKeys >= 2 && params.isV2
    requires params.prefix == "" && params.delimiter == "/"
    ensures var r := HandleList(store, config, params, None, None);
            && r.Ok? && r.value.ResponseV2? && r.value.keyCount == 2
            && r.value.entries.contents == []
            && r.value.entries.commonPrefixes == [S3Encode(d + "/", UrlEncoded(params))]
  {
    var view := View(store, KeyPrefix(config));
    var page := DirectPage(view, params);
    BesideFolderPage(d, x, n, params.maxKeys);
    PrefixViewSeen(store, config, params);
    NoFinalSlash(d);
    VisibleCons(view, [d], [d + "/"], "");
    assert [d][1..] == [];
  }

  /** A common prefix without a final slash comes back with one. */
  lemma {:induction false} FirstPrefixDiffers(store: Store, config: BucketConfig, params: ListParams, c: string)
    requires params.continuationToken.None? && c != "" && !EndsWith(c, "/")
    requires HandleList(store, config, params, None, None).Ok?
    requires var page := BackendPage(store, config, params);
             page.commons != [] && page.commons[0] == KeyPrefix(config) + c
    ensures var shown := HandleList(store, config, params, None, None).value.entries.commonPrefixes;
            shown != [] && shown[0] != S3Encode(c, UrlEncoded(params))
  {
    var p, enc := KeyPrefix(config), UrlEncoded(params);
    var path := ParsePath(p + c).value;
    SlashedDiffers(path, p, c, enc);
    assert HandleList(store, config, params, None, None).value.entries.commonPrefixes[0]
        == S3Encode(RewriteKey(path + "/", p, None), enc);
  }

  lemma {:induction false} SlashedDiffers(path: string, p: string, c: string, urlEncode: bool)
    requires c != "" && !EndsWith(c, "/")
    ensures S3Encode(RewriteKey(path + "/", p, None), urlEncode) != S3Encode(c, urlEncode)
  {
    var shown := RewriteKey(path + "/", p, None);
    assert EndsWith(path + "/", "/") && (shown == "" || EndsWith(shown, "/"));
    EncodeInjective(shown, c, urlEncode);
  }

  lemma EndsNotInSlash(c: string, delim: string)
    requires delim != "" && EndsWith(c, delim) && !EndsWith(delim, "/")
    ensures c != "" && !EndsWith(c, "/")
  {
    assert c[|c| - 1] == c[|c| - |delim|..][|delim| - 1];
  }
}
