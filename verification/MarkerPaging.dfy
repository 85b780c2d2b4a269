/**
  Paging a version 1 listing by `NextMarker`. The marker handed out is the path of a backend
  key, and the marker handed in is prefixed again; so paging works exactly for buckets without
  a prefix, and there exactly when no folder marker stands before another key.
 */
module MarkerPaging {
  import opened Text
  import opened Ordering
  import opened Types
  import opened Keys
  import opened Query
  import opened Listing
  import opened PrefixView

  function MarkerParams(prefix: string, max: nat, marker: Option<string>): ListParams {
    ListParams(prefix, "", max, None, None, None, marker, false)
  }

  /** What a paging client reads off one response; `stuck` when it cannot go on. */
  datatype Fetched = Last(contents: seq<Content>) | More(contents: seq<Content>, marker: string) | Stuck

  function ReadResponse(r: Result<ListResponse, ProxyError>): Fetched {
    if r.Err? || r.value.ResponseV2? then Stuck
    else if !r.value.isTruncated then Last(r.value.entries.contents)
    else if r.value.nextMarker.None? then Stuck
    else More(r.value.entries.contents, r.value.nextMarker.value)
  }

  ghost function FetchPage(store: Store, config: BucketConfig, prefix: string, max: nat, marker: Option<string>): Fetched {
    ReadResponse(HandleList(store, config, MarkerParams(prefix, max, marker), None, None))
  }

  /** The contents of all pages from `marker` on, or nothing if `fuel` pages are not enough. */
  ghost function CrawlWith(fetch: Option<string> -> Fetched, marker: Option<string>, fuel: nat): Option<seq<Content>>
    decreases fuel
  {
    if fuel == 0 then None
    else
      match fetch(marker)
      case Stuck => None
      case Last(contents) => Some(contents)
      case More(contents, next) =>
        match CrawlWith(fetch, Some(next), fuel - 1)
        case None => None
        case Some(rest) => Some(contents + rest)
  }

  ghost function Crawl(store: Store, config: BucketConfig, prefix: string, max: nat, marker: Option<string>,
                       fuel: nat): Option<seq<Content>>
  {
    CrawlWith(m => FetchPage(store, config, prefix, max, m), marker, fuel)
  }

  lemma {:induction false} SameFetchSameCrawl(f: Option<string> -> Fetched, g: Option<string> -> Fetched,
                                              marker: Option<string>, fuel: nat)
    requires forall m :: f(m) == g(m)
    ensures CrawlWith(f, marker, fuel) == CrawlWith(g, marker, fuel)
    decreases fuel
  {
    if fuel > 0 && f(marker).More? {
      SameFetchSameCrawl(f, g, Some(f(marker).marker), fuel - 1);
    }
  }

  ghost function KeysFrom(view: Store, prefix: string, marker: Option<string>): seq<string> {
    SortedKeys(Selected(view, prefix, marker))
  }

  /** Every key under the client prefix, once and in order, less the hidden folder marker. */
  ghost function Everything(view: Store, prefix: string, marker: Option<string>): seq<Content> {
    ShownContents(view, KeysFrom(view, prefix, marker), [], prefix, false)
  }

  /** The contents of a page with these keys, as the client sees them. */
  function SeenKeys(view: Store, config: BucketConfig, keys: seq<string>, prefix: string): seq<Content> {
    Named(SeenName(config), view, Visible(view, keys, [], prefix), false)
  }

  // ---- One page.

  function AllSingle(keys: seq<string>): (es: seq<Entry>)
    ensures |es| == |keys|
  {
    if keys == [] then [] else [Single(keys[0])] + AllSingle(keys[1..])
  }

  lemma {:induction false} UngroupedKeys(keys: seq<string>, prefix: string)
    requires AllUnder(keys, prefix)
    ensures Group(keys, prefix, "") == AllSingle(keys)
  {
    if keys != [] {
      UngroupedKeys(keys[1..], prefix);
    }
  }

  lemma {:induction false} SinglesOfKeys(keys: seq<string>, n: nat)
    requires n <= |keys|
    ensures Singles(AllSingle(keys)[..n]) == keys[..n] && Rolls(AllSingle(keys)[..n]) == []
  {
    if n > 0 {
      SinglesOfKeys(keys[1..], n - 1);
      assert AllSingle(keys)[..n][1..] == AllSingle(keys[1..])[..n - 1];
      assert keys[..n] == [keys[0]] + keys[1..][..n - 1];
    }
  }

  lemma {:induction false} PageWithoutDelimiter(view: Store, prefix: string, max: nat, marker: Option<string>)
    ensures var keys := KeysFrom(view, prefix, marker);
            var n := if |keys| <= max then |keys| else max;
            DirectPage(view, MarkerParams(prefix, max, marker)) == Page(keys[..n], [], |keys| > max)
  {
    var keys := KeysFrom(view, prefix, marker);
    SelectedSorted(view, prefix, marker);
    UngroupedKeys(keys, prefix);
    var n := if |keys| <= max then |keys| else max;
    SinglesOfKeys(keys, n);
    assert AllSingle(keys)[..|keys|] == AllSingle(keys);
  }

  /** The response to one version 1 request, in terms of the client's keys. */
  lemma {:induction false} PageResponse(store: Store, config: BucketConfig, prefix: string, max: nat, marker: Option<string>)
    requires PathStore(store) && max >= 1
    ensures FetchPage(store, config, prefix, max, marker) == ViewPage(View(store, KeyPrefix(config)), config, prefix, max, marker)
  {
    var view := View(store, KeyPrefix(config));
    var r := Response(store, config, MarkerParams(prefix, max, marker));
    PageWithoutDelimiter(view, prefix, max, marker);
    ReadPage(r, view, config, prefix, max, marker);
  }

  /** What is needed of the response to a version 1 request without a delimiter. */
  lemma {:induction false} Response(store: Store, config: BucketConfig, params: ListParams) returns (r: Result<ListResponse, ProxyError>)
    requires PathStore(store) && params.continuationToken.None? && params.delimiter == "" && !params.isV2
    ensures r == HandleList(store, config, params, None, None) && r.Ok? && !r.value.ResponseV2?
    ensures var view := View(store, KeyPrefix(config)); var page := DirectPage(view, params);
            && r.value.entries.contents == SeenContents(view, config, params)
            && r.value.isTruncated == page.truncated
            && r.value.nextMarker == if page.truncated && page.objects != []
                                     then Some(Unslashed(KeyPrefix(config) + page.objects[|page.objects| - 1])) else None
  {
    PrefixViewSeen(store, config, params);
    r := HandleList(store, config, params, None, None);
  }

  lemma {:induction false} ReadPage(r: Result<ListResponse, ProxyError>, view: Store, config: BucketConfig, prefix: string, max: nat,
                                    marker: Option<string>)
    requires max >= 1 && r.Ok? && !r.value.ResponseV2?
    requires var keys := KeysFrom(view, prefix, marker);
             var page := Page(keys[..if |keys| <= max then |keys| else max], [], |keys| > max);
             && DirectPage(view, MarkerParams(prefix, max, marker)) == page
             && r.value.entries.contents == SeenContents(view, config, MarkerParams(prefix, max, marker))
             && r.value.isTruncated == page.truncated
             && r.value.nextMarker == if page.truncated && page.objects != []
                                      then Some(Unslashed(KeyPrefix(config) + page.objects[|page.objects| - 1])) else None
    ensures ReadResponse(r) == ViewPage(view, config, prefix, max, marker)
  {
    var keys := KeysFrom(view, prefix, marker);
    assert keys[..|keys|] == keys;
  }

  /** The page read when `keys` are left. */
  function PageOfKeys(view: Store, config: BucketConfig, prefix: string, max: nat, keys: seq<string>): Fetched
    requires max >= 1
  {
    if |keys| <= max then Last(SeenKeys(view, config, keys, prefix))
    else More(SeenKeys(view, config, keys[..max], prefix), Unslashed(KeyPrefix(config) + keys[max - 1]))
  }

  ghost function ViewPage(view: Store, config: BucketConfig, prefix: string, max: nat, marker: Option<string>): Fetched
    requires max >= 1
  {
    PageOfKeys(view, config, prefix, max, KeysFrom(view, prefix, marker))
  }

  ghost function PageFetch(view: Store, config: BucketConfig, prefix: string, max: nat): Option<string> -> Fetched
    requires max >= 1
  {
    m => ViewPage(view, config, prefix, max, m)
  }

  /** The crawl in terms of the client's keys alone. */
  ghost function ViewCrawl(view: Store, config: BucketConfig, prefix: string, max: nat, marker: Option<string>,
                           fuel: nat): Option<seq<Content>>
    requires max >= 1
  {
    CrawlWith(PageFetch(view, config, prefix, max), marker, fuel)
  }

  lemma {:induction false} CrawlIsViewCrawl(store: Store, config: BucketConfig, prefix: string, max: nat,
                                            marker: Option<string>, fuel: nat)
    requires PathStore(store) && max >= 1
    ensures Crawl(store, config, prefix, max, marker, fuel)
         == ViewCrawl(View(store, KeyPrefix(config)), config, prefix, max, marker, fuel)
  {
    var view := View(store, KeyPrefix(config));
    forall m
      ensures FetchPage(store, config, prefix, max, m) == ViewPage(view, config, prefix, max, m)
    {
      PageResponse(store, config, prefix, max, m);
    }
    SameFetchSameCrawl(m => FetchPage(store, config, prefix, max, m), PageFetch(view, config, prefix, max), marker, fuel);
  }

  // ---- Without a prefix, crawling visits everything as long as folder markers stay out of the way.

  lemma {:induction false} NamedConcat(name: string -> string, view: Store, a: seq<string>, b: seq<string>)
    ensures Named(name, view, a + b, false) == Named(name, view, a, false) + Named(name, view, b, false)
  {
  }

  lemma {:induction false} ShownConcat(view: Store, a: seq<string>, b: seq<string>, prefix: string)
    ensures ShownContents(view, a + b, [], prefix, false)
         == ShownContents(view, a, [], prefix, false) + ShownContents(view, b, [], prefix, false)
  {
    FilterConcat(IsVisible(view, [], prefix), a, b);
    NamedConcat(OWN_NAME, view, Visible(view, a, [], prefix), Visible(view, b, [], prefix));
  }

  lemma {:induction false} IndexAfter(keys: seq<string>, n: nat, i: nat)
    requires StrictlySorted(keys) && 0 < n <= |keys| && i < |keys| && Less(keys[n - 1], keys[i])
    ensures i >= n
  {
    LessTotal(keys[n - 1], keys[i]);
  }

  /** The keys after the last key of a page are the ones the page left out. */
  lemma {:induction false} KeysAfter(view: Store, prefix: string, marker: Option<string>, n: nat)
    requires 0 < n <= |KeysFrom(view, prefix, marker)|
    ensures KeysFrom(view, prefix, Some(KeysFrom(view, prefix, marker)[n - 1])) == KeysFrom(view, prefix, marker)[n..]
  {
    var keys := KeysFrom(view, prefix, marker);
    var last := keys[n - 1];
    var set0, set1 := Selected(view, prefix, marker), Selected(view, prefix, Some(last));
    SortedKeysEnumerates(set0);
    assert last in set0;
    var rest := keys[n..];
    forall k
      ensures k in rest <==> k in set1
    {
      if k in rest {
        var i :| 0 <= i < |rest| && rest[i] == k;
        assert keys[n + i] == k && Less(last, k);
        assert k in set0;
      }
      if k in set1 {
        if marker.Some? {
          LessTransitive(marker.value, last, k);
        }
        assert k in set0 && k in keys;
        var i :| 0 <= i < |keys| && keys[i] == k;
        IndexAfter(keys, n, i);
        assert rest[i - n] == k;
      }
    }
    forall i, j | 0 <= i < j < |rest|
      ensures Less(rest[i], rest[j])
    {
      assert rest[i] == keys[n + i] && rest[j] == keys[n + j];
    }
    SortedKeysUnique(rest, set1);
  }

  /** A folder marker among the keys is the last of them, and hidden. */
  ghost predicate FoldersLast(view: Store, keys: seq<string>, prefix: string) {
    forall i :: 0 <= i < |keys| && FolderName(keys[i]) ==> i == |keys| - 1 && Hidden(view, [], prefix, keys[i])
  }

  /** A folder marker among the keys is hidden, and ends no page but the last. */
  ghost predicate OffPageEnds(view: Store, keys: seq<string>, prefix: string, max: nat)
    requires max >= 1
  {
    forall i :: 0 <= i < |keys| && FolderName(keys[i]) ==>
      Hidden(view, [], prefix, keys[i]) && (i == |keys| - 1 || !EndsPage(i, max))
  }

  /** Pages of `max` keys end here. */
  predicate EndsPage(i: nat, max: nat)
    requires max >= 1
  {
    if i < max then i == max - 1 else EndsPage(i - max, max)
  }

  /** Keys of which no folder is visible are seen under their own names. */
  lemma {:induction false} SeenAsThemselves(store: Store, config: BucketConfig, keys: seq<string>, prefix: string)
    requires PathStore(store) && forall i :: 0 <= i < |keys| ==> keys[i] in View(store, KeyPrefix(config))
    ensures var view := View(store, KeyPrefix(config));
            SeenKeys(view, config, keys, prefix) == ShownContents(view, keys, [], prefix, false)
            <==> forall i :: 0 <= i < |keys| && FolderName(keys[i]) ==> Hidden(view, [], prefix, keys[i])
  {
    var view := View(store, KeyPrefix(config));
    var visible := Visible(view, keys, [], prefix);
    VisibleMembers(view, keys, [], prefix);
    forall i | 0 <= i < |visible|
      ensures IsPath(KeyPrefix(config) + visible[i])
    {
      assert visible[i] in visible;
      ViewHas(store, KeyPrefix(config), visible[i]);
    }
    NamesAgree(config, view, visible, false);
    VisibleFolders(view, keys, [], prefix);
    forall i | 0 <= i < |keys|
      ensures keys[i] in keys
    {
    }
  }

  lemma {:induction false} KeysInView(view: Store, prefix: string, marker: Option<string>)
    ensures var keys := KeysFrom(view, prefix, marker);
            && StrictlySorted(keys)
            && (forall i :: 0 <= i < |keys| ==>
                  keys[i] in view && prefix <= keys[i] && (marker.Some? ==> Less(marker.value, keys[i])))
            && (forall k :: k in view && prefix <= k && (marker.Some? ==> Less(marker.value, k)) ==> k in keys)
  {
    SelectedSorted(view, prefix, marker);
    var keys := KeysFrom(view, prefix, marker);
    forall i | 0 <= i < |keys|
      ensures keys[i] in Selected(view, prefix, marker)
    {
      assert keys[i] in keys;
    }
  }

  /** One page on the way: its contents, and its last key as the marker. */
  lemma {:induction false} FreePage(store: Store, config: BucketConfig, prefix: string, max: nat, keys: seq<string>)
    requires PathStore(store) && max >= 1 && KeyPrefix(config) == ""
    requires forall i :: 0 <= i < |keys| ==> keys[i] in View(store, "")
    requires OffPageEnds(View(store, ""), keys, prefix, max)
    ensures var view := View(store, "");
            PageOfKeys(view, config, prefix, max, keys)
            == if |keys| <= max then Last(ShownContents(view, keys, [], prefix, false))
               else More(ShownContents(view, keys[..max], [], prefix, false), keys[max - 1])
  {
    if |keys| <= max {
      SeenAsThemselves(store, config, keys, prefix);
    } else {
      assert "" + keys[max - 1] == keys[max - 1];
      SeenAsThemselves(store, config, keys[..max], prefix);
    }
  }

  lemma {:induction false} RestIsFree(view: Store, keys: seq<string>, max: nat, prefix: string)
    requires 1 <= max < |keys| && OffPageEnds(view, keys, prefix, max)
    ensures OffPageEnds(view, keys[max..], prefix, max)
    ensures ShownContents(view, keys, [], prefix, false)
         == ShownContents(view, keys[..max], [], prefix, false) + ShownContents(view, keys[max..], [], prefix, false)
  {
    var rest := keys[max..];
    forall i | 0 <= i < |rest| && FolderName(rest[i])
      ensures Hidden(view, [], prefix, rest[i]) && (i == |rest| - 1 || !EndsPage(i, max))
    {
      assert rest[i] == keys[max + i];
      assert EndsPage(max + i, max) <==> EndsPage(i, max);
    }
    ShownConcat(view, keys[..max], keys[max..], prefix);
    assert keys[..max] + keys[max..] == keys;
  }

  lemma {:induction false} CrawlStep(fetch: Option<string> -> Fetched, marker: Option<string>, fuel: nat)
    requires fuel > 0
    ensures fetch(marker).Last? ==> CrawlWith(fetch, marker, fuel) == Some(fetch(marker).contents)
    ensures fetch(marker).More? ==>
              var rest := CrawlWith(fetch, Some(fetch(marker).marker), fuel - 1);
              CrawlWith(fetch, marker, fuel) == if rest.None? then None else Some(fetch(marker).contents + rest.value)
  {
  }

  /** From the markers in `good`, a page is the last one or leaves fewer keys; `all` is what is still to come. */
  ghost predicate Collects(fetch: Option<string> -> Fetched, good: Option<string> -> bool, all: Option<string> -> seq<Content>,
                           left: Option<string> -> nat, m: Option<string>)
  {
    good(m) ==>
      match fetch(m)
      case Stuck => false
      case Last(contents) => contents == all(m)
      case More(contents, next) => good(Some(next)) && left(Some(next)) < left(m) && all(m) == contents + all(Some(next))
  }

  lemma {:induction false} CrawlCollects(fetch: Option<string> -> Fetched, good: Option<string> -> bool,
                                         all: Option<string> -> seq<Content>, left: Option<string> -> nat,
                                         marker: Option<string>, fuel: nat)
    requires forall m :: Collects(fetch, good, all, left, m)
    requires good(marker) && fuel > left(marker)
    ensures CrawlWith(fetch, marker, fuel) == Some(all(marker))
    decreases fuel
  {
    assert Collects(fetch, good, all, left, marker);
    if fetch(marker).More? {
      CrawlCollects(fetch, good, all, left, Some(fetch(marker).marker), fuel - 1);
    }
  }

  lemma {:induction false} ViewCrawlVisitsEverything(store: Store, config: BucketConfig, prefix: string, max: nat,
                                                     marker: Option<string>, fuel: nat)
    requires PathStore(store) && max >= 1 && KeyPrefix(config) == ""
    requires var keys := KeysFrom(View(store, ""), prefix, marker);
             OffPageEnds(View(store, ""), keys, prefix, max) && fuel > |keys|
    ensures ViewCrawl(View(store, ""), config, prefix, max, marker, fuel) == Some(Everything(View(store, ""), prefix, marker))
  {
    var view := View(store, "");
    var good := (m: Option<string>) => OffPageEnds(view, KeysFrom(view, prefix, m), prefix, max);
    var all := (m: Option<string>) => Everything(view, prefix, m);
    var left := (m: Option<string>) => |KeysFrom(view, prefix, m)|;
    forall m
      ensures Collects(PageFetch(view, config, prefix, max), good, all, left, m)
    {
      if good(m) {
        FreeStep(store, config, prefix, max, m);
      }
    }
    CrawlCollects(PageFetch(view, config, prefix, max), good, all, left, marker, fuel);
  }

  lemma {:induction false} FreeStep(store: Store, config: BucketConfig, prefix: string, max: nat, m: Option<string>)
    requires PathStore(store) && max >= 1 && KeyPrefix(config) == ""
    requires OffPageEnds(View(store, ""), KeysFrom(View(store, ""), prefix, m), prefix, max)
    ensures var view := View(store, "");
            match ViewPage(view, config, prefix, max, m)
            case Stuck => false
            case Last(contents) => contents == Everything(view, prefix, m)
            case More(contents, next) =>
              var rest := KeysFrom(view, prefix, Some(next));
              && OffPageEnds(view, rest, prefix, max) && |rest| < |KeysFrom(view, prefix, m)|
              && Everything(view, prefix, m) == contents + Everything(view, prefix, Some(next))
  {
    var view := View(store, "");
    var keys := KeysFrom(view, prefix, m);
    KeysInView(view, prefix, m);
    FreePage(store, config, prefix, max, keys);
    if |keys| > max {
      KeysAfter(view, prefix, m, max);
      RestIsFree(view, keys, max, prefix);
    }
  }

  /**
    Without a prefix, if folder markers are hidden and end no page but the last, the crawl
    ends after at most one page per key and has seen every key once, in order.
   */
  lemma {:induction false} CrawlVisitsEverything(store: Store, config: BucketConfig, prefix: string, max: nat, fuel: nat)
    requires PathStore(store) && max >= 1 && KeyPrefix(config) == ""
    requires var keys := KeysFrom(View(store, ""), prefix, None);
             OffPageEnds(View(store, ""), keys, prefix, max) && fuel > |keys|
    ensures Crawl(store, config, prefix, max, None, fuel) == Some(Everything(View(store, ""), prefix, None))
  {
    CrawlIsViewCrawl(store, config, prefix, max, None, fuel);
    ViewCrawlVisitsEverything(store, config, prefix, max, None, fuel);
  }

  ghost predicate CrawlCompletes(store: Store, config: BucketConfig, prefix: string, max: nat) {
    exists fuel: nat ::
      Crawl(store, config, prefix, max, None, fuel) == Some(Everything(View(store, KeyPrefix(config)), prefix, None))
  }

  lemma {:induction false} UnslashedLess(k: string)
    ensures EndsWith(k, "/") ==> Less(Unslashed(k), k)
    ensures LessEq(Unslashed(k), k)
  {
    if EndsWith(k, "/") {
      assert k == Unslashed(k) + "/";
      PrefixIsLess(Unslashed(k), k);
    }
  }

  lemma {:induction false} NeverEnds(fetch: Option<string> -> Fetched, stalled: Option<string> -> bool,
                                     marker: Option<string>, fuel: nat)
    requires forall m :: stalled(m) ==> fetch(m).More? && stalled(Some(fetch(m).marker))
    requires stalled(marker)
    ensures CrawlWith(fetch, marker, fuel) == None
    decreases fuel
  {
    if fuel > 0 {
      NeverEnds(fetch, stalled, Some(fetch(marker).marker), fuel - 1);
    }
  }

  /** The marker given out for the folder marker `k` lies before it, so one key at a time never gets past it. */
  lemma {:induction false} FolderStalls(view: Store, config: BucketConfig, prefix: string, k: string, z: string, fuel: nat)
    requires KeyPrefix(config) == "" && EndsWith(k, "/")
    requires k in view && z in view && prefix <= k && prefix <= z && Less(k, z)
    ensures ViewCrawl(view, config, prefix, 1, None, fuel) == None
  {
    var fetch := PageFetch(view, config, prefix, 1);
    var stalled := (m: Option<string>) => m.Some? ==> Less(m.value, k);
    forall m | stalled(m)
      ensures fetch(m).More? && stalled(Some(fetch(m).marker))
    {
      var next := StalledPage(view, config, prefix, k, z, m);
    }
    NeverEnds(fetch, stalled, None, fuel);
  }

  lemma {:induction false} StalledPage(view: Store, config: BucketConfig, prefix: string, k: string, z: string,
                                       marker: Option<string>) returns (next: string)
    requires KeyPrefix(config) == "" && EndsWith(k, "/")
    requires k in view && z in view && prefix <= k && prefix <= z && Less(k, z)
    requires marker.Some? ==> Less(marker.value, k)
    ensures var page := ViewPage(view, config, prefix, 1, marker);
            page.More? && page.marker == next && Less(next, k)
  {
    KeysInView(view, prefix, marker);
    if marker.Some? {
      LessTransitive(marker.value, k, z);
    }
    next := StalledKeys(view, config, prefix, k, z, KeysFrom(view, prefix, marker));
  }

  lemma {:induction false} StalledKeys(view: Store, config: BucketConfig, prefix: string, k: string, z: string,
                                       keys: seq<string>) returns (next: string)
    requires KeyPrefix(config) == "" && EndsWith(k, "/")
    requires StrictlySorted(keys) && k in keys && z in keys && Less(k, z)
    ensures var page := PageOfKeys(view, config, prefix, 1, keys);
            page.More? && page.marker == next && Less(next, k)
  {
    TwoAmong(keys, k, z);
    var x := keys[0];
    next := Unslashed(x);
    UnslashedLess(x);
    if x != k && next != x {
      LessTransitive(next, x, k);
    }
    assert "" + x == x;
  }

  lemma {:induction false} TwoAmong(keys: seq<string>, k: string, z: string)
    requires StrictlySorted(keys) && k in keys && z in keys && Less(k, z)
    ensures |keys| > 1 && (keys[0] == k || Less(keys[0], k))
  {
    LessTotal(k, z);
    var i :| 0 <= i < |keys| && keys[i] == k;
    var j :| 0 <= j < |keys| && keys[j] == z;
  }

  lemma {:induction false} StallDefeats(store: Store, config: BucketConfig, prefix: string, i: nat)
    requires PathStore(store) && KeyPrefix(config) == ""
    requires var keys := KeysFrom(View(store, ""), prefix, None); i + 1 < |keys| && FolderName(keys[i])
    ensures !CrawlCompletes(store, config, prefix, 1)
  {
    var view := View(store, "");
    var keys := KeysFrom(view, prefix, None);
    KeysInView(view, prefix, None);
    ViewHas(store, "", keys[i]);
    PrefixedPath(config, keys[i]);
    forall fuel: nat
      ensures Crawl(store, config, prefix, 1, None, fuel) == None
    {
      CrawlIsViewCrawl(store, config, prefix, 1, None, fuel);
      FolderStalls(view, config, prefix, keys[i], keys[i + 1], fuel);
    }
  }

  /** The store with a folder marker and an object. */
  ghost function FolderAndObject(a: string, b: string): Store {
    map[a + "/" := 0, b := 1]
  }

  lemma {:induction false} ViewOfAll(store: Store)
    ensures View(store, "") == store
  {
    forall k
      ensures (k in View(store, "") <==> k in store) && (k in store ==> View(store, "")[k] == store[k])
    {
      ViewHas(store, "", k);
      assert "" + k == k;
    }
  }

  lemma {:induction false} TwoSorted(store: Store, k1: string, k2: string)
    requires Less(k1, k2) && store.Keys == {k1, k2}
    ensures KeysFrom(store, "", None) == [k1, k2]
  {
    SortedKeysUnique([k1, k2], Selected(store, "", None));
  }

  lemma {:induction false} FolderAndObjectView(a: string, b: string)
    requires CleanPath(a) && CleanPath(b) && Less(a + "/", b)
    ensures var store := FolderAndObject(a, b);
            && PathStore(store) && View(store, "") == store
            && KeysFrom(store, "", None) == [a + "/", b]
            && Unslashed(a + "/") == a && Unslashed(b) == b
  {
    var store := FolderAndObject(a, b);
    CleanPathNotEmpty(a);
    CleanPathNotEmpty(b);
    ViewOfAll(store);
    TwoSorted(store, a + "/", b);
  }

  /**
    A folder marker `a/` before an object `b`: the marker is listed as `a`, which is not
    stored, and a client that pages never gets past it.
   */
  lemma {:induction false} FolderMarkerInput(config: BucketConfig, a: string, b: string, max: nat, fuel: nat)
    requires config.backendPrefix == None && CleanPath(a) && CleanPath(b) && Less(a + "/", b) && max >= 2
    ensures var store := FolderAndObject(a, b);
            && PathStore(store) && (a != b ==> a !in store)
            && FetchPage(store, config, "", max, None) == Last([Content(a, 0), Content(b, 1)])
            && Crawl(store, config, "", 1, None, fuel) == None
  {
    FolderListed(config, a, b, max);
    FolderNeverPassed(config, a, b, fuel);
    CleanPathNotEmpty(a);
    assert (a + "/")[|a|] == '/';
  }

  lemma {:induction false} FolderListed(config: BucketConfig, a: string, b: string, max: nat)
    requires config.backendPrefix == None && CleanPath(a) && CleanPath(b) && Less(a + "/", b) && max >= 2
    ensures PathStore(FolderAndObject(a, b))
    ensures FetchPage(FolderAndObject(a, b), config, "", max, None) == Last([Content(a, 0), Content(b, 1)])
  {
    var store := FolderAndObject(a, b);
    FolderAndObjectView(a, b);
    PageResponse(store, config, "", max, None);
    CleanPathNotEmpty(a);
    CleanPathNotEmpty(b);
    TwoOnPage(store, config, a + "/", b, max);
  }

  lemma {:induction false} FolderNeverPassed(config: BucketConfig, a: string, b: string, fuel: nat)
    requires config.backendPrefix == None && CleanPath(a) && CleanPath(b) && Less(a + "/", b)
    ensures Crawl(FolderAndObject(a, b), config, "", 1, None, fuel) == None
  {
    FolderAndObjectView(a, b);
    CrawlIsViewCrawl(FolderAndObject(a, b), config, "", 1, None, fuel);
    FolderStalls(FolderAndObject(a, b), config, "", a + "/", b, fuel);
  }

  lemma {:induction false} TwoOnPage(view: Store, config: BucketConfig, k1: string, k2: string, max: nat)
    requires k1 in view && k2 in view && k1 != "" && k2 != "" && Unslashed(k1) != "" && Unslashed(k2) != "" && max >= 2
    ensures PageOfKeys(view, config, "", max, [k1, k2])
         == Last([Content(Unslashed(k1), view[k1]), Content(Unslashed(k2), view[k2])])
  {
    TwoVisible(view, k1, k2);
    NamedTwo(SeenName(config), view, k1, k2);
  }

  lemma {:induction false} NamedTwo(name: string -> string, view: Store, k1: string, k2: string)
    requires k1 in view && k2 in view
    ensures Named(name, view, [k1, k2], false) == [Content(name(k1), view[k1]), Content(name(k2), view[k2])]
  {
  }

  lemma {:induction false} TwoVisible(view: Store, k1: string, k2: string)
    requires k1 in view && k2 in view && Unslashed(k1) != "" && Unslashed(k2) != ""
    ensures Visible(view, [k1, k2], [], "") == [k1, k2] && Visible(view, [k1], [], "") == [k1]
  {
    VisibleCons(view, [k1, k2], [], "");
    VisibleCons(view, [k2], [], "");
    VisibleCons(view, [k1], [], "");
    assert [k1, k2][1..] == [k2] && [k2][1..] == [] && [k1][1..] == [];
    assert Visible(view, [], [], "") == [] && [k2] + [] == [k2] && [k1] + [] == [k1] && [k1] + [k2] == [k1, k2];
  }

  lemma {:induction false} SingleSegment(k: string)
    requires k != "" && '/' !in k && k != "." && k != ".."
    ensures CleanPath(k)
  {
    FreeOfChar(k, '/');
    SplitSingle(k, "/");
  }

  // ---- With a real prefix, some store defeats it.

  /** No folder marker stands in the way of paging under this prefix. */
  ghost predicate PathIsFree(store: Store, config: BucketConfig, prefix: string) {
    var view := View(store, KeyPrefix(config));
    FoldersLast(view, KeysFrom(view, prefix, None), prefix)
  }

  /** Paging is complete for every store, client prefix and page size, folder markers in the way excepted. */
  ghost predicate CrawlsCompletely(config: BucketConfig) {
    forall store: Store, prefix: string, max: nat ::
      PathStore(store) && max >= 1 && PathIsFree(store, config, prefix) ==> CrawlCompletes(store, config, prefix, max)
  }

  ghost function TwoKeys(p: string, k1: string, k2: string): Store {
    map[p + k1 := 1, p + k2 := 1]
  }

  lemma {:induction false} TwoKeysSelected(p: string, k1: string, k2: string, marker: Option<string>, keys: seq<string>)
    requires Less(k1, k2)
    requires keys == [k1, k2] || keys == []
    requires marker.Some? ==> (Less(marker.value, k1) <==> keys != []) && (Less(marker.value, k2) <==> keys != [])
    requires marker.None? ==> keys != []
    ensures KeysFrom(View(TwoKeys(p, k1, k2), p), "", marker) == keys
  {
    var view := View(TwoKeys(p, k1, k2), p);
    forall k
      ensures k in keys <==> k in Selected(view, "", marker)
    {
      ViewHas(TwoKeys(p, k1, k2), p, k);
      assert (p + k)[|p|..] == k && (p + k1)[|p|..] == k1 && (p + k2)[|p|..] == k2;
    }
    SortedKeysUnique(keys, Selected(view, "", marker));
  }

  lemma {:induction false} TwoKeysClean(config: BucketConfig, k1: string, k2: string)
    requires CleanPath(TrimmedPrefix(config)) && CleanPath(k1) && CleanPath(k2)
    ensures PathStore(TwoKeys(KeyPrefix(config), k1, k2))
    ensures KeyPrefix(config) != "" && KeyPrefix(config)[0] == TrimmedPrefix(config)[0]
  {
    var bp := TrimmedPrefix(config);
    CleanPathNotEmpty(bp);
    CleanPathConcat(bp, k1);
    CleanPathConcat(bp, k2);
    CleanPathNotEmpty(bp + "/" + k1);
    CleanPathNotEmpty(bp + "/" + k2);
  }

  lemma {:induction false} TwoShown(view: Store, k1: string, k2: string)
    requires k1 in view && k2 in view && view[k1] == 1 && view[k2] == 1
    ensures |ShownContents(view, [k1, k2], [], "", false)| == 2
  {
    VisibleCons(view, [k1, k2], [], "");
    VisibleCons(view, [k2], [], "");
    assert [k1, k2][1..] == [k2] && [k2][1..] == [];
  }

  /** The re-prefixed marker sorts before the page it came from: the crawl repeats the page for ever. */
  lemma {:induction false} CrawlRepeats(view: Store, config: BucketConfig, marker: Option<string>, fuel: nat, k1: string, k2: string)
    requires KeysFrom(view, "", marker) == [k1, k2]
    requires KeysFrom(view, "", Some(Unslashed(KeyPrefix(config) + k1))) == [k1, k2]
    ensures ViewCrawl(view, config, "", 1, marker, fuel) == None
    decreases fuel
  {
    if fuel > 0 {
      CrawlRepeats(view, config, Some(Unslashed(KeyPrefix(config) + k1)), fuel - 1, k1, k2);
    }
  }

  /** The re-prefixed marker sorts after everything: the crawl stops short. */
  lemma {:induction false} CrawlSkips(view: Store, config: BucketConfig, fuel: nat, k1: string, k2: string)
    requires KeysFrom(view, "", None) == [k1, k2]
    requires KeysFrom(view, "", Some(Unslashed(KeyPrefix(config) + k1))) == []
    ensures var r := ViewCrawl(view, config, "", 1, None, fuel); r.Some? ==> |r.value| <= 1
  {
    assert [k1, k2][..1] == [k1];
    if fuel > 1 {
      var marker := Some(Unslashed(KeyPrefix(config) + k1));
      assert Visible(view, [], [], "") == [];
      assert ViewCrawl(view, config, "", 1, marker, fuel - 1) == Some([]);
      VisibleCons(view, [k1], [], "");
      assert [k1][1..] == [];
      assert SeenKeys(view, config, [k1], "") + [] == SeenKeys(view, config, [k1], "");
    }
  }

  lemma {:induction false} PrefixDefeatsPaging(config: BucketConfig)
    requires CleanPath(TrimmedPrefix(config))
    ensures !CrawlsCompletely(config)
  {
    var p := KeyPrefix(config);
    CleanPathNotEmpty(TrimmedPrefix(config));
    var x := if TrimmedPrefix(config)[0] < '~' then '~' else '!';
    SingleSegment([x]);
    SingleSegment([x, x]);
    TwoKeysClean(config, [x], [x, x]);
    OneAndTwo(x);
    TwoKeysSelected(p, [x], [x, x], None, [[x], [x, x]]);
    SecondPage(p, x);
    TwoKeysDefeat(config, [x], [x, x], if x == '~' then [[x], [x, x]] else []);
  }

  lemma OneAndTwo(x: char)
    ensures Less([x], [x, x])
  {
    assert [x][1..] == "" && [x, x][1..] == [x];
  }

  lemma {:induction false} TwoKeysDefeat(config: BucketConfig, k1: string, k2: string, second: seq<string>)
    requires PathStore(TwoKeys(KeyPrefix(config), k1, k2)) && second in {[k1, k2], []}
    requires !FolderName(k1) && !FolderName(k2) && k1 != k2
    requires KeysFrom(View(TwoKeys(KeyPrefix(config), k1, k2), KeyPrefix(config)), "", None) == [k1, k2]
    requires KeysFrom(View(TwoKeys(KeyPrefix(config), k1, k2), KeyPrefix(config)), "", Some(KeyPrefix(config) + k1)) == second
    ensures !CrawlsCompletely(config)
  {
    var p := KeyPrefix(config);
    var store := TwoKeys(p, k1, k2);
    var view := View(store, p);
    ViewHas(store, p, k1);
    ViewHas(store, p, k2);
    ConcatCancels(p, k1, k2);
    TwoShown(view, k1, k2);
    PrefixedPath(config, k1);
    assert PathIsFree(store, config, "");
    forall fuel: nat
      ensures Crawl(store, config, "", 1, None, fuel) != Some(Everything(view, "", None))
    {
      CrawlIsViewCrawl(store, config, "", 1, None, fuel);
      if second == [] {
        CrawlSkips(view, config, fuel, k1, k2);
      } else {
        CrawlRepeats(view, config, None, fuel, k1, k2);
      }
    }
    assert !CrawlCompletes(store, config, "", 1);
  }

  lemma {:induction false} SecondPage(p: string, x: char)
    requires p != "" && x == if p[0] < '~' then '~' else '!'
    ensures KeysFrom(View(TwoKeys(p, [x], [x, x]), p), "", Some(p + [x])) == if x == '~' then [[x], [x, x]] else []
  {
    OneAndTwo(x);
    assert (p + [x])[0] == p[0];
    assert [x][1..] == "" && [x, x][1..] == [x];
    if p[0] == '~' {
      assert !Less((p + [x])[1..], "");
    }
    TwoKeysSelected(p, [x], [x, x], Some(p + [x]), if x == '~' then [[x], [x, x]] else []);
  }

  /** Under a prefix that is no clean path there is nothing to list. */
  lemma {:induction false} NothingUnderUncleanPrefix(store: Store, config: BucketConfig, prefix: string)
    requires PathStore(store) && TrimmedPrefix(config) != "" && !CleanPath(TrimmedPrefix(config))
    ensures KeysFrom(View(store, KeyPrefix(config)), prefix, None) == []
  {
    var p := KeyPrefix(config);
    var view := View(store, p);
    forall k
      ensures k !in view
    {
      ViewHas(store, p, k);
      NoPathUnder(config, k);
    }
    SortedKeysUnique([], Selected(view, prefix, None));
  }

  lemma {:induction false} NoPathUnder(config: BucketConfig, k: string)
    requires TrimmedPrefix(config) != ""
    ensures IsPath(KeyPrefix(config) + k) ==> CleanPath(TrimmedPrefix(config))
  {
    if IsPath(KeyPrefix(config) + k) {
      PrefixedPath(config, k);
      CleanPathConcat(TrimmedPrefix(config), Unslashed(k));
    }
  }

  lemma {:induction false} UncleanPrefixCompletes(store: Store, config: BucketConfig, prefix: string, max: nat)
    requires PathStore(store) && max >= 1 && TrimmedPrefix(config) != "" && !CleanPath(TrimmedPrefix(config))
    ensures CrawlCompletes(store, config, prefix, max)
  {
    NothingUnderUncleanPrefix(store, config, prefix);
    CrawlIsViewCrawl(store, config, prefix, max, None, 1);
    assert Visible(View(store, KeyPrefix(config)), [], [], prefix) == [];
  }

  /**
    Paging by `NextMarker` is complete, folder markers in the way excepted, exactly when the
    trimmed prefix is not itself a clean path: it is empty, or no path lies under it.
   */
  lemma {:induction false} PagingExactlyWithoutPrefix(config: BucketConfig)
    ensures CrawlsCompletely(config) <==> !CleanPath(TrimmedPrefix(config))
    ensures TrimmedPrefix(config) == "" ==> CrawlsCompletely(config)
  {
    CleanPathNotEmpty("");
    if CleanPath(TrimmedPrefix(config)) {
      PrefixDefeatsPaging(config);
    } else {
      forall store: Store, prefix: string, max: nat | PathStore(store) && max >= 1 && PathIsFree(store, config, prefix)
        ensures CrawlCompletes(store, config, prefix, max)
      {
        if TrimmedPrefix(config) == "" {
          CrawlVisitsEverything(store, config, prefix, max, |KeysFrom(View(store, ""), prefix, None)| + 1);
        } else {
          UncleanPrefixCompletes(store, config, prefix, max);
        }
      }
    }
  }
}
