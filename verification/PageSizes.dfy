/** For one page size, exactly when following `NextMarker` shows every key once, in order. */
module PageSizes {
  import opened Text
  import opened Ordering
  import opened Types
  import opened Keys
  import opened Query
  import opened Listing
  import opened PrefixView
  import opened MarkerPaging

  /**
    Every folder marker is hidden, and ends no page but the last; or pages of two begin with
    the object of the folder's name and the marker, which is then merely read again.
   */
  ghost predicate PagesFree(view: Store, keys: seq<string>, prefix: string, max: nat)
    requires max >= 1
  {
    forall j :: 0 <= j < |keys| && FolderName(keys[j]) ==>
      && Hidden(view, [], prefix, keys[j])
      && (j == |keys| - 1 || !EndsPage(j, max) || (max == 2 && j == 1 && keys[0] == Unslashed(keys[1])))
  }

  /** The keys that are not hidden. */
  function Seen(view: Store, keys: seq<string>, prefix: string): seq<string> {
    Visible(view, keys, [], prefix)
  }

  lemma {:induction false} SeenConcat(view: Store, a: seq<string>, b: seq<string>, prefix: string)
    ensures Seen(view, a + b, prefix) == Seen(view, a, prefix) + Seen(view, b, prefix)
  {
    FilterConcat(IsVisible(view, [], prefix), a, b);
  }

  lemma {:induction false} SeenCut(view: Store, keys: seq<string>, prefix: string, i: nat, j: nat)
    requires i <= j <= |keys|
    ensures Seen(view, keys[i..], prefix) == Seen(view, keys[i..j], prefix) + Seen(view, keys[j..], prefix)
  {
    assert keys[i..] == keys[i..j] + keys[j..];
    SeenConcat(view, keys[i..j], keys[j..], prefix);
  }

  // ---- Hidden folder markers.

  /** There is but one folder marker that the listing of a prefix hides. */
  lemma HiddenFolder(view: Store, prefix: string, k: string)
    requires EndsWith(k, "/") && Hidden(view, [], prefix, k)
    ensures k == TrimEnd(prefix, '/') + "/"
  {
  }

  lemma {:induction false} HiddenIsNear(view: Store, prefix: string, k: string)
    requires Hidden(view, [], prefix, k)
    ensures k == TrimEnd(prefix, '/') || k == TrimEnd(prefix, '/') + "/"
  {
    if EndsWith(k, "/") {
      HiddenFolder(view, prefix, k);
    }
  }

  lemma {:induction false} NoRootKey(store: Store, config: BucketConfig, prefix: string)
    requires PathStore(store) && KeyPrefix(config) == ""
    ensures forall i :: 0 <= i < |KeysFrom(View(store, ""), prefix, None)| ==>
              var k := KeysFrom(View(store, ""), prefix, None)[i];
              IsPath(k) && k in View(store, "") && prefix <= k && (FolderName(k) <==> EndsWith(k, "/"))
  {
    var keys := KeysFrom(View(store, ""), prefix, None);
    KeysInView(View(store, ""), prefix, None);
    forall i | 0 <= i < |keys|
      ensures IsPath(keys[i]) && keys[i] != ""
    {
      ViewHas(store, "", keys[i]);
      assert "" + keys[i] == keys[i];
      CleanPathNotEmpty(Unslashed(keys[i]));
    }
  }

  // ---- Where a page begins.

  /** The keys after a marker are a tail of all keys. */
  lemma {:induction false} Position(view: Store, prefix: string, x: string, n: nat) returns (i: nat)
    requires n <= |KeysFrom(view, prefix, None)|
    requires forall t :: n <= t < |KeysFrom(view, prefix, None)| ==> Less(x, KeysFrom(view, prefix, None)[t])
    ensures i <= n && KeysFrom(view, prefix, Some(x)) == KeysFrom(view, prefix, None)[i..]
    ensures i > 0 ==> LessEq(KeysFrom(view, prefix, None)[i - 1], x)
    ensures forall t :: i <= t < |KeysFrom(view, prefix, None)| ==> Less(x, KeysFrom(view, prefix, None)[t])
    decreases n
  {
    var keys := KeysFrom(view, prefix, None);
    KeysInView(view, prefix, None);
    i := n;
    if n == 0 {
      KeysInView(view, prefix, Some(x));
      forall k
        ensures k in keys <==> k in Selected(view, prefix, Some(x))
      {
        if k in keys {
          var t :| 0 <= t < |keys| && keys[t] == k;
          assert Less(x, keys[t]);
        }
      }
      SortedKeysUnique(keys, Selected(view, prefix, Some(x)));
    } else {
      LessTotal(x, keys[n - 1]);
      if Less(x, keys[n - 1]) {
        i := Position(view, prefix, x, n - 1);
      } else {
        SameTail(view, prefix, x, n);
      }
    }
  }

  lemma NotAfter(keys: seq<string>, t: nat, n: nat)
    requires StrictlySorted(keys) && t < |keys| && 0 < n <= |keys|
    ensures Less(keys[n - 1], keys[t]) ==> t >= n
  {
    LessTotal(keys[n - 1], keys[t]);
  }

  lemma {:induction false} SameTail(view: Store, prefix: string, x: string, n: nat)
    requires 0 < n <= |KeysFrom(view, prefix, None)| && LessEq(KeysFrom(view, prefix, None)[n - 1], x)
    requires forall t :: n <= t < |KeysFrom(view, prefix, None)| ==> Less(x, KeysFrom(view, prefix, None)[t])
    ensures KeysFrom(view, prefix, Some(x)) == KeysFrom(view, prefix, None)[n..]
  {
    var keys := KeysFrom(view, prefix, None);
    var last := keys[n - 1];
    KeysInView(view, prefix, None);
    forall k | k in view && prefix <= k
      ensures Less(x, k) <==> Less(last, k)
    {
      assert k in keys;
      var t :| 0 <= t < |keys| && keys[t] == k;
      if Less(x, k) && last != x {
        LessTransitive(last, x, k);
      }
      NotAfter(keys, t, n);
    }
    assert Selected(view, prefix, Some(x)) == Selected(view, prefix, Some(last));
    KeysAfter(view, prefix, None, n);
  }

  /** The page after one that ends with the key at `t` begins no later than behind it, and there for an object. */
  lemma {:induction false} NextBegins(view: Store, prefix: string, t: nat) returns (i: nat)
    requires "" !in view && t < |KeysFrom(view, prefix, None)|
    ensures var keys := KeysFrom(view, prefix, None);
            && i <= t + 1 && KeysFrom(view, prefix, Some(Unslashed(keys[t]))) == keys[i..]
            && (i > 0 ==> LessEq(keys[i - 1], Unslashed(keys[t])))
            && (forall n :: i <= n < |keys| ==> Less(Unslashed(keys[t]), keys[n]))
            && (!FolderName(keys[t]) ==> i == t + 1)
            && (FolderName(keys[t]) ==> i <= t)
  {
    var keys := KeysFrom(view, prefix, None);
    var x := Unslashed(keys[t]);
    KeysInView(view, prefix, None);
    UnslashedLess(keys[t]);
    forall n | t < n < |keys|
      ensures Less(x, keys[n])
    {
      if x != keys[t] {
        LessTransitive(x, keys[t], keys[n]);
      }
    }
    i := Position(view, prefix, x, t + 1);
    if FolderName(keys[t]) {
      LessTotal(x, keys[t]);
    } else {
      LessTotal(keys[t], keys[t]);
      assert !(i <= t);
    }
  }

  // ---- What a crawl shows at least.

  /** A page shows at least what the next one leaves of the keys. */
  ghost predicate StepShows(fetch: Option<string> -> Fetched, least: Option<string> -> nat, m: Option<string>) {
    match fetch(m)
    case Stuck => true
    case Last(contents) => |contents| >= least(m)
    case More(contents, next) => |contents| + least(Some(next)) >= least(m)
  }

  /** A page that shows more than that, or leads to one that does. */
  ghost predicate StepRepeats(fetch: Option<string> -> Fetched, least: Option<string> -> nat, repeats: Option<string> -> bool,
                              m: Option<string>)
  {
    match fetch(m)
    case Stuck => true
    case Last(_) => false
    case More(contents, next) => |contents| + least(Some(next)) > least(m) || repeats(Some(next))
  }

  /** A crawl that ends has shown each key that was left, at least once. */
  lemma {:induction false} ShowsAllLeft(fetch: Option<string> -> Fetched, least: Option<string> -> nat, marker: Option<string>, fuel: nat)
    requires forall m :: StepShows(fetch, least, m)
    ensures CrawlWith(fetch, marker, fuel).Some? ==> |CrawlWith(fetch, marker, fuel).value| >= least(marker)
    decreases fuel
  {
    assert StepShows(fetch, least, marker);
    if fuel > 0 && fetch(marker).More? {
      ShowsAllLeft(fetch, least, Some(fetch(marker).marker), fuel - 1);
    }
  }

  lemma {:induction false} ShowsTwice(fetch: Option<string> -> Fetched, least: Option<string> -> nat, repeats: Option<string> -> bool,
                                      marker: Option<string>, fuel: nat)
    requires forall m :: StepShows(fetch, least, m)
    requires forall m :: repeats(m) ==> StepRepeats(fetch, least, repeats, m)
    requires repeats(marker)
    ensures CrawlWith(fetch, marker, fuel).Some? ==> |CrawlWith(fetch, marker, fuel).value| > least(marker)
    decreases fuel
  {
    assert StepShows(fetch, least, marker) && StepRepeats(fetch, least, repeats, marker);
    if fuel > 0 && fetch(marker).More? {
      var next := Some(fetch(marker).marker);
      ShowsAllLeft(fetch, least, next, fuel - 1);
      if repeats(next) {
        ShowsTwice(fetch, least, repeats, next, fuel - 1);
      }
    }
  }

  /** How many visible keys are left after a marker. */
  ghost function Left(view: Store, prefix: string): Option<string> -> nat {
    m => |Seen(view, KeysFrom(view, prefix, m), prefix)|
  }

  lemma {:induction false} StartOf(view: Store, prefix: string, m: Option<string>) returns (i: nat)
    ensures i <= |KeysFrom(view, prefix, None)| && KeysFrom(view, prefix, m) == KeysFrom(view, prefix, None)[i..]
  {
    if m.None? {
      i := 0;
    } else {
      i := Position(view, prefix, m.value, |KeysFrom(view, prefix, None)|);
    }
  }

  lemma {:induction false} PageShown(view: Store, config: BucketConfig, prefix: string, max: nat, m: Option<string>, keys: seq<string>,
                                     i: nat)
    requires max >= 1 && KeyPrefix(config) == "" && i <= |keys| && KeysFrom(view, prefix, m) == keys[i..]
    ensures var r := ViewPage(view, config, prefix, max, m);
            if |keys| - i <= max then r.Last? && |r.contents| == |Seen(view, keys[i..], prefix)|
            else r.More? && |r.contents| == |Seen(view, keys[i..i + max], prefix)| && r.marker == Unslashed(keys[i + max - 1])
  {
    if |keys| - i > max {
      assert keys[i..][max - 1] == keys[i + max - 1] && keys[i..][..max] == keys[i..i + max];
      assert "" + keys[i + max - 1] == keys[i + max - 1];
    }
  }

  /** The page after one that ends with the key at `t`. */
  lemma {:induction false} NextLeft(view: Store, prefix: string, t: nat, keys: seq<string>) returns (i: nat)
    requires "" !in view && keys == KeysFrom(view, prefix, None) && t < |keys|
    ensures i <= t + 1 && (!FolderName(keys[t]) ==> i == t + 1)
    ensures KeysFrom(view, prefix, Some(Unslashed(keys[t]))) == keys[i..]
  {
    i := NextBegins(view, prefix, t);
  }

  lemma {:induction false} TailCount(view: Store, keys: seq<string>, prefix: string, i: nat, e: nat, next: nat)
    requires i <= e <= |keys| && next <= e
    ensures |Seen(view, keys[i..e], prefix)| + |Seen(view, keys[next..], prefix)|
         == |Seen(view, keys[i..], prefix)| + |Seen(view, keys[next..e], prefix)|
  {
    SeenCut(view, keys, prefix, i, e);
    SeenCut(view, keys, prefix, next, e);
  }

  lemma {:induction false} CountAt(view: Store, prefix: string, max: nat, keys: seq<string>, i: nat)
    requires "" !in view && max >= 1 && i + max < |keys| && keys == KeysFrom(view, prefix, None)
    ensures |Seen(view, keys[i..i + max], prefix)| + Left(view, prefix)(Some(Unslashed(keys[i + max - 1])))
         >= |Seen(view, keys[i..], prefix)|
  {
    var next := NextLeft(view, prefix, i + max - 1, keys);
    TailCount(view, keys, prefix, i, i + max, next);
  }

  lemma {:induction false} EveryStepShows(view: Store, config: BucketConfig, prefix: string, max: nat, m: Option<string>)
    requires "" !in view && KeyPrefix(config) == "" && max >= 1
    ensures StepShows(PageFetch(view, config, prefix, max), Left(view, prefix), m)
  {
    var keys := KeysFrom(view, prefix, None);
    var i := StartOf(view, prefix, m);
    if |keys| - i > max {
      CountAt(view, prefix, max, keys, i);
    }
    StepFrom(view, config, prefix, max, m, keys, i, Left(view, prefix));
  }

  lemma {:induction false} StepFrom(view: Store, config: BucketConfig, prefix: string, max: nat, m: Option<string>, keys: seq<string>,
                                    i: nat, least: Option<string> -> nat)
    requires max >= 1 && KeyPrefix(config) == "" && i <= |keys| && KeysFrom(view, prefix, m) == keys[i..]
    requires least(m) == |Seen(view, keys[i..], prefix)|
    requires |keys| - i > max ==>
               |Seen(view, keys[i..i + max], prefix)| + least(Some(Unslashed(keys[i + max - 1]))) >= least(m)
    ensures StepShows(PageFetch(view, config, prefix, max), least, m)
  {
    PageShown(view, config, prefix, max, m, keys, i);
  }

  /** The marker leaves a tail of the keys whose pages end, sooner or later, with the `j`th. */
  ghost predicate LeadsTo(view: Store, prefix: string, max: nat, j: nat, m: Option<string>)
    requires max >= 1
  {
    var keys, rest := KeysFrom(view, prefix, None), KeysFrom(view, prefix, m);
    |keys| - j <= |rest| <= |keys| && rest == keys[|keys| - |rest|..] && EndsPage(j - (|keys| - |rest|), max)
  }

  /** A page that ends with a folder marker leads back to a visible key before it. */
  ghost predicate ReadsAgain(view: Store, prefix: string, j: nat, s: nat) {
    var keys := KeysFrom(view, prefix, None);
    && s <= j < |keys| - 1 && KeysFrom(view, prefix, Some(Unslashed(keys[j]))) == keys[s..]
    && Seen(view, keys[s..j + 1], prefix) != []
    && (forall t :: 0 <= t < |keys| && t != j ==> !FolderName(keys[t]))
  }

  lemma {:induction false} StepLeads(view: Store, prefix: string, max: nat, j: nat, keys: seq<string>, next: nat)
    requires "" !in view && max >= 1 && 0 < next <= j < |keys| && keys == KeysFrom(view, prefix, None)
    requires !FolderName(keys[next - 1]) && EndsPage(j - next, max)
    ensures LeadsTo(view, prefix, max, j, Some(Unslashed(keys[next - 1])))
  {
    var i := NextLeft(view, prefix, next - 1, keys);
    assert |keys[next..]| == |keys| - next;
  }

  lemma {:induction false} AgainCount(view: Store, prefix: string, j: nat, s: nat, i: nat, keys: seq<string>)
    requires i <= j < |keys| && keys == KeysFrom(view, prefix, None) && ReadsAgain(view, prefix, j, s)
    ensures |Seen(view, keys[i..j + 1], prefix)| + Left(view, prefix)(Some(Unslashed(keys[j]))) > |Seen(view, keys[i..], prefix)|
  {
    TailCount(view, keys, prefix, i, j + 1, s);
  }

  lemma {:induction false} RepeatAt(view: Store, prefix: string, max: nat, j: nat, s: nat, keys: seq<string>, i: nat)
    requires "" !in view && max >= 1 && keys == KeysFrom(view, prefix, None)
    requires ReadsAgain(view, prefix, j, s) && i <= j && EndsPage(j - i, max)
    ensures i + max <= j + 1 < |keys|
    ensures var next := Some(Unslashed(keys[i + max - 1]));
            || LeadsTo(view, prefix, max, j, next)
            || |Seen(view, keys[i..i + max], prefix)| + Left(view, prefix)(next) > |Seen(view, keys[i..], prefix)|
  {
    if i + max - 1 == j {
      AgainCount(view, prefix, j, s, i, keys);
    } else {
      StepLeads(view, prefix, max, j, keys, i + max);
    }
  }

  lemma {:induction false} EveryStepRepeats(view: Store, config: BucketConfig, prefix: string, max: nat, j: nat, s: nat, m: Option<string>)
    requires "" !in view && KeyPrefix(config) == "" && max >= 1
    requires ReadsAgain(view, prefix, j, s) && LeadsTo(view, prefix, max, j, m)
    ensures StepRepeats(PageFetch(view, config, prefix, max), Left(view, prefix), Leading(view, prefix, max, j), m)
  {
    var keys := KeysFrom(view, prefix, None);
    var i := |keys| - |KeysFrom(view, prefix, m)|;
    RepeatAt(view, prefix, max, j, s, keys, i);
    RepeatFrom(view, config, prefix, max, m, keys, i, Left(view, prefix), Leading(view, prefix, max, j));
  }

  ghost function Leading(view: Store, prefix: string, max: nat, j: nat): Option<string> -> bool
    requires max >= 1
  {
    m => LeadsTo(view, prefix, max, j, m)
  }

  lemma {:induction false} RepeatFrom(view: Store, config: BucketConfig, prefix: string, max: nat, m: Option<string>, keys: seq<string>,
                                      i: nat, least: Option<string> -> nat, repeats: Option<string> -> bool)
    requires max >= 1 && KeyPrefix(config) == "" && i + max < |keys| && KeysFrom(view, prefix, m) == keys[i..]
    requires least(m) == |Seen(view, keys[i..], prefix)|
    requires var next := Some(Unslashed(keys[i + max - 1]));
             repeats(next) || |Seen(view, keys[i..i + max], prefix)| + least(next) > least(m)
    ensures StepRepeats(PageFetch(view, config, prefix, max), least, repeats, m)
  {
    PageShown(view, config, prefix, max, m, keys, i);
  }

  /** A page that ends with a folder marker and leads back to a visible key spoils the crawl. */
  lemma {:induction false} ReadingAgainDefeats(store: Store, config: BucketConfig, prefix: string, max: nat, j: nat, s: nat)
    requires PathStore(store) && KeyPrefix(config) == "" && max >= 1 && EndsPage(j, max) && "" !in View(store, "")
    requires ReadsAgain(View(store, ""), prefix, j, s)
    ensures !CrawlCompletes(store, config, prefix, max)
  {
    var view := View(store, "");
    forall fuel: nat
      ensures Crawl(store, config, prefix, max, None, fuel) != Some(Everything(view, prefix, None))
    {
      CrawlIsViewCrawl(store, config, prefix, max, None, fuel);
      ReadingAgainShows(view, config, prefix, max, j, s, fuel);
    }
  }

  lemma {:induction false} ReadingAgainShows(view: Store, config: BucketConfig, prefix: string, max: nat, j: nat, s: nat, fuel: nat)
    requires "" !in view && KeyPrefix(config) == "" && max >= 1 && EndsPage(j, max) && ReadsAgain(view, prefix, j, s)
    ensures ViewCrawl(view, config, prefix, max, None, fuel) != Some(Everything(view, prefix, None))
  {
    var fetch, left, leading := PageFetch(view, config, prefix, max), Left(view, prefix), Leading(view, prefix, max, j);
    var keys := KeysFrom(view, prefix, None);
    forall m
      ensures StepShows(fetch, left, m)
      ensures leading(m) ==> StepRepeats(fetch, left, leading, m)
    {
      EveryStepShows(view, config, prefix, max, m);
      if leading(m) {
        EveryStepRepeats(view, config, prefix, max, j, s, m);
      }
    }
    assert keys[0..] == keys && LeadsTo(view, prefix, max, j, None);
    ShowsTwice(fetch, left, leading, None, fuel);
    assert |Everything(view, prefix, None)| == left(None);
  }

  // ---- Visible folder markers.

  predicate NoneEndInSlash(contents: seq<Content>) {
    forall i :: 0 <= i < |contents| ==> !EndsWith(contents[i].key, "/")
  }

  lemma {:induction false} CrawlKeeps(fetch: Option<string> -> Fetched, marker: Option<string>, fuel: nat)
    requires forall m :: !fetch(m).Stuck? ==> NoneEndInSlash(fetch(m).contents)
    ensures CrawlWith(fetch, marker, fuel).Some? ==> NoneEndInSlash(CrawlWith(fetch, marker, fuel).value)
    decreases fuel
  {
    if fuel > 0 && fetch(marker).More? {
      CrawlKeeps(fetch, Some(fetch(marker).marker), fuel - 1);
    }
  }

  /** No key is shown with a slash at its end. */
  lemma {:induction false} SeenWithoutSlash(store: Store, config: BucketConfig, prefix: string, keys: seq<string>)
    requires PathStore(store) && KeyPrefix(config) == "" && forall k :: k in keys ==> k in View(store, "")
    ensures NoneEndInSlash(SeenKeys(View(store, ""), config, keys, prefix))
  {
    var view := View(store, "");
    var visible := Visible(view, keys, [], prefix);
    VisibleMembers(view, keys, [], prefix);
    forall i | 0 <= i < |visible|
      ensures !EndsWith(SeenKey(config, visible[i]), "/")
    {
      assert visible[i] in visible;
      ViewHas(store, "", visible[i]);
      assert "" + visible[i] == visible[i];
      PrefixedPath(config, visible[i]);
      CleanPathNotEmpty(Unslashed(visible[i]));
    }
  }

  lemma {:induction false} CrawlWithoutSlash(store: Store, config: BucketConfig, prefix: string, max: nat, fuel: nat)
    requires PathStore(store) && KeyPrefix(config) == "" && max >= 1
    ensures var r := ViewCrawl(View(store, ""), config, prefix, max, None, fuel); r.Some? ==> NoneEndInSlash(r.value)
  {
    var view := View(store, "");
    var fetch := PageFetch(view, config, prefix, max);
    forall m
      ensures !fetch(m).Stuck? ==> NoneEndInSlash(fetch(m).contents)
    {
      var keys := KeysFrom(view, prefix, m);
      KeysInView(view, prefix, m);
      SeenWithoutSlash(store, config, prefix, keys);
      if |keys| > max {
        SeenWithoutSlash(store, config, prefix, keys[..max]);
      }
    }
    CrawlKeeps(fetch, None, fuel);
  }

  lemma {:induction false} VisibleFolderDefeats(store: Store, config: BucketConfig, prefix: string, max: nat, j: nat)
    requires PathStore(store) && KeyPrefix(config) == "" && max >= 1
    requires var view := View(store, ""); var keys := KeysFrom(view, prefix, None);
             j < |keys| && FolderName(keys[j]) && !Hidden(view, [], prefix, keys[j])
    ensures !CrawlCompletes(store, config, prefix, max)
  {
    var view := View(store, "");
    var keys := KeysFrom(view, prefix, None);
    NoRootKey(store, config, prefix);
    var visible := Visible(view, keys, [], prefix);
    VisibleMembers(view, keys, [], prefix);
    assert keys[j] in visible;
    var n :| 0 <= n < |visible| && visible[n] == keys[j];
    assert Everything(view, prefix, None)[n].key == OWN_NAME(keys[j]);
    forall fuel: nat
      ensures Crawl(store, config, prefix, max, None, fuel) != Some(Everything(view, prefix, None))
    {
      CrawlIsViewCrawl(store, config, prefix, max, None, fuel);
      CrawlWithoutSlash(store, config, prefix, max, fuel);
    }
  }

  // ---- The exception: the object of the folder's name, and the marker.

  /** The key read again right before the marker is the prefix itself, and the first key. */
  lemma {:induction false} OnlyTheName(view: Store, prefix: string, j: nat)
    requires var keys := KeysFrom(view, prefix, None);
             && 0 < j < |keys| && EndsWith(keys[j], "/") && Hidden(view, [], prefix, keys[j])
             && LessEq(keys[j - 1], Unslashed(keys[j]))
    ensures var keys := KeysFrom(view, prefix, None); j == 1 && keys[0] == Unslashed(keys[1])
  {
    var keys := KeysFrom(view, prefix, None);
    KeysInView(view, prefix, None);
    var u := Unslashed(keys[j]);
    assert keys[j] == u + "/";
    PrefixOfName(prefix, u, keys[j - 1]);
    if j > 1 {
      assert prefix <= keys[0] && Less(keys[0], keys[j - 1]);
      BelowItsPrefix(prefix, keys[0]);
    }
  }

  lemma BelowItsPrefix(prefix: string, k: string)
    requires prefix <= k
    ensures !Less(k, prefix)
  {
    LessTotal(prefix, k);
    if prefix != k {
      PrefixIsLess(prefix, k);
    }
  }

  lemma {:induction false} PrefixOfName(prefix: string, u: string, k: string)
    requires prefix <= u + "/" && prefix <= k && u == TrimEnd(prefix, '/') && LessEq(k, u)
    ensures k == u == prefix
  {
    BelowItsPrefix(prefix, k);
    if prefix != u {
      assert prefix == u + "/";
      PrefixIsLess(u, u + "/");
      if k != u {
        LessTransitive(k, u, prefix);
      }
    } else {
      LessTotal(k, u);
    }
  }

  /** A marker at the end of a page, neither the last key nor excepted, spoils the crawl. */
  lemma {:induction false} MarkerDefeats(store: Store, config: BucketConfig, prefix: string, max: nat, j: nat)
    requires PathStore(store) && KeyPrefix(config) == "" && max >= 1
    requires var view := View(store, ""); var keys := KeysFrom(view, prefix, None);
             && j + 1 < |keys| && FolderName(keys[j]) && Hidden(view, [], prefix, keys[j]) && EndsPage(j, max)
             && (forall t :: 0 <= t < |keys| && FolderName(keys[t]) ==> Hidden(view, [], prefix, keys[t]))
             && !(max == 2 && j == 1 && keys[0] == Unslashed(keys[1]))
    ensures !CrawlCompletes(store, config, prefix, max)
  {
    NoEmptyKey(store);
    if max == 1 {
      StallDefeats(store, config, prefix, j);
    } else {
      var s := LeadsBack(View(store, ""), prefix, max, j, KeysFrom(View(store, ""), prefix, None));
      ReadingAgainDefeats(store, config, prefix, max, j, s);
    }
  }

  lemma {:induction false} LeadsBack(view: Store, prefix: string, max: nat, j: nat, keys: seq<string>) returns (s: nat)
    requires "" !in view && max >= 2 && keys == KeysFrom(view, prefix, None)
    requires j + 1 < |keys| && FolderName(keys[j]) && Hidden(view, [], prefix, keys[j]) && EndsPage(j, max)
    requires forall t :: 0 <= t < |keys| && FolderName(keys[t]) ==> Hidden(view, [], prefix, keys[t])
    requires !(max == 2 && j == 1 && keys[0] == Unslashed(keys[1]))
    ensures ReadsAgain(view, prefix, j, s)
  {
    KeysInView(view, prefix, None);
    s := NextBegins(view, prefix, j);
    if s == j {
      OnlyTheName(view, prefix, j);
      assert false;
    }
    ReadAgainIsVisible(view, prefix, keys, j, s);
  }

  lemma {:induction false} NoEmptyKey(store: Store)
    requires PathStore(store)
    ensures "" !in View(store, "")
  {
    ViewHas(store, "", "");
    CleanPathNotEmpty("");
    assert "" + "" == "";
  }

  lemma {:induction false} ReadAgainIsVisible(view: Store, prefix: string, keys: seq<string>, j: nat, s: nat)
    requires keys == KeysFrom(view, prefix, None) && StrictlySorted(keys) && s < j < |keys| - 1 && "" !in view
    requires forall t :: 0 <= t < |keys| ==> keys[t] in view
    requires EndsWith(keys[j], "/") && Hidden(view, [], prefix, keys[j])
    requires forall t :: 0 <= t < |keys| && FolderName(keys[t]) ==> Hidden(view, [], prefix, keys[t])
    requires KeysFrom(view, prefix, Some(Unslashed(keys[j]))) == keys[s..] && Less(Unslashed(keys[j]), keys[s])
    ensures ReadsAgain(view, prefix, j, s)
  {
    NotHidden(view, prefix, keys, j, s);
    SeenHas(view, prefix, keys, s, j + 1);
    forall t | 0 <= t < |keys| && FolderName(keys[t])
      ensures t == j
    {
      HiddenFolder(view, prefix, keys[j]);
      HiddenFolder(view, prefix, keys[t]);
      OneIndex(keys, t, j);
    }
  }

  lemma {:induction false} SeenHas(view: Store, prefix: string, keys: seq<string>, i: nat, j: nat)
    requires i < j <= |keys| && keys[i] in view && !Hidden(view, [], prefix, keys[i])
    ensures Seen(view, keys[i..j], prefix) != []
  {
    VisibleMembers(view, keys[i..j], [], prefix);
    assert keys[i..j][0] == keys[i];
    assert keys[i] in Seen(view, keys[i..j], prefix);
  }

  /** Between the folder's name and its marker nothing is hidden. */
  lemma {:induction false} NotHidden(view: Store, prefix: string, keys: seq<string>, j: nat, s: nat)
    requires StrictlySorted(keys) && s < j < |keys| && Less(Unslashed(keys[j]), keys[s])
    requires EndsWith(keys[j], "/") && Hidden(view, [], prefix, keys[j])
    ensures !Hidden(view, [], prefix, keys[s])
  {
    HiddenFolder(view, prefix, keys[j]);
    LessTotal(Unslashed(keys[j]), keys[s]);
    LessTotal(keys[s], keys[j]);
    if Hidden(view, [], prefix, keys[s]) {
      HiddenIsNear(view, prefix, keys[s]);
    }
  }

  lemma OneIndex(keys: seq<string>, t: nat, j: nat)
    requires StrictlySorted(keys) && t < |keys| && j < |keys| && keys[t] == keys[j]
    ensures t == j
  {
    LessTotal(keys[t], keys[j]);
  }

  /** In the excepted case the crawl is complete: the second page begins with the marker. */
  lemma {:induction false} ExceptedCompletes(store: Store, config: BucketConfig, prefix: string)
    requires PathStore(store) && KeyPrefix(config) == ""
    requires var view := View(store, ""); var keys := KeysFrom(view, prefix, None);
             && |keys| > 2 && FolderName(keys[1]) && keys[0] == Unslashed(keys[1])
             && (forall t :: 0 <= t < |keys| && FolderName(keys[t]) ==> Hidden(view, [], prefix, keys[t]))
    ensures CrawlCompletes(store, config, prefix, 2)
  {
    var view := View(store, "");
    var keys := KeysFrom(view, prefix, None);
    NoRootKey(store, config, prefix);
    KeysInView(view, prefix, None);
    KeysAfter(view, prefix, None, 1);
    TailIsOff(view, prefix, keys);
    ViewCrawlVisitsEverything(store, config, prefix, 2, Some(keys[0]), |keys|);
    FirstOfTwo(store, config, prefix, keys);
    TwoSteps(view, config, prefix, |keys| + 1, keys[0]);
    CrawlIsViewCrawl(store, config, prefix, 2, None, |keys| + 1);
  }

  lemma {:induction false} TwoSteps(view: Store, config: BucketConfig, prefix: string, fuel: nat, marker: string)
    requires fuel > 0 && ViewCrawl(view, config, prefix, 2, Some(marker), fuel - 1) == Some(Everything(view, prefix, Some(marker)))
    requires var page := ViewPage(view, config, prefix, 2, None);
             && page.More? && page.marker == marker
             && Everything(view, prefix, None) == page.contents + Everything(view, prefix, Some(marker))
    ensures ViewCrawl(view, config, prefix, 2, None, fuel) == Some(Everything(view, prefix, None))
  {
    CrawlStep(PageFetch(view, config, prefix, 2), None, fuel);
  }

  lemma {:induction false} TailIsOff(view: Store, prefix: string, keys: seq<string>)
    requires |keys| > 2 && StrictlySorted(keys) && EndsWith(keys[1], "/")
    requires forall t :: 0 <= t < |keys| && FolderName(keys[t]) ==> Hidden(view, [], prefix, keys[t]) && EndsWith(keys[t], "/")
    ensures OffPageEnds(view, keys[1..], prefix, 2)
  {
    var rest := keys[1..];
    forall i | 0 <= i < |rest| && FolderName(rest[i])
      ensures Hidden(view, [], prefix, rest[i]) && !EndsPage(i, 2)
    {
      assert rest[i] == keys[i + 1];
      HiddenFolder(view, prefix, keys[i + 1]);
      HiddenFolder(view, prefix, keys[1]);
      OneIndex(keys, i + 1, 1);
    }
  }

  /** The first page shows what comes before the marker, which hides itself. */
  lemma {:induction false} FirstOfTwo(store: Store, config: BucketConfig, prefix: string, keys: seq<string>)
    requires PathStore(store) && KeyPrefix(config) == "" && keys == KeysFrom(View(store, ""), prefix, None)
    requires |keys| > 2 && (forall t :: 0 <= t < |keys| ==> keys[t] in View(store, ""))
    requires keys[0] == Unslashed(keys[1]) && FolderName(keys[1])
    requires forall t :: 0 <= t < |keys| && FolderName(keys[t]) ==> Hidden(View(store, ""), [], prefix, keys[t])
    requires KeysFrom(View(store, ""), prefix, Some(keys[0])) == keys[1..]
    ensures var view := View(store, "");
            var page := ViewPage(view, config, prefix, 2, None);
            && page.More? && page.marker == keys[0]
            && Everything(view, prefix, None) == page.contents + Everything(view, prefix, Some(keys[0]))
  {
    var view := View(store, "");
    SeenAsThemselves(store, config, keys[..2], prefix);
    assert "" + keys[1] == keys[1];
    HiddenSecond(view, prefix, keys);
    ShownConcat(view, keys[..1], keys[1..], prefix);
    assert keys == keys[..1] + keys[1..];
  }

  lemma {:induction false} HiddenSecond(view: Store, prefix: string, keys: seq<string>)
    requires |keys| > 2 && Hidden(view, [], prefix, keys[1])
    ensures ShownContents(view, keys[..2], [], prefix, false) == ShownContents(view, keys[..1], [], prefix, false)
  {
    assert keys[..2] == keys[..1] + [keys[1]];
    SeenConcat(view, keys[..1], [keys[1]], prefix);
    assert [keys[1]][1..] == [];
    VisibleCons(view, [keys[1]], [], prefix);
    assert Seen(view, [], prefix) == [];
  }

  // ---- The theorem.

  /**
    Without a backend prefix, pages of `max` keys show every key once and in order exactly
    when every folder marker among the keys is hidden and ends no page but the last, or ends
    a page of two after the object of its own name.
   */
  lemma {:induction false} PagingExactlyFor(store: Store, config: BucketConfig, prefix: string, max: nat)
    requires PathStore(store) && KeyPrefix(config) == "" && max >= 1
    ensures CrawlCompletes(store, config, prefix, max)
            <==> PagesFree(View(store, ""), KeysFrom(View(store, ""), prefix, None), prefix, max)
  {
    var keys := KeysFrom(View(store, ""), prefix, None);
    if PagesFree(View(store, ""), keys, prefix, max) {
      if OffPageEnds(View(store, ""), keys, prefix, max) {
        CrawlVisitsEverything(store, config, prefix, max, |keys| + 1);
      } else {
        Excepted(View(store, ""), keys, prefix, max);
        ExceptedCompletes(store, config, prefix);
      }
    } else {
      NotFree(store, config, prefix, max);
    }
  }

  lemma {:induction false} Excepted(view: Store, keys: seq<string>, prefix: string, max: nat)
    requires max >= 1 && PagesFree(view, keys, prefix, max) && !OffPageEnds(view, keys, prefix, max)
    ensures max == 2 && |keys| > 2 && FolderName(keys[1]) && keys[0] == Unslashed(keys[1])
    ensures forall t :: 0 <= t < |keys| && FolderName(keys[t]) ==> Hidden(view, [], prefix, keys[t])
  {
  }

  lemma {:induction false} NotFree(store: Store, config: BucketConfig, prefix: string, max: nat)
    requires PathStore(store) && KeyPrefix(config) == "" && max >= 1
    requires !PagesFree(View(store, ""), KeysFrom(View(store, ""), prefix, None), prefix, max)
    ensures !CrawlCompletes(store, config, prefix, max)
  {
    var view := View(store, "");
    var keys := KeysFrom(view, prefix, None);
    if j: nat :| j < |keys| && FolderName(keys[j]) && !Hidden(view, [], prefix, keys[j]) {
      VisibleFolderDefeats(store, config, prefix, max, j);
    } else {
      var j :| 0 <= j < |keys| && FolderName(keys[j])
               && !(j == |keys| - 1 || !EndsPage(j, max) || (max == 2 && j == 1 && keys[0] == Unslashed(keys[1])));
      MarkerDefeats(store, config, prefix, max, j);
    }
  }

  /** For every page size at once: a folder marker can only be the last key, and a hidden one. */
  lemma {:induction false} PagingExactly(store: Store, config: BucketConfig, prefix: string)
    requires PathStore(store) && KeyPrefix(config) == ""
    ensures (forall max: nat :: max >= 1 ==> CrawlCompletes(store, config, prefix, max))
            <==> FoldersLast(View(store, ""), KeysFrom(View(store, ""), prefix, None), prefix)
  {
    forall max: nat | max >= 1
      ensures CrawlCompletes(store, config, prefix, max)
              <==> PagesFree(View(store, ""), KeysFrom(View(store, ""), prefix, None), prefix, max)
    {
      PagingExactlyFor(store, config, prefix, max);
    }
    FreeForAll(View(store, ""), KeysFrom(View(store, ""), prefix, None), prefix);
  }

  lemma {:induction false} FreeForAll(view: Store, keys: seq<string>, prefix: string)
    ensures (forall max: nat :: max >= 1 ==> PagesFree(view, keys, prefix, max)) <==> FoldersLast(view, keys, prefix)
  {
    AlwaysAtEnd(|keys|);
    assert PagesFree(view, keys, prefix, 1) <==> FoldersLast(view, keys, prefix);
    forall max: nat | max >= 1 && FoldersLast(view, keys, prefix)
      ensures PagesFree(view, keys, prefix, max)
    {
    }
  }

  lemma {:induction false} AlwaysAtEnd(n: nat)
    ensures forall j: nat :: j < n ==> EndsPage(j, 1)
  {
    if n > 0 {
      AlwaysAtEnd(n - 1);
    }
  }
}
