/** What an authorised listing can show: everything under the prefix it asks for. */
module ListingScope {
  import opened Text
  import opened Types
  import opened Keys
  import opened Query
  import opened Listing
  import opened PrefixView
  import opened Authorization

  /** The prefix a listing asks for: that of the list parser, which reads the last parameter. */
  function ListedPrefix(rawQuery: Option<string>): string {
    ListParamsOf(QueryPairs(rawQuery)).prefix
  }

  /** The prefix a listing is authorised for: that of the first parameter. */
  function CheckedPrefix(rawQuery: Option<string>): string {
    CheckedKey(ListBucket("", rawQuery))
  }

  /** A scope prefix covers everything under `listed`: it covers `listed`, and not just the key of that name. */
  predicate HoldsFolder(prefix: string, listed: string) {
    KeyMatchesPrefix(listed, prefix) && (prefix == "" || EndsWith(prefix, "/") || prefix != listed)
  }

  predicate ScopeHolds(s: AccessScope, listed: string) {
    s.prefixes == [] || exists p :: p in s.prefixes && HoldsFolder(p, listed)
  }

  predicate Holds(identity: Identity, bucket: string, listed: string) {
    identity.Authenticated?
    && exists s :: s in identity.allowedScopes && ScopeAllows(s, bucket, ActListBucket) && ScopeHolds(s, listed)
  }

  /** Every key that a listing of this prefix can show is one the caller may name. */
  ghost predicate ShowsOnlyCovered(identity: Identity, bucket: string, listed: string) {
    forall key: string :: listed <= key ==> KeyAuthorized(identity, bucket, ActListBucket, key)
  }

  lemma HeldKeys(prefix: string, listed: string, key: string)
    requires HoldsFolder(prefix, listed) && listed <= key
    ensures KeyMatchesPrefix(key, prefix)
  {
    assert prefix <= key by {
      assert key[..|prefix|] == listed[..|prefix|];
    }
    if |prefix| < |listed| {
      assert key[|prefix|] == listed[|prefix|];
    }
  }

  // ---- A key that only a whole folder covers.

  function Repeat(n: nat): (r: string)
    ensures |r| == n && forall i :: 0 <= i < n ==> r[i] == 'x'
  {
    if n == 0 then "" else "x" + Repeat(n - 1)
  }

  lemma DeepKey(prefix: string, listed: string, n: nat)
    requires n > |prefix|
    ensures KeyMatchesPrefix(listed + Repeat(n), prefix) ==> HoldsFolder(prefix, listed)
  {
    var key := listed + Repeat(n);
    if KeyMatchesPrefix(key, prefix) && prefix != "" {
      var at := if EndsWith(prefix, "/") then |prefix| - 1 else |prefix|;
      assert key[at] == '/' by {
        if EndsWith(prefix, "/") {
          assert key[|prefix| - 1] == prefix[|prefix| - 1];
        }
      }
      assert at < |listed| && listed[at] == '/';
      assert listed[..|prefix|] == key[..|prefix|];
    }
  }

  function Longest(prefixes: seq<string>): (n: nat)
    ensures forall p :: p in prefixes ==> |p| <= n
  {
    if prefixes == [] then 0
    else
      var rest := Longest(prefixes[1..]);
      if |prefixes[0]| > rest then |prefixes[0]| else rest
  }

  function LongestOfAll(scopes: seq<AccessScope>): (n: nat)
    ensures forall s, p :: s in scopes && p in s.prefixes ==> |p| <= n
  {
    if scopes == [] then 0
    else
      var rest := LongestOfAll(scopes[1..]);
      if Longest(scopes[0].prefixes) > rest then Longest(scopes[0].prefixes) else rest
  }

  /** A listing shows only covered keys exactly when one granted scope covers everything under its prefix. */
  lemma ShowsOnlyCoveredExactly(identity: Identity, bucket: string, listed: string)
    ensures ShowsOnlyCovered(identity, bucket, listed) <==> Holds(identity, bucket, listed)
  {
    if Holds(identity, bucket, listed) {
      forall key: string | listed <= key
        ensures KeyAuthorized(identity, bucket, ActListBucket, key)
      {
        var s :| s in identity.allowedScopes && ScopeAllows(s, bucket, ActListBucket) && ScopeHolds(s, listed);
        if s.prefixes != [] {
          var p :| p in s.prefixes && HoldsFolder(p, listed);
          HeldKeys(p, listed, key);
        }
      }
    }
    if ShowsOnlyCovered(identity, bucket, listed) && identity.Authenticated? {
      var n := LongestOfAll(identity.allowedScopes) + 1;
      var key := listed + Repeat(n);
      assert KeyAuthorized(identity, bucket, ActListBucket, key);
      var s :| s in identity.allowedScopes && ScopeAllows(s, bucket, ActListBucket) && ScopeCovers(s, key);
      if s.prefixes != [] {
        var p :| p in s.prefixes && KeyMatchesPrefix(key, p);
        DeepKey(p, listed, n);
      }
    }
    if ShowsOnlyCovered(identity, bucket, listed) {
      assert KeyAuthorized(identity, bucket, ActListBucket, listed);
    }
  }

  /**
    An authorised listing whose prefix parameters agree shows only covered keys unless the
    only thing that covers its prefix is a scope prefix of that very name without a slash.
   */
  lemma AuthorizedListingExactly(identity: Identity, bucket: string, rawQuery: Option<string>, config: BucketConfig)
    requires identity.Authenticated? && Authorize(identity, ListBucket(bucket, rawQuery), config).Ok?
    ensures ShowsOnlyCovered(identity, bucket, ListedPrefix(rawQuery)) <==> Holds(identity, bucket, ListedPrefix(rawQuery))
    ensures CheckedPrefix(rawQuery) == ListedPrefix(rawQuery) && !Holds(identity, bucket, ListedPrefix(rawQuery)) ==>
              exists s :: s in identity.allowedScopes && ScopeAllows(s, bucket, ActListBucket)
                          && ListedPrefix(rawQuery) in s.prefixes
                          && ListedPrefix(rawQuery) != "" && !EndsWith(ListedPrefix(rawQuery), "/")
  {
    ShowsOnlyCoveredExactly(identity, bucket, ListedPrefix(rawQuery));
    assert ListBucket(bucket, rawQuery).RequiredAction() == ActListBucket;
    var listed := CheckedKey(ListBucket(bucket, rawQuery));
    var s :| s in identity.allowedScopes && ScopeAllows(s, bucket, ActListBucket) && ScopeCovers(s, listed);
    if s.prefixes != [] {
      var p :| p in s.prefixes && KeyMatchesPrefix(listed, p);
      assert HoldsFolder(p, listed) || (p == listed && p != "" && !EndsWith(p, "/"));
    }
  }

  /**
    What a page holds lies under the prefix, so what holds for all keys under it holds for the
    page, and for the names its objects are shown under, with one exception: the marker of the
    very folder that is listed, which loses its slash, if the listing does not hide it.
   */
  lemma {:induction false} PageInScope(identity: Identity, bucket: string, store: Store, params: ListParams, k: string)
    requires ShowsOnlyCovered(identity, bucket, params.prefix)
    requires k in DirectPage(store, params).objects || k in DirectPage(store, params).commons
    ensures KeyAuthorized(identity, bucket, ActListBucket, k)
    ensures k != params.prefix || !EndsWith(k, "/") ==> KeyAuthorized(identity, bucket, ActListBucket, Unslashed(k))
  {
    PageMembers(store, params.prefix, params.delimiter, AfterOf(params), params.maxKeys);
    if k != params.prefix || !EndsWith(k, "/") {
      assert params.prefix <= Unslashed(k);
    }
  }

  // ---- Inputs on which an authorised listing shows more.

  function OneScope(bucket: string, prefix: string): Identity {
    Authenticated("caller", [AccessScope(bucket, [prefix], [ActListBucket])])
  }

  /** The pairs of a query that gives these prefixes. */
  function PrefixPairs(values: seq<string>): (r: Pairs)
    ensures |r| == |values|
  {
    if values == [] then [] else [("prefix", values[0])] + PrefixPairs(values[1..])
  }

  lemma {:induction false} ReadPairs(values: seq<string>, current: Option<string>)
    ensures LastValue(PrefixPairs(values), "prefix", current) == if values == [] then current else Some(values[|values| - 1])
    ensures values != [] ==> FirstValue(PrefixPairs(values), "prefix") == Some(values[0])
  {
    if values != [] {
      assert PrefixPairs(values)[1..] == PrefixPairs(values[1..]);
      ReadPairs(values[1..], Some(values[0]));
    }
  }

  lemma {:induction false} ReadListed(pairs: Pairs)
    ensures ListParamsOf(pairs).prefix == OrElse(LastValue(pairs, "prefix", None), "")
  {
  }

  lemma {:induction false} ReadPrefixes(values: seq<string>)
    requires values != []
    ensures var q := Some(Serialize(PrefixPairs(values)));
            CheckedPrefix(q) == values[0] && ListedPrefix(q) == values[|values| - 1]
  {
    ParseSerialize(PrefixPairs(values));
    ReadPairs(values, None);
    ReadListed(PrefixPairs(values));
  }

  /** A scope on `data` admits the listing of `data`, which shows what lies under `data-private`. */
  lemma BareScopeInput(bucket: string, d: string, rest: string, config: BucketConfig)
    requires d != "" && !EndsWith(d, "/") && rest != "" && rest[0] != '/'
    ensures var q := Some(Serialize(PrefixPairs([d])));
            && Authorize(OneScope(bucket, d), ListBucket(bucket, q), config).Ok?
            && ListedPrefix(q) <= d + rest
            && !KeyAuthorized(OneScope(bucket, d), bucket, ActListBucket, d + rest)
  {
    var q := Some(Serialize(PrefixPairs([d])));
    ReadPrefixes([d]);
    AuthorizedBy(bucket, d, q, config);
    assert (d + rest)[|d|] == rest[0];
  }

  /** Of two prefix parameters the first is checked and the last is listed. */
  lemma TwoPrefixesInput(bucket: string, d: string, key: string, config: BucketConfig)
    requires EndsWith(d, "/") && !(d <= key)
    ensures var q := Some(Serialize(PrefixPairs([d, ""])));
            && Authorize(OneScope(bucket, d), ListBucket(bucket, q), config).Ok?
            && ListedPrefix(q) <= key
            && !KeyAuthorized(OneScope(bucket, d), bucket, ActListBucket, key)
  {
    var q := Some(Serialize(PrefixPairs([d, ""])));
    ReadPrefixes([d, ""]);
    AuthorizedBy(bucket, d, q, config);
  }

  lemma AuthorizedBy(bucket: string, d: string, rawQuery: Option<string>, config: BucketConfig)
    requires CheckedPrefix(rawQuery) == d
    ensures Authorize(OneScope(bucket, d), ListBucket(bucket, rawQuery), config).Ok?
  {
    var s := AccessScope(bucket, [d], [ActListBucket]);
    assert OneScope(bucket, d).allowedScopes == [s];
    assert s in [s] && d in s.prefixes && KeyMatchesPrefix(d, d);
    assert ListBucket(bucket, rawQuery).RequiredAction() == ActListBucket;
    assert ScopeAllows(s, bucket, ActListBucket) && ScopeCovers(s, d);
  }
}
