/** Hierarchical names: leading path segments make an internal bucket, and listings show the hierarchy again. */
module PathMapping {
  import opened Text
  import opened Percent
  import Utf8
  import opened Types
  import opened Listing

  datatype MappedPath = MappedPath(
    bucket: string,
    key: Option<string>,
    displayBucket: string,
    keyPrefix: string,
    segments: seq<string>)

  datatype RewriteResult = RewriteResult(
    path: string,
    query: Option<string>,
    signingPath: string,
    signingQuery: Option<string>)

  /** `splitn`: at most `n` parts, the last keeping its separators. */
  function SplitN(s: string, sep: string, n: nat): (parts: seq<string>)
    requires sep != "" && n >= 1
    ensures 1 <= |parts| <= n
    decreases n
  {
    if n == 1 then [s]
    else
      match Find(s, sep)
      case None => [s]
      case Some(i) => [s[..i]] + SplitN(s[i + |sep|..], sep, n - 1)
  }

  function Chars(s: string): seq<string> {
    if s == "" then [] else [[s[0]]] + Chars(s[1..])
  }

  /** `split` on any separator; the empty one splits before, between and after all characters. */
  function SplitOn(s: string, sep: string): seq<string> {
    if sep == "" then [""] + Chars(s) + [""] else Split(s, sep)
  }

  predicate NoneEmpty(segments: seq<string>) {
    forall i :: 0 <= i < |segments| ==> segments[i] != ""
  }

  datatype PathMapping = PathMapping(bucketSegments: nat, bucketSeparator: string, displayBucketSegments: nat) {

    /** The display name is cut out of the bucket segments; a longer one is a panic in the original. */
    predicate Valid() {
      displayBucketSegments <= bucketSegments
    }

    function DisplayBucket(segments: seq<string>): string
      requires Valid() && |segments| == bucketSegments
    {
      Join(segments[..displayBucketSegments], "/")
    }

    function KeyPrefixOf(segments: seq<string>): string
      requires Valid() && |segments| == bucketSegments
    {
      if displayBucketSegments < bucketSegments then Join(segments[displayBucketSegments..], "/") + "/" else ""
    }

    function Parse(path: string): Option<MappedPath>
      requires Valid()
    {
      var trimmed := StripPrefixOrSelf(path, "/");
      if trimmed == "" then None
      else
        var parts := SplitN(trimmed, "/", bucketSegments + 1);
        if |parts| < bucketSegments || !NoneEmpty(parts[..bucketSegments]) then None
        else
          var segments := parts[..bucketSegments];
          var key := if |parts| > bucketSegments && parts[bucketSegments] != "" then Some(parts[bucketSegments]) else None;
          Some(MappedPath(Join(segments, bucketSeparator), key, DisplayBucket(segments), KeyPrefixOf(segments), segments))
    }

    function ParseBucketName(name: string): Option<MappedPath>
      requires Valid()
    {
      var segments := SplitOn(name, bucketSeparator);
      if |segments| != bucketSegments || !NoneEmpty(segments) then None
      else Some(MappedPath(name, None, DisplayBucket(segments), KeyPrefixOf(segments), segments))
    }

    function RewriteRequest(path: string, query: Option<string>): RewriteResult
      requires Valid()
    {
      match Parse(path)
      case Some(mapped) =>
        RewriteResult("/" + mapped.bucket + (if mapped.key.Some? then "/" + mapped.key.value else ""),
                      query, path, query)
      case None =>
        var trimmed := TrimStart(TrimEnd(path, '/'), '/');
        var text := if query.Some? then query.value else "";
        if trimmed != "" && '/' !in trimmed && IsListRequest(text) then
          match ExtractQueryParam(text, "prefix")
          case Some(prefix) =>
            if prefix != "" then
              var (newPath, newQuery) := RewritePrefixToBucket(trimmed, prefix, text);
              RewriteResult(newPath, Some(newQuery), path, query)
            else RewriteResult(path, query, path, query)
          case None => RewriteResult(path, query, path, query)
        else RewriteResult(path, query, path, query)
    }

    function RewriteCopySource(copySource: string): Option<string>
      requires Valid()
    {
      var value := StripPrefixOrSelf(copySource, "/");
      var (path, version) := match SplitOnce(value, "?versionId=")
        case Some((p, v)) => (p, Some(v))
        case None => (value, None);
      match Parse("/" + path)
      case None => None
      case Some(mapped) =>
        match mapped.key
        case None => None
        case Some(key) =>
          Some("/" + mapped.bucket + "/" + key + (if version.Some? then "?versionId=" + version.value else ""))
    }

    /** Folds the first component of the list prefix into the bucket name. */
    function RewritePrefixToBucket(account: string, prefix: string, query: string): (string, string) {
      var (product, rest) := match SplitOnce(prefix, "/")
        case Some((p, r)) => (p, r)
        case None => (prefix, "");
      ("/" + account + bucketSeparator + product, RewritePrefixInQuery(query, rest))
    }
  }

  // ---- Query strings.

  predicate IsListRequest(query: string) {
    exists p :: p in Split(query, "&") && "list-type=" <= p
  }

  function FirstParam(segs: seq<string>, name: string): Option<string> {
    if segs == [] then None
    else
      match SplitOnce(segs[0], "=")
      case Some((n, v)) => if n == name then Some(v) else FirstParam(segs[1..], name)
      case None => FirstParam(segs[1..], name)
  }

  /** The first value of a parameter, percent-decoded; `+` is left alone. */
  function ExtractQueryParam(query: string, name: string): Option<string> {
    match FirstParam(Split(query, "&"), name)
    case None => None
    case Some(v) => Some(Utf8.DecodeLossy(PercentDecode(v)))
  }

  function ReplacePrefix(segs: seq<string>, encoded: string): (r: seq<string>)
    ensures |r| == |segs|
  {
    if segs == [] then []
    else [if "prefix=" <= segs[0] then "prefix=" + encoded else segs[0]] + ReplacePrefix(segs[1..], encoded)
  }

  function RewritePrefixInQuery(query: string, newPrefix: string): string {
    Join(ReplacePrefix(Split(query, "&"), PercentEncode(QueryValue, newPrefix)), "&")
  }

  // ---- The registry wrapper.

  datatype ResolvedBucket = ResolvedBucket(config: BucketConfig, listRewrite: Option<ListRewrite>, displayName: Option<string>)

  /** `MappedRegistry::get_bucket` on what the inner registry resolved. */
  function ApplyMapping(m: PathMapping, name: string, inner: ResolvedBucket): ResolvedBucket
    requires m.Valid()
  {
    match m.ParseBucketName(name)
    case None => inner
    case Some(mapped) =>
      var named := inner.(displayName := Some(mapped.displayBucket));
      if mapped.keyPrefix != "" then named.(listRewrite := Some(ListRewrite("", mapped.keyPrefix))) else named
  }
}
