/** Parsing undoes printing, and the two ways of writing an object's URL agree. */
module UrlRoundTrips {
  import opened Text
  import opened Percent
  import Utf8
  import opened Types
  import opened Keys
  import opened Query
  import opened Requests
  import opened BackendUrl

  // ---- A request to the URL, parsed by the same gateway.

  /** Path and query of the URL's tail; the path reaches the parser decoded. */
  function ParseTail(verb: Method, tail: string): Result<S3Operation, ProxyError> {
    var (rawPath, query) := match SplitOnce(tail, "?")
      case Some((p, q)) => (p, Some(q))
      case None => (tail, None);
    match Utf8.Decode(PercentDecode(rawPath))
    case None => Err(InvalidRequest)
    case Some(path) => ParseS3Request(verb, path, query, None, PathStyle, None)
  }

  /** A bucket name that needs no escaping in a URL path. */
  predicate PlainBucket(b: string) {
    b != "" && '/' !in b && '?' !in b && '%' !in b && '#' !in b
  }

  predicate GoodPrefix(config: BucketConfig) {
    config.backendPrefix.None?
    || (TrimEnd(config.backendPrefix.value, '/') != "" && ValidKey(TrimEnd(config.backendPrefix.value, '/')))
  }

  /** The operation the backend is asked for. */
  function Retargeted(op: S3Operation, bucket: string, key: string): S3Operation {
    match op
    case GetObject(_, _, _) => GetObject(bucket, key, None)
    case HeadObject(_, _) => HeadObject(bucket, key)
    case PutObject(_, _) => PutObject(bucket, key)
    case CreateMultipartUpload(_, _) => CreateMultipartUpload(bucket, key)
    case UploadPart(_, _, id, n) => UploadPart(bucket, key, id, n)
    case CompleteMultipartUpload(_, _, id) => CompleteMultipartUpload(bucket, key, id)
    case AbortMultipartUpload(_, _, id) => AbortMultipartUpload(bucket, key, id)
    case DeleteObject(_, _) => DeleteObject(bucket, key)
    case CopyObject(_, _, _, _, _) => PutObject(bucket, key)
    case DeleteObjects(_) => DeleteObjects(bucket)
    case ListBucket(_, q) => ListBucket(bucket, q)
    case ListBuckets => ListBuckets
  }

  predicate Keyed(op: S3Operation) {
    op.ObjectKey() != "" && ValidKey(op.ObjectKey())
    && (op.UploadPart? ==> op.partNumber < U32_BOUND)
  }

  // ---- Query strings.

  /** A bare flag is one pair with an empty value. */
  lemma {:induction false} ParseFlag(flag: string)
    requires flag != "" && '%' !in flag && '+' !in flag && '&' !in flag && '=' !in flag
    ensures Parse(flag) == [(flag, "")]
  {
    FreeOfChar(flag, '&');
    SplitSingle(flag, "&");
    FreeOfChar(flag, '=');
    FindNoneOfFree(flag, "=");
    FormDecodePlain(flag);
    assert SegmentPair(flag) == (flag, "");
    assert SegmentPairs([flag][1..]) == [];
    assert SegmentPairs([flag]) == [(flag, "")] + [];
  }

  /** A query that is one flag. */
  lemma {:induction false} FlagQuery(query: string, flag: string)
    requires query == "?" + flag
    requires flag != "" && '%' !in flag && '+' !in flag && '&' !in flag && '=' !in flag
    ensures query[0] == '?' && Parse(query[1..]) == [(flag, "")]
  {
    assert query[1..] == flag;
    ParseFlag(flag);
  }

  lemma {:induction false} PairsQuery(query: string, pairs: Pairs)
    requires query == "?" + Serialize(pairs)
    ensures query[0] == '?' && Parse(query[1..]) == pairs
  {
    assert query[1..] == Serialize(pairs);
    ParseSerialize(pairs);
  }

  lemma {:induction false} QueryOfUrl(op: S3Operation)
    requires !op.DeleteObjects?
    ensures UrlQuery(op) == "" <==> PairsOf(op) == []
    ensures UrlQuery(op) != "" ==> UrlQuery(op)[0] == '?' && Parse(UrlQuery(op)[1..]) == PairsOf(op)
  {
    if op.CreateMultipartUpload? {
      FlagQuery(UrlQuery(op), "uploads");
    } else if CarriesUploadId(op) {
      PairsQuery(UrlQuery(op), PairsOf(op));
    }
  }

  /** Method and pairs determine the operation. */
  lemma {:induction false} OperationFromPairs(op: S3Operation, bucket: string, key: string, query: Option<string>)
    requires Keyed(op) && key != ""
    ensures OperationOf(op.HttpMethod(), bucket, key, query, PairsOf(op)) == Ok(Retargeted(op, bucket, key))
  {
    var pairs := PairsOf(op);
    if op.UploadPart? {
      ParsePrinted(op.partNumber, U32_BOUND);
      assert pairs[1..] == [("uploadId", op.uploadId)];
      assert FirstValue(pairs, "uploadId") == FirstValue([("uploadId", op.uploadId)], "uploadId");
    }
    if op.CreateMultipartUpload? || op.CompleteMultipartUpload? || op.AbortMultipartUpload? {
      assert |pairs| == 1 && pairs[1..] == [];
      assert FirstValue(pairs[1..], "uploads") == None;
    }
  }

  // ---- Paths.

  lemma {:induction false} TailSplits(path: string, query: string)
    requires '?' !in path
    requires query == "" || query[0] == '?'
    ensures SplitOnce(path + query, "?") == if query == "" then None else Some((path, query[1..]))
  {
    FreeOfChar(path, '?');
    if query == "" {
      assert path + query == path;
      FindNoneOfFree(path, "?");
    } else {
      assert query == "?" + query[1..];
      assert path + query == path + "?" + query[1..];
      SplitOnceAfterFree(path, "?", query[1..]);
    }
  }

  lemma {:induction false} DecodedPath(plain: string, key: string)
    requires '%' !in plain
    ensures Utf8.Decode(PercentDecode(plain + PercentEncode(StrictPath, key))) == Some(plain + key)
  {
    DecodePlain(plain, PercentEncode(StrictPath, key));
    DecodeEncodeBytes(StrictPath, key, "");
    assert PercentEncode(StrictPath, key) + "" == PercentEncode(StrictPath, key);
    assert Utf8.Encode(key) + PercentDecode("") == Utf8.Encode(key);
    Utf8.EncodeConcat(plain, key);
    Utf8.DecodeEncode(plain + key);
  }

  lemma {:induction false} RawKeyValid(config: BucketConfig, key: string)
    requires key != "" && ValidKey(key)
    ensures RawKey(config, key) != ""
    ensures ValidKey(RawKey(config, key)) <==> GoodPrefix(config)
  {
    if config.backendPrefix.Some? {
      var t := TrimEnd(config.backendPrefix.value, '/');
      CleanPathConcat(t, key);
      CleanPathNotEmpty(t);
      assert forall c :: c in t + "/" + key <==> c in t || c == '/' || c in key;
    }
  }

  /** What a keyed URL parses to: the same operation, or a refusal if the prefix spoils the key. */
  lemma {:induction false} KeyedTailParses(config: BucketConfig, op: S3Operation)
    requires Keyed(op) && PlainBucket(config.OptionOr("bucket_name", ""))
    ensures var bucket := config.OptionOr("bucket_name", "");
            var key := RawKey(config, op.ObjectKey());
            ParseTail(op.HttpMethod(), UrlTail(config, op))
            == if ValidKey(key) then Ok(Retargeted(op, bucket, key)) else Err(InvalidRequest)
  {
    var bucket := config.OptionOr("bucket_name", "");
    var key := RawKey(config, op.ObjectKey());
    QueryOfUrl(op);
    TailParses(op.HttpMethod(), bucket, key, UrlQuery(op));
    RawKeyValid(config, op.ObjectKey());
    var query := QueryText(UrlQuery(op));
    assert QueryPairs(query) == PairsOf(op);
    OperationFromPairs(op, bucket, key, query);
  }

  function QueryText(query: string): Option<string> {
    if query == "" then None else Some(query[1..])
  }

  lemma {:induction false} TailParses(verb: Method, bucket: string, key: string, query: string)
    requires PlainBucket(bucket) && (query == "" || query[0] == '?')
    ensures ParseTail(verb, "/" + bucket + "/" + PercentEncode(StrictPath, key) + query)
         == BuildS3Operation(verb, bucket, key, QueryText(query))
  {
    var plain := "/" + bucket + "/";
    EncodedChars(StrictPath, key);
    TailSplits(plain + PercentEncode(StrictPath, key), query);
    DecodedPath(plain, key);
    ParseTailAt(verb, plain + PercentEncode(StrictPath, key), query, plain + key);
    ParseRequestOf(verb, bucket, key, QueryText(query));
  }

  lemma {:induction false} ParseTailAt(verb: Method, rawPath: string, query: string, path: string)
    requires SplitOnce(rawPath + query, "?") == if query == "" then None else Some((rawPath, query[1..]))
    requires Utf8.Decode(PercentDecode(rawPath)) == Some(path)
    ensures ParseTail(verb, rawPath + query) == ParseS3Request(verb, path, QueryText(query), None, PathStyle, None)
  {
    assert rawPath + "" == rawPath;
  }

  lemma {:induction false} ParseRequestOf(verb: Method, bucket: string, key: string, query: Option<string>)
    requires bucket != "" && '/' !in bucket
    ensures ParseS3Request(verb, "/" + bucket + "/" + key, query, None, PathStyle, None)
         == BuildS3Operation(verb, bucket, key, query)
    ensures ParseS3Request(verb, "/" + bucket, query, None, PathStyle, None) == BuildS3Operation(verb, bucket, "", query)
  {
    ParsePathOf(bucket, key);
  }

  /** Parsing undoes printing for every keyed operation exactly when the backend prefix is absent or a valid key itself. */
  lemma {:induction false} ParsingUndoesPrinting(config: BucketConfig, op: S3Operation)
    requires Keyed(op) && PlainBucket(config.OptionOr("bucket_name", ""))
    ensures UrlOf(config, op) == Ok(Base(config) + UrlTail(config, op))
    ensures var bucket := config.OptionOr("bucket_name", "");
            ParseTail(op.HttpMethod(), UrlTail(config, op)) == Ok(Retargeted(op, bucket, RawKey(config, op.ObjectKey())))
            <==> GoodPrefix(config)
    ensures GoodPrefix(config) ==> RawKey(config, op.ObjectKey()) == ApplyBackendPrefix(config, op.ObjectKey())
  {
    KeyedTailParses(config, op);
    RawKeyValid(config, op.ObjectKey());
  }

  /** Batch deletes address the bucket. */
  lemma {:induction false} ParsingUndoesPrintingBatch(config: BucketConfig, client: string)
    requires PlainBucket(config.OptionOr("bucket_name", ""))
    ensures UrlOf(config, DeleteObjects(client)) == Ok(Base(config) + UrlTail(config, DeleteObjects(client)))
    ensures ParseTail(POST, UrlTail(config, DeleteObjects(client))) == Ok(DeleteObjects(config.OptionOr("bucket_name", "")))
  {
    BatchTailParses(config.OptionOr("bucket_name", ""));
  }

  lemma {:induction false} BatchTailParses(bucket: string)
    requires PlainBucket(bucket)
    ensures ParseTail(POST, "/" + bucket + "?delete") == Ok(DeleteObjects(bucket))
  {
    var path := "/" + bucket;
    assert "?delete"[1..] == "delete";
    TailSplits(path, "?delete");
    DecodedPath(path, "");
    assert path + PercentEncode(StrictPath, "") == path && path + "" == path;
    ParseTailAt(POST, path, "?delete", path);
    ParseFlag("delete");
    ParseRequestOf(POST, bucket, "", Some("delete"));
    BatchFromPairs(bucket);
  }

  lemma {:induction false} BatchFromPairs(bucket: string)
    ensures OperationOf(POST, bucket, "", Some("delete"), [("delete", "")]) == Ok(DeleteObjects(bucket))
  {
    var pairs := [("delete", "")];
    assert pairs[1..] == [];
    assert FirstValue(pairs[1..], "uploads") == None && FirstValue(pairs[1..], "uploadId") == None;
  }

  // ---- Two routes to one object.

  /** The presigned route and the raw-signed route write the same URL exactly when the prefix is absent or a clean path. */
  lemma {:induction false} WriteRoutesAgree(config: BucketConfig, op: S3Operation)
    requires config.IsS3Backend() && "endpoint" in config.options
    requires (op.PutObject? || op.DeleteObject?) && Keyed(op)
    ensures var path := BuildObjectPath(config, op.ObjectKey());
            path.Ok? && UrlOf(config, op) == Ok(UnsignedSigner.FromConfig(config).SignedUrl(path.value))
            <==> config.backendPrefix.None? || CleanPath(TrimEnd(config.backendPrefix.value, '/'))
  {
    var raw := RawKey(config, op.ObjectKey());
    var path := BuildObjectPath(config, op.ObjectKey());
    BuiltPath(config, op.ObjectKey());
    if path.Ok? {
      SameUrl(config, op, path.value);
    }
  }

  /** The path of the presigned route is the raw key, or lacks its leading slash, or is refused. */
  lemma {:induction false} BuiltPath(config: BucketConfig, key: string)
    requires CleanPath(key)
    ensures var path, raw := BuildObjectPath(config, key), RawKey(config, key);
            && (path.Ok? ==> path.value != "" && (path.value == raw || "/" + path.value == raw))
            && (path.Ok? && path.value == raw <==> config.backendPrefix.None? || CleanPath(TrimEnd(config.backendPrefix.value, '/')))
  {
    var raw := RawKey(config, key);
    CleanPathNotEmpty(key);
    if config.backendPrefix.None? {
      ParseCleanPath(key);
    } else {
      var t := TrimEnd(config.backendPrefix.value, '/');
      CleanPathNotEmpty(t);
      if t == "" {
        ParseCleanPath(key);
        assert raw == "/" + key;
      } else {
        CleanPathConcat(t, key);
        assert raw == t + "/" + key;
        assert raw[|raw| - 1] == key[|key| - 1] && raw[0] == t[0];
        if CleanPath(t) {
          ParseCleanPath(raw);
        }
      }
    }
  }

  lemma {:induction false} SameUrl(config: BucketConfig, op: S3Operation, path: string)
    requires config.IsS3Backend() && "endpoint" in config.options
    requires (op.PutObject? || op.DeleteObject?) && Keyed(op)
    requires path != "" && (path == RawKey(config, op.ObjectKey()) || "/" + path == RawKey(config, op.ObjectKey()))
    ensures UrlOf(config, op) == Ok(UnsignedSigner.FromConfig(config).SignedUrl(path)) <==> path == RawKey(config, op.ObjectKey())
  {
    var raw := RawKey(config, op.ObjectKey());
    var e1, e2 := PercentEncode(StrictPath, raw), PercentEncode(StrictPath, path);
    EncodeNonEmpty(StrictPath, path);
    WriteUrls(config, op, path);
    if raw != path {
      assert raw[1..] == path;
      assert e1 == "/" + e2;
    }
  }

  function WriteHead(config: BucketConfig): string {
    var bucket := config.OptionOr("bucket_name", "");
    if bucket == "" then Base(config) + "/" else Base(config) + "/" + bucket + "/"
  }

  lemma {:induction false} WriteUrls(config: BucketConfig, op: S3Operation, path: string)
    requires config.IsS3Backend() && "endpoint" in config.options
    requires (op.PutObject? || op.DeleteObject?) && Keyed(op) && PercentEncode(StrictPath, path) != ""
    ensures UrlOf(config, op) == Ok(WriteHead(config) + PercentEncode(StrictPath, RawKey(config, op.ObjectKey())))
    ensures UnsignedSigner.FromConfig(config).SignedUrl(path) == WriteHead(config) + PercentEncode(StrictPath, path)
  {
    var bucket := config.OptionOr("bucket_name", "");
    var e := PercentEncode(StrictPath, RawKey(config, op.ObjectKey()));
    assert UrlQuery(op) == "";
    AssembledKeyed(Base(config), bucket, e, "");
    assert WriteHead(config) + e + "" == WriteHead(config) + e;
  }

  // ---- Copy source.

  const VERSION_SEPARATOR: string := "?versionId="

  lemma {:induction false} NoVersionBefore(bucket: string, encoded: string)
    requires Find(bucket, VERSION_SEPARATOR) == None && '?' !in encoded
    ensures FreeOf(bucket + "/" + encoded, VERSION_SEPARATOR)
  {
    var s := bucket + "/" + encoded;
    var sep := VERSION_SEPARATOR;
    FindSpec(bucket, sep);
    forall i: nat | i < |s|
      ensures !OccursAt(s + sep, sep, i)
    {
      var window := (s + sep)[i..];
      assert (s + sep)[i] == s[i];
      if i < |bucket| {
        if i + |sep| <= |bucket| {
          assert (s + sep)[i..i + |sep|] == bucket[i..i + |sep|];
          assert !OccursAt(bucket, sep, i);
        } else {
          assert (s + sep)[|bucket|] == '/';
          assert i + |sep| <= |s + sep| ==> (s + sep)[i..i + |sep|][|bucket| - i] == '/';
          assert '/' !in sep;
        }
      } else {
        assert s[i] != '?';
        assert i + |sep| <= |s + sep| ==> (s + sep)[i..i + |sep|][0] == s[i];
      }
    }
  }

  function Normalised(version: Option<string>): Option<string> {
    if version == Some("") then None else version
  }

  /** The copy source a backend reads off the header is the backend bucket, the prefixed key and the version. */
  lemma {:induction false} CopySourceRoundTrip(config: BucketConfig, key: string, version: Option<string>)
    requires key != "" && config.OptionOr("bucket_name", "") != ""
    requires '?' !in config.OptionOr("bucket_name", "")
    ensures var bucket := config.OptionOr("bucket_name", "");
            var header := BuildCopySourceHeader(config, key, version);
            && header.Ok?
            && (ParseCopySource(header.value) == Ok((bucket, ApplyBackendPrefix(config, key), Normalised(version)))
                <==> '/' !in bucket)
  {
    var bucket := config.OptionOr("bucket_name", "");
    var full := ApplyBackendPrefix(config, key);
    var encoded := PercentEncode(StrictPath, full);
    var header := BuildCopySourceHeader(config, key, version).value;
    EncodedChars(StrictPath, full);
    var path := bucket + "/" + encoded;
    var suffix := if version.Some? then VERSION_SEPARATOR + version.value else "";
    assert header == "/" + (path + suffix);
    NoVersion(bucket);
    NoVersionBefore(bucket, encoded);
    CopySourceParts(path, version);
    if '/' !in bucket {
      FreeOfChar(bucket, '/');
      SplitOnceAfterFree(bucket, "/", encoded);
      Percent.DecodeEncode(StrictPath, full);
      ApplyIsKeyPrefix(config, key);
    } else {
      ParsedBucketHasNoSlash(path);
    }
  }

  lemma {:induction false} CopySourceParts(path: string, version: Option<string>)
    requires FreeOf(path, VERSION_SEPARATOR)
    ensures ParseCopySource("/" + (path + (if version.Some? then VERSION_SEPARATOR + version.value else "")))
         == ParseCopyPath(path, Normalised(version))
  {
    var s := path + (if version.Some? then VERSION_SEPARATOR + version.value else "");
    VersionSplits(path, version);
    assert ("/" + s)[1..] == s;
    if version.None? {
      assert s == path;
    }
  }

  lemma {:induction false} VersionSplits(path: string, version: Option<string>)
    requires FreeOf(path, VERSION_SEPARATOR)
    ensures SplitOnce(path + (if version.Some? then VERSION_SEPARATOR + version.value else ""), VERSION_SEPARATOR)
         == if version.Some? then Some((path, version.value)) else None
  {
    if version.Some? {
      assert path + (VERSION_SEPARATOR + version.value) == path + VERSION_SEPARATOR + version.value;
      SplitOnceAfterFree(path, VERSION_SEPARATOR, version.value);
    } else {
      assert path + "" == path;
      FindNoneOfFree(path, VERSION_SEPARATOR);
    }
  }

  lemma {:induction false} NoVersion(bucket: string)
    requires '?' !in bucket
    ensures Find(bucket, VERSION_SEPARATOR) == None
  {
    FindSpec(bucket, VERSION_SEPARATOR);
    forall i: nat
      ensures !OccursAt(bucket, VERSION_SEPARATOR, i)
    {
      if i + |VERSION_SEPARATOR| <= |bucket| {
        assert bucket[i..i + |VERSION_SEPARATOR|][0] == bucket[i];
        assert VERSION_SEPARATOR[0] == '?';
      }
    }
  }

  lemma {:induction false} ParsedBucketHasNoSlash(path: string)
    ensures SplitOnce(path, "/").Some? ==> '/' !in SplitOnce(path, "/").value.0
  {
    FindChar(path, '/');
  }
}
