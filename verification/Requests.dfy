/** Parsing HTTP requests into S3 operations. */
module Requests {
  import opened Text
  import opened Percent
  import Utf8
  import opened Types
  import opened Keys
  import opened Query

  datatype HostStyle = PathStyle | VirtualHosted(bucket: string)

  const U32_BOUND: nat := 0x1_0000_0000

  function ParsePathStyle(path: string): Result<(string, string), ProxyError> {
    var trimmed := TrimStart(path, '/');
    if trimmed == "" then Err(InvalidRequest)
    else
      match SplitOnce(trimmed, "/")
      case Some((bucket, key)) => Ok((bucket, key))
      case None => Ok((trimmed, ""))
  }

  function ParsePartNumber(pairs: Pairs): Option<nat> {
    match FirstValue(pairs, "partNumber")
    case None => None
    case Some(v) => ParseUnsigned(v, U32_BOUND)
  }

  function BuildS3Operation(verb: Method, bucket: string, key: string, query: Option<string>): Result<S3Operation, ProxyError> {
    if !ValidKey(key) then Err(InvalidRequest)
    else OperationOf(verb, bucket, key, query, QueryPairs(query))
  }

  function OperationOf(verb: Method, bucket: string, key: string, query: Option<string>, pairs: Pairs): Result<S3Operation, ProxyError> {
    var uploadId := FirstValue(pairs, "uploadId");
    match verb
    case GET =>
      if key == "" then Ok(ListBucket(bucket, query)) else Ok(GetObject(bucket, key, None))
    case HEAD => Ok(HeadObject(bucket, key))
    case PUT =>
      (match uploadId
       case Some(id) =>
         (match ParsePartNumber(pairs)
          case None => Err(InvalidRequest)
          case Some(n) => Ok(UploadPart(bucket, key, id, n)))
       case None => Ok(PutObject(bucket, key)))
    case POST =>
      if HasName(pairs, "uploads") then Ok(CreateMultipartUpload(bucket, key))
      else if uploadId.Some? then Ok(CompleteMultipartUpload(bucket, key, uploadId.value))
      else if HasName(pairs, "delete") then Ok(DeleteObjects(bucket))
      else Err(InvalidRequest)
    case DELETE =>
      if uploadId.Some? then Ok(AbortMultipartUpload(bucket, key, uploadId.value))
      else if key != "" then Ok(DeleteObject(bucket, key))
      else Err(InvalidRequest)
    case OtherMethod => Err(InvalidRequest)
  }

  /** `(bucket, key, versionId)` of an `x-amz-copy-source` value. */
  function ParseCopySource(raw: string): Result<(string, string, Option<string>), ProxyError> {
    var s := StripPrefixOrSelf(raw, "/");
    var (path, version) := match SplitOnce(s, "?versionId=")
      case Some((p, v)) => (p, if v == "" then None else Some(v))
      case None => (s, None);
    ParseCopyPath(path, version)
  }

  function ParseCopyPath(path: string, version: Option<string>): Result<(string, string, Option<string>), ProxyError> {
    match SplitOnce(path, "/")
    case None => Err(InvalidRequest)
    case Some((bucket, keyEncoded)) =>
      if bucket == "" then Err(InvalidRequest)
      else
        match Utf8.Decode(PercentDecode(keyEncoded))
        case None => Err(InvalidRequest)
        case Some(key) => if key == "" then Err(InvalidRequest) else Ok((bucket, key, version))
  }

  function BuildCopyObject(bucket: string, key: string, copySource: string, query: Option<string>): Result<S3Operation, ProxyError> {
    if HasName(QueryPairs(query), "uploadId") then Err(NotImplemented)
    else if !ValidKey(key) then Err(InvalidRequest)
    else
      match ParseCopySource(copySource)
      case Err(e) => Err(e)
      case Ok((srcBucket, srcKey, srcVersion)) =>
        if !ValidKey(srcKey) then Err(InvalidRequest)
        else Ok(CopyObject(bucket, key, srcBucket, srcKey, srcVersion))
  }

  predicate VisibleAscii(s: string) {
    forall c :: c in s ==> ' ' <= c <= '~' || c == '\t'
  }

  /** A PUT with a copy source is a copy, everything else what verb, key and query say. */
  function RequestFor(verb: Method, bucket: string, key: string, query: Option<string>, copyHeader: Option<string>,
                      copyOverride: Option<string>): Result<S3Operation, ProxyError>
  {
    if verb == PUT && copyHeader.Some? then
      if copyOverride.Some? then BuildCopyObject(bucket, key, copyOverride.value, query)
      else if !VisibleAscii(copyHeader.value) then Err(InvalidRequest)
      else BuildCopyObject(bucket, key, copyHeader.value, query)
    else BuildS3Operation(verb, bucket, key, query)
  }

  /** The request with the `x-amz-copy-source` header it carries, if any, and the value that overrides it. */
  function ParseS3Request(verb: Method, path: string, query: Option<string>, copyHeader: Option<string>,
                          hostStyle: HostStyle, copyOverride: Option<string>): Result<S3Operation, ProxyError>
  {
    if hostStyle.PathStyle? && TrimStart(path, '/') == "" then
      if verb == GET then Ok(ListBuckets) else Err(InvalidRequest)
    else
      var target := if hostStyle.PathStyle? then ParsePathStyle(path)
                    else Ok((hostStyle.bucket, TrimStart(path, '/')));
      match target
      case Err(e) => Err(e)
      case Ok((bucket, key)) => RequestFor(verb, bucket, key, query, copyHeader, copyOverride)
  }

  /** A bucket without slashes and a key make the path they are parsed back from. */
  lemma {:induction false} ParsePathOf(bucket: string, key: string)
    requires bucket != "" && '/' !in bucket
    ensures TrimStart("/" + bucket + "/" + key, '/') == bucket + "/" + key
    ensures ParsePathStyle("/" + bucket + "/" + key) == Ok((bucket, key))
    ensures TrimStart("/" + bucket, '/') == bucket
    ensures ParsePathStyle("/" + bucket) == Ok((bucket, ""))
  {
    FreeOfChar(bucket, '/');
    SplitOnceAfterFree(bucket, "/", key);
    TrimStartOfTrimmed(bucket + "/" + key, '/');
    assert "/" + bucket + "/" + key == ['/'] + (bucket + "/" + key);
    TrimStartOfTrimmed(bucket, '/');
    FindNoneOfFree(bucket, "/");
  }

  // ---- What a parsed operation says about the request.

  /** The first value of a name in a query. */
  function Given(query: Option<string>, name: string): Option<string> {
    FirstValue(QueryPairs(query), name)
  }

  /**
    Which request an operation was parsed from: its verb is the operation's own, bucket and
    key are the ones asked for, and the query decides between the operations of a verb.
   */
  lemma {:induction false} ParsedFromExactly(verb: Method, bucket: string, key: string, query: Option<string>, op: S3Operation)
    ensures BuildS3Operation(verb, bucket, key, query) == Ok(op)
            <==> && ValidKey(key) && op.HttpMethod() == verb && op.TargetBucket() == Some(bucket)
                 && !op.CopyObject?
                 && (!op.ListBucket? && !op.DeleteObjects? ==> op.ObjectKey() == key)
                 && (op.ListBucket? ==> key == "" && op.rawQuery == query)
                 && (op.GetObject? ==> key != "" && op.version == None)
                 && (op.PutObject? ==> Given(query, "uploadId").None?)
                 && (op.UploadPart? ==> Given(query, "uploadId") == Some(op.uploadId) && Given(query, "partNumber").Some?
                                        && ParseUnsigned(Given(query, "partNumber").value, 0x1_0000_0000) == Some(op.partNumber))
                 && (op.CreateMultipartUpload? ==> Given(query, "uploads").Some?)
                 && (op.CompleteMultipartUpload? ==> Given(query, "uploads").None? && Given(query, "uploadId") == Some(op.uploadId))
                 && (op.DeleteObjects? ==> Given(query, "uploads").None? && Given(query, "uploadId").None? && Given(query, "delete").Some?)
                 && (op.AbortMultipartUpload? ==> Given(query, "uploadId") == Some(op.uploadId))
                 && (op.DeleteObject? ==> Given(query, "uploadId").None? && key != "")
    ensures BuildS3Operation(verb, bucket, key, query).Err? ==> BuildS3Operation(verb, bucket, key, query) == Err(InvalidRequest)
  {
  }

  /** A virtual-hosted request is the path-style request for the bucket of its host. */
  lemma {:induction false} HostStylesAgree(verb: Method, bucket: string, path: string, query: Option<string>, copyHeader: Option<string>,
                                           copyOverride: Option<string>)
    requires bucket != "" && '/' !in bucket
    ensures ParseS3Request(verb, path, query, copyHeader, VirtualHosted(bucket), copyOverride)
         == ParseS3Request(verb, "/" + bucket + "/" + TrimStart(path, '/'), query, copyHeader, PathStyle, copyOverride)
  {
    ParsePathOf(bucket, TrimStart(path, '/'));
  }

  /** Any number of slashes before a path is as good as none. */
  lemma {:induction false} LeadingSlashes(verb: Method, path: string, query: Option<string>, copyHeader: Option<string>,
                                          style: HostStyle, copyOverride: Option<string>)
    ensures ParseS3Request(verb, "/" + path, query, copyHeader, style, copyOverride)
         == ParseS3Request(verb, path, query, copyHeader, style, copyOverride)
  {
    assert ("/" + path)[1..] == path;
    SameTarget(verb, "/" + path, path, query, copyHeader, style, copyOverride);
  }

  lemma {:induction false} SameTarget(verb: Method, path: string, other: string, query: Option<string>, copyHeader: Option<string>,
                                      style: HostStyle, copyOverride: Option<string>)
    requires TrimStart(path, '/') == TrimStart(other, '/')
    ensures ParseS3Request(verb, path, query, copyHeader, style, copyOverride)
         == ParseS3Request(verb, other, query, copyHeader, style, copyOverride)
  {
    assert ParsePathStyle(path) == ParsePathStyle(other);
  }

  /** The bare path lists the buckets, for a GET, and nothing else. */
  lemma {:induction false} BarePath(verb: Method, query: Option<string>, copyHeader: Option<string>, copyOverride: Option<string>)
    ensures ParseS3Request(verb, "/", query, copyHeader, PathStyle, copyOverride) == if verb == GET then Ok(ListBuckets) else Err(InvalidRequest)
  {
    assert "/"[1..] == "";
    assert TrimStart("/", '/') == "";
  }

  function VersionText(version: Option<string>): string {
    if version.Some? then "?versionId=" + version.value else ""
  }

  /** How a copy source is spelled. */
  function SpelledSource(bucket: string, key: string, version: Option<string>): string {
    bucket + "/" + PercentEncode(StrictPath, key) + VersionText(version)
  }

  predicate SourceNames(bucket: string, key: string, version: Option<string>) {
    bucket != "" && '/' !in bucket && '?' !in bucket && key != "" && version != Some("")
  }

  lemma {:induction false} NoQuestionMark(s: string)
    requires '?' !in s
    ensures FreeOf(s, "?versionId=")
  {
    forall i: nat | i < |s|
      ensures !OccursAt(s + "?versionId=", "?versionId=", i)
    {
      assert (s + "?versionId=")[i] == s[i];
    }
  }

  /** A spelled copy source is read back, with one leading slash or none. */
  lemma {:induction false} SourceReadBack(bucket: string, key: string, version: Option<string>)
    requires SourceNames(bucket, key, version)
    ensures ParseCopySource(SpelledSource(bucket, key, version)) == Ok((bucket, key, version))
    ensures ParseCopySource("/" + SpelledSource(bucket, key, version)) == Ok((bucket, key, version))
  {
    var encoded := PercentEncode(StrictPath, key);
    EncodedChars(StrictPath, key);
    NoQuestionMark(bucket + "/" + encoded);
    SourceParsedExactly(bucket, encoded, version);
    Percent.DecodeEncode(StrictPath, key);
  }

  lemma {:induction false} TagSplitsOff(s: string, path: string, tag: string, version: Option<string>)
    requires tag != "" && FreeOf(path, tag)
    requires s == path + (if version.Some? then tag + version.value else "")
    ensures SplitOnce(s, tag) == if version.Some? then Some((path, version.value)) else None
  {
    if version.Some? {
      SplitOnceAfterFree(path, tag, version.value);
      assert path + tag + version.value == path + (tag + version.value);
    } else {
      assert path + "" == path;
      FindNoneOfFree(path, tag);
    }
  }

  /** What is before the version is split off, whatever the version holds; an empty version is none. */
  lemma {:induction false} VersionSplitOff(raw: string, path: string, version: Option<string>)
    requires FreeOf(path, "?versionId=") && StripPrefixOrSelf(raw, "/") == path + VersionText(version)
    ensures ParseCopySource(raw) == ParseCopyPath(path, if version == Some("") then None else version)
  {
    TagSplitsOff(StripPrefixOrSelf(raw, "/"), path, "?versionId=", version);
    assert version.None? ==> StripPrefixOrSelf(raw, "/") == path;
  }

  lemma WithOrWithoutSlash(s: string, rest: string)
    ensures StripPrefixOrSelf("/" + s, "/") == s
    ensures s != "" && s[0] != '/' ==> StripPrefixOrSelf(s + rest, "/") == s + rest
  {
    assert ("/" + s)[1..] == s;
    assert s != "" ==> (s + rest)[0] == s[0];
  }

  /** A copy source names a bucket, and behind a slash a key whose escapes are valid UTF-8; neither is empty. */
  lemma {:induction false} SourceParsedExactly(bucket: string, encoded: string, version: Option<string>)
    requires bucket != "" && '/' !in bucket && FreeOf(bucket + "/" + encoded, "?versionId=")
    ensures ParseCopySource(bucket + "/" + encoded + VersionText(version))
         == match Utf8.Decode(PercentDecode(encoded))
            case None => Err(InvalidRequest)
            case Some(key) => if key == "" then Err(InvalidRequest) else Ok((bucket, key, if version == Some("") then None else version))
    ensures ParseCopySource("/" + (bucket + "/" + encoded + VersionText(version))) == ParseCopySource(bucket + "/" + encoded + VersionText(version))
  {
    var path := bucket + "/" + encoded;
    assert path[0] == bucket[0];
    WithOrWithoutSlash(path, VersionText(version));
    WithOrWithoutSlash(path + VersionText(version), "");
    VersionSplitOff(path + VersionText(version), path, version);
    VersionSplitOff("/" + (path + VersionText(version)), path, version);
    FreeOfChar(bucket, '/');
    SplitOnceAfterFree(bucket, "/", encoded);
  }

  /** Without a slash between two names, or without a name before it, it is no copy source. */
  lemma {:induction false} NoSource(name: string, encoded: string, version: Option<string>)
    requires '/' !in name && FreeOf(name, "?versionId=") && FreeOf("/" + encoded, "?versionId=")
    ensures name != "" ==> ParseCopySource(name + VersionText(version)) == Err(InvalidRequest)
    ensures ParseCopySource("/" + ("/" + encoded + VersionText(version))) == Err(InvalidRequest)
  {
    if name != "" {
      assert name[0] in name;
      WithOrWithoutSlash(name, VersionText(version));
      VersionSplitOff(name + VersionText(version), name, version);
      FreeOfChar(name, '/');
      FindNoneOfFree(name, "/");
    }
    WithOrWithoutSlash("/" + encoded + VersionText(version), "");
    VersionSplitOff("/" + ("/" + encoded + VersionText(version)), "/" + encoded, version);
    SlashFirst(encoded);
  }

  lemma SlashFirst(rest: string)
    ensures SplitOnce("/" + rest, "/") == Some(("", rest))
  {
    FreeOfChar("", '/');
    SplitOnceAfterFree("", "/", rest);
    assert "" + "/" + rest == "/" + rest;
  }

  /** A copy source that is not visible ASCII is refused, unless it was rewritten. */
  lemma {:induction false} UnreadableSource(bucket: string, key: string, query: Option<string>, header: string, i: nat)
    requires bucket != "" && '/' !in bucket
    requires i < |header| && header[i] != '\t' && !(' ' <= header[i] <= '~')
    ensures ParseS3Request(PUT, "/" + bucket + "/" + key, query, Some(header), PathStyle, None) == Err(InvalidRequest)
  {
    ParsePathOf(bucket, key);
    assert header[i] in header;
  }

  /**
    A PUT that names a copy source is a copy to the bucket and key of its path from the bucket,
    key and version of the source; the rewritten source counts where there is one; and with an
    upload id it is refused.
   */
  lemma {:induction false} CopyParsed(bucket: string, key: string, query: Option<string>, header: string, rewritten: Option<string>,
                                      srcBucket: string, srcKey: string, srcVersion: Option<string>)
    requires bucket != "" && '/' !in bucket && SourceNames(srcBucket, srcKey, srcVersion)
    requires forall i :: 0 <= i < |header| ==> ' ' <= header[i] <= '~' || header[i] == '\t'
    requires (if rewritten.Some? then rewritten.value else header) == SpelledSource(srcBucket, srcKey, srcVersion)
    ensures ParseS3Request(PUT, "/" + bucket + "/" + key, query, Some(header), PathStyle, rewritten)
         == if Given(query, "uploadId").Some? then Err(NotImplemented)
            else if !ValidKey(key) || !ValidKey(srcKey) then Err(InvalidRequest)
            else Ok(CopyObject(bucket, key, srcBucket, srcKey, srcVersion))
  {
    PathStyleRequest(PUT, bucket, key, query, Some(header), rewritten);
    SourceReadBack(srcBucket, srcKey, srcVersion);
    CopyBuilt(bucket, key, SpelledSource(srcBucket, srcKey, srcVersion), query, srcBucket, srcKey, srcVersion);
  }

  lemma {:induction false} PathStyleRequest(verb: Method, bucket: string, key: string, query: Option<string>, copyHeader: Option<string>,
                                            copyOverride: Option<string>)
    requires bucket != "" && '/' !in bucket
    ensures ParseS3Request(verb, "/" + bucket + "/" + key, query, copyHeader, PathStyle, copyOverride)
         == RequestFor(verb, bucket, key, query, copyHeader, copyOverride)
  {
    ParsePathOf(bucket, key);
  }

  lemma {:induction false} CopyBuilt(bucket: string, key: string, source: string, query: Option<string>,
                                     srcBucket: string, srcKey: string, srcVersion: Option<string>)
    requires ParseCopySource(source) == Ok((srcBucket, srcKey, srcVersion))
    ensures BuildCopyObject(bucket, key, source, query)
         == if Given(query, "uploadId").Some? then Err(NotImplemented)
            else if !ValidKey(key) || !ValidKey(srcKey) then Err(InvalidRequest)
            else Ok(CopyObject(bucket, key, srcBucket, srcKey, srcVersion))
  {
  }
}
