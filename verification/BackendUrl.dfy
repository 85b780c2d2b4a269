/** Printing an operation as a backend URL, the unsigned signer's URL, and the copy-source header. */
module BackendUrl {
  import opened Text
  import opened Percent
  import opened Types
  import opened Keys
  import opened Query

  /** The key as the raw-signed path writes it: any configured prefix is followed by a slash, even an empty one. */
  function RawKey(config: BucketConfig, key: string): string {
    if config.backendPrefix.None? then key else TrimEnd(config.backendPrefix.value, '/') + "/" + key
  }

  function Base(config: BucketConfig): string {
    TrimEnd(config.OptionOr("endpoint", ""), '/')
  }

  /** The query pairs an operation's URL carries, in order; a flag has an empty value. */
  function PairsOf(op: S3Operation): Pairs {
    match op
    case CreateMultipartUpload(_, _) => [("uploads", "")]
    case UploadPart(_, _, id, n) => [("partNumber", PrintNat(n)), ("uploadId", id)]
    case CompleteMultipartUpload(_, _, id) => [("uploadId", id)]
    case AbortMultipartUpload(_, _, id) => [("uploadId", id)]
    case DeleteObjects(_) => [("delete", "")]
    case _ => []
  }

  predicate CarriesUploadId(op: S3Operation) {
    op.UploadPart? || op.CompleteMultipartUpload? || op.AbortMultipartUpload?
  }

  function UrlQuery(op: S3Operation): string {
    if op.CreateMultipartUpload? then "?uploads"
    else if CarriesUploadId(op) then "?" + Serialize(PairsOf(op))
    else ""
  }

  /** Everything of the URL after the trimmed endpoint. */
  function UrlTail(config: BucketConfig, op: S3Operation): string {
    var bucket := config.OptionOr("bucket_name", "");
    if op.DeleteObjects? then SlashBucket(bucket) + "?delete"
    else SlashBucket(bucket) + "/" + PercentEncode(StrictPath, RawKey(config, op.ObjectKey())) + UrlQuery(op)
  }

  /** `build_backend_url` as a function. */
  function UrlOf(config: BucketConfig, op: S3Operation): Result<string, ProxyError> {
    if !op.DeleteObjects? && !ValidKey(op.ObjectKey()) then Err(InvalidRequest)
    else Ok(Base(config) + UrlTail(config, op))
  }

  lemma QuestionMarkFirst(head: string, qs: string)
    ensures head + "?" + qs == head + ("?" + qs)
  {
  }

  method AppendQuery(head: string, op: S3Operation) returns (url: string)
    requires !op.DeleteObjects?
    ensures url == head + UrlQuery(op)
  {
    url := head;
    if op.CreateMultipartUpload? {
      url := url + "?uploads";
    } else if CarriesUploadId(op) {
      var qs := Serialize(PairsOf(op));
      QuestionMarkFirst(head, qs);
      url := url + "?";
      url := url + qs;
    } else {
      assert url == head + "";
    }
  }

  method PushKey(config: BucketConfig, objectKey: string) returns (key: string)
    ensures key == RawKey(config, objectKey)
  {
    key := "";
    if config.backendPrefix.Some? {
      key := key + TrimEnd(config.backendPrefix.value, '/');
      key := key + "/";
    }
    key := key + objectKey;
  }

  method BuildBackendUrl(config: BucketConfig, op: S3Operation) returns (r: Result<string, ProxyError>)
    ensures r == UrlOf(config, op)
    ensures r.Err? <==> !op.DeleteObjects? && !ValidKey(op.ObjectKey())
    ensures r.Err? ==> r == Err(InvalidRequest)
  {
    var base := TrimEnd(config.OptionOr("endpoint", ""), '/');
    var bucket := config.OptionOr("bucket_name", "");
    if op.DeleteObjects? {
      AssembledBatch(base, bucket);
      return Ok(if bucket == "" then base + "?delete" else base + "/" + bucket + "?delete");
    }
    if !ValidKey(op.ObjectKey()) {
      return Err(InvalidRequest);
    }
    var key := PushKey(config, op.ObjectKey());
    key := PercentEncode(StrictPath, key);
    var url := if bucket == "" then base + "/" + key else base + "/" + bucket + "/" + key;
    AssembledKeyed(base, bucket, key, UrlQuery(op));
    url := AppendQuery(url, op);
    return Ok(url);
  }

  function SlashBucket(bucket: string): string {
    if bucket == "" then "" else "/" + bucket
  }

  lemma AssembledBatch(base: string, bucket: string)
    ensures (if bucket == "" then base + "?delete" else base + "/" + bucket + "?delete")
         == base + (SlashBucket(bucket) + "?delete")
  {
    if bucket == "" {
      assert "" + "?delete" == "?delete";
    } else {
      assert base + "/" + bucket + "?delete" == base + (("/" + bucket) + "?delete");
    }
  }

  lemma AssembledKeyed(base: string, bucket: string, key: string, query: string)
    ensures (if bucket == "" then base + "/" + key else base + "/" + bucket + "/" + key) + query
         == base + (SlashBucket(bucket) + "/" + key + query)
  {
    if bucket == "" {
      assert "" + "/" == "/";
      assert base + "/" + key + query == base + ("/" + key + query);
    } else {
      assert base + "/" + bucket + "/" + key + query == base + (("/" + bucket) + "/" + key + query);
    }
  }

  // ---- The presigned route without credentials.

  function BuildObjectPath(config: BucketConfig, key: string): Result<string, ProxyError> {
    match ParsePath(ApplyBackendPrefix(config, key))
    case Some(path) => Ok(path)
    case None => Err(InvalidRequest)
  }

  datatype UnsignedSigner = UnsignedSigner(endpoint: string, bucket: string) {

    static function FromConfig(config: BucketConfig): UnsignedSigner {
      match config.backendType
      case Azure =>
        UnsignedSigner("https://" + config.OptionOr("account_name", "") + ".blob.core.windows.net",
                       config.OptionOr("container_name", ""))
      case Gcs => UnsignedSigner("https://storage.googleapis.com", config.OptionOr("bucket_name", ""))
      case S3 =>
        UnsignedSigner(TrimEnd(config.OptionOr("endpoint", "https://s3.amazonaws.com"), '/'),
                       config.OptionOr("bucket_name", ""))
    }

    function SignedUrl(path: string): string {
      var key := PercentEncode(StrictPath, path);
      if bucket == "" then
        if key == "" then endpoint + "/" else endpoint + "/" + key
      else if key == "" then endpoint + "/" + bucket
      else endpoint + "/" + bucket + "/" + key
    }
  }

  // ---- Copy source.

  function BuildCopySourceHeader(config: BucketConfig, key: string, version: Option<string>): Result<string, ProxyError> {
    var bucket := config.OptionOr("bucket_name", "");
    if bucket == "" then Err(NotImplemented)
    else
      var encoded := PercentEncode(StrictPath, ApplyBackendPrefix(config, key));
      Ok("/" + bucket + "/" + encoded + (if version.Some? then "?versionId=" + version.value else ""))
  }

  // ---- The unsigned routes, spelled out.

  /** Where an object of a backend is read without credentials: account and container for Azure, the public host for GCS. */
  lemma UnsignedUrls(config: BucketConfig, path: string)
    requires PercentEncode(StrictPath, path) != ""
    ensures var url := UnsignedSigner.FromConfig(config).SignedUrl(path);
            var key := PercentEncode(StrictPath, path);
            && (config.backendType.Azure? && config.OptionOr("container_name", "") != "" ==>
                url == "https://" + config.OptionOr("account_name", "") + ".blob.core.windows.net" + "/"
                       + config.OptionOr("container_name", "") + "/" + key)
            && (config.backendType.Gcs? && config.OptionOr("bucket_name", "") != "" ==>
                url == "https://storage.googleapis.com" + "/" + config.OptionOr("bucket_name", "") + "/" + key)
            && (config.backendType.S3? && config.OptionOr("bucket_name", "") != "" && "endpoint" !in config.options ==>
                url == "https://s3.amazonaws.com" + "/" + config.OptionOr("bucket_name", "") + "/" + key)
  {
    assert "https://s3.amazonaws.com"[|"https://s3.amazonaws.com"| - 1] == 'm';
    TrimEndOfTrimmed("https://s3.amazonaws.com", '/');
  }

  /** A copy source can be written exactly for a backend with a bucket. */
  /** Without an object or without a bucket, what is there follows the endpoint behind a slash. */
  lemma EmptyParts(signer: UnsignedSigner, path: string)
    ensures signer.SignedUrl("") == signer.endpoint + "/" + signer.bucket
    ensures signer.bucket == "" ==> signer.SignedUrl(path) == signer.endpoint + "/" + PercentEncode(StrictPath, path)
  {
    assert signer.endpoint + "/" + "" == signer.endpoint + "/";
  }

  lemma CopySourceWritten(config: BucketConfig, key: string, version: Option<string>)
    ensures BuildCopySourceHeader(config, key, version).Ok? <==> config.OptionOr("bucket_name", "") != ""
    ensures BuildCopySourceHeader(config, key, version).Err? ==> BuildCopySourceHeader(config, key, version) == Err(NotImplemented)
  {
  }
}
