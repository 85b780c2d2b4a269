/** The header-signed streaming PUT: the seed is signed, framing headers are added unsigned. */
module StreamingForward {
  import opened Text
  import opened Types
  import Requests
  import opened BackendUrl
  import opened SigV4
  import opened SigningProofs
  import opened SignatureBinding

  const AWS_CHUNKED_FORWARD_HEADERS: seq<string> :=
    ["content-type", "content-encoding", "x-amz-decoded-content-length", "x-amz-trailer", "if-match", "if-none-match"]

  const PLAIN_PART_FORWARD_HEADERS: seq<string> :=
    ["content-type", "content-md5", "x-amz-sdk-checksum-algorithm", "x-amz-checksum-crc32", "x-amz-checksum-crc32c",
     "x-amz-checksum-crc64nvme", "x-amz-checksum-sha1", "x-amz-checksum-sha256"]

  predicate HasCredentials(config: BucketConfig) {
    config.OptionOr("access_key_id", "") != "" && config.OptionOr("secret_access_key", "") != ""
  }

  function SignerOf(config: BucketConfig): Signer {
    Signer(config.OptionOr("access_key_id", ""), config.OptionOr("secret_access_key", ""),
           config.OptionOr("region", "us-east-1"), "s3",
           if "token" in config.options then Some(config.options["token"]) else None)
  }

  /** `sign_s3_request`: without credentials only the host is set. */
  method SignS3Request(crypto: Crypto, verb: string, url: Url, headers: HeaderMap, config: BucketConfig, payloadHash: string, now: Clock)
    returns (r: Result<(), ProxyError>)
    modifies headers
    ensures r.Ok? <==> url.host.Some?
    ensures r.Ok? ==>
              headers.fields == if config.OptionOr("access_key_id", "") != "" && config.OptionOr("secret_access_key", "") != ""
                                then SignedFields(crypto, SignerOf(config), verb, url, old(headers.fields), payloadHash, now)
                                else old(headers.fields)["host" := HostHeader(url)]
  {
    if HasCredentials(config) {
      r := SignRequest(crypto, SignerOf(config), verb, url, headers, payloadHash, now);
    } else if url.host.None? {
      r := Err(Internal);
    } else {
      headers.Insert("host", HostHeader(url));
      r := Ok(());
    }
  }

  /** The headers forwarded and signed. */
  function Seed(names: seq<string>, original: Fields): Fields {
    map n | n in names && n in original :: original[n]
  }

  /** The headers forwarded but not signed. */
  function Unsigned(original: Fields, userAgent: string): Fields {
    var agent := map["user-agent" := userAgent];
    if "content-length" in original then agent["content-length" := original["content-length"]] else agent
  }

  /** The part of the streaming forward before the signature: the named headers the client sent. */
  method CollectSeed(names: seq<string>, original: Fields) returns (headers: HeaderMap)
    ensures fresh(headers) && headers.fields == Seed(names, original)
  {
    headers := new HeaderMap();
    for i := 0 to |names|
      invariant fresh(headers) && headers.fields == Seed(names[..i], original)
    {
      if names[i] in original {
        headers.Insert(names[i], original[names[i]]);
      }
      assert names[..i + 1] == names[..i] + [names[i]];
    }
    assert names[..|names|] == names;
  }

  lemma UnsignedAdded(signed: Fields, original: Fields, userAgent: string)
    ensures "content-length" in original ==>
              signed["content-length" := original["content-length"]]["user-agent" := userAgent]
              == signed + Unsigned(original, userAgent)
    ensures "content-length" !in original ==> signed["user-agent" := userAgent] == signed + Unsigned(original, userAgent)
  {
  }

  /**
    `parse` reads the printed URL. With credentials the named headers are signed and the length
    and user agent added after; without, only the host is set before they are added.
   */
  method BuildStreamingForward(crypto: Crypto, config: BucketConfig, op: S3Operation, parse: string -> Option<Url>,
                               payloadHash: string, names: seq<string>, original: Fields, userAgent: string, now: Clock)
    returns (headers: HeaderMap, url: Option<Url>, r: Result<(), ProxyError>)
    ensures fresh(headers)
    ensures r.Ok? <==> UrlOf(config, op).Ok? && parse(UrlOf(config, op).value).Some? && parse(UrlOf(config, op).value).value.host.Some?
    ensures r.Ok? ==>
              && url == parse(UrlOf(config, op).value)
              && headers.fields == (if config.OptionOr("access_key_id", "") != "" && config.OptionOr("secret_access_key", "") != ""
                                    then SignedFields(crypto, SignerOf(config), "PUT", url.value, Seed(names, original), payloadHash, now)
                                    else Seed(names, original)["host" := HostHeader(url.value)])
                                   + Unsigned(original, userAgent)
  {
    headers := new HeaderMap();
    url := None;
    var text := BuildBackendUrl(config, op);
    if text.Err? {
      return headers, None, Err(text.error);
    }
    url := parse(text.value);
    if url.None? {
      return headers, None, Err(Internal);
    }
    headers := CollectSeed(names, original);
    r := SignS3Request(crypto, "PUT", url.value, headers, config, payloadHash, now);
    if r.Err? {
      return;
    }
    UnsignedAdded(headers.fields, original, userAgent);
    if "content-length" in original {
      headers.Insert("content-length", original["content-length"]);
    }
    headers.Insert("user-agent", userAgent);
  }

  predicate TokenName(n: string) {
    n != "" && ';' !in n && ',' !in n
  }

  /** Names that are signed tokens and are neither the signature nor added after it. */
  predicate ForwardableNames(names: seq<string>) {
    forall i :: 0 <= i < |names| ==>
      TokenName(names[i]) && names[i] != "authorization" && names[i] != "content-length" && names[i] != "user-agent"
  }

  lemma {:induction false} ChunkedNamesForwardable()
    ensures ForwardableNames(AWS_CHUNKED_FORWARD_HEADERS)
  {
    NamesApart();
  }

  lemma {:induction false} PlainPartNamesForwardable()
    ensures ForwardableNames(PLAIN_PART_FORWARD_HEADERS)
  {
    NamesApart();
  }

  lemma NamesApart()
    ensures "authorization"[0] == 'a' && "content-length"[8] == 'l' && "user-agent"[0] == 'u'
  {
  }

  /** The backend, holding the same secret, reads the signer's header and expects its very signature. */
  predicate Accepted(crypto: Crypto, signer: Signer, url: Url, received: Fields, payloadHash: string) {
    && "authorization" in received
    && var auth := ParsedAuth(received["authorization"]);
    && auth.Ok? && auth.value.accessKeyId == signer.accessKeyId
    && auth.value.signature
       == ExpectedSignature(crypto, "PUT", url.path, url.query, received, auth.value, signer.secretAccessKey, payloadHash)
  }

  ghost predicate ReadableSigner(s: Signer) {
    '/' !in s.accessKeyId && '/' !in s.region && !HasCommaSpace(s.accessKeyId) && !HasCommaSpace(s.region)
  }

  /** The backend accepts the forwarded request with its unsigned headers. */
  lemma {:induction false} ForwardedRequestVerifies(crypto: Crypto, config: BucketConfig, url: Url, payloadHash: string,
                                                    names: seq<string>, original: Fields, userAgent: string, now: Clock)
    requires url.host.Some? && ForwardableNames(names)
    requires GoodStamp(now.dateStamp) && Requests.VisibleAscii(now.amzDate) && ReadableSigner(SignerOf(config))
    ensures var s := SignerOf(config);
            var received := SignedFields(crypto, s, "PUT", url, Seed(names, original), payloadHash, now) + Unsigned(original, userAgent);
            Accepted(crypto, s, url, received, payloadHash)
  {
    var seed, added := Seed(names, original), Unsigned(original, userAgent);
    SeedNames(names, original);
    UnsignedApart(SignerOf(config), url, seed, payloadHash, now, original, userAgent);
    SignThenVerify(crypto, SignerOf(config), "PUT", url, seed, payloadHash, now, added);
  }

  /** Both streaming writes are accepted: the re-framed body and the part passed through, whatever the client sent. */
  lemma {:induction false} StreamedWritesVerify(crypto: Crypto, config: BucketConfig, url: Url, payloadHash: string, original: Fields,
                                                userAgent: string, now: Clock)
    requires url.host.Some? && GoodStamp(now.dateStamp) && Requests.VisibleAscii(now.amzDate) && ReadableSigner(SignerOf(config))
    ensures forall names :: names in {AWS_CHUNKED_FORWARD_HEADERS, PLAIN_PART_FORWARD_HEADERS} ==>
              var s := SignerOf(config);
              var received := SignedFields(crypto, s, "PUT", url, Seed(names, original), payloadHash, now) + Unsigned(original, userAgent);
              Accepted(crypto, s, url, received, payloadHash)
  {
    ChunkedNamesForwardable();
    PlainPartNamesForwardable();
    ForwardedRequestVerifies(crypto, config, url, payloadHash, AWS_CHUNKED_FORWARD_HEADERS, original, userAgent, now);
    ForwardedRequestVerifies(crypto, config, url, payloadHash, PLAIN_PART_FORWARD_HEADERS, original, userAgent, now);
  }

  lemma {:induction false} SeedNames(names: seq<string>, original: Fields)
    requires ForwardableNames(names)
    ensures TokenNames(Seed(names, original))
    ensures "authorization" !in Seed(names, original) && "content-length" !in Seed(names, original)
    ensures "user-agent" !in Seed(names, original)
  {
  }

  lemma {:induction false} UnsignedApart(signer: Signer, url: Url, seed: Fields, payloadHash: string, now: Clock,
                                         original: Fields, userAgent: string)
    requires url.host.Some? && "content-length" !in seed && "user-agent" !in seed
    ensures Unsigned(original, userAgent).Keys !! Prepared(signer, url, seed, payloadHash, now).Keys
    ensures "authorization" !in Unsigned(original, userAgent)
  {
    var keys := Prepared(signer, url, seed, payloadHash, now).Keys;
    PreparedKeys(signer, url, seed, payloadHash, now);
    assert "content-length"[0] == 'c' && "user-agent"[0] == 'u' && "authorization"[0] == 'a';
    assert "x-amz-date"[0] == 'x' && "x-amz-content-sha256"[0] == 'x' && "x-amz-security-token"[0] == 'x' && "host"[0] == 'h';
  }

  // ---- What is forwarded, and under whose name.

  /** The seed with what the signer sets, and nothing else. */
  ghost predicate Carries(signer: Signer, seed: Fields, signed: Fields) {
    && (forall k :: k in seed && !Added(signer, k) ==> k in signed && signed[k] == seed[k])
    && (forall k :: k in signed ==> k in seed || Added(signer, k))
  }

  /** The named headers of the client, what the signer sets, the length the client gave and the gateway's user agent, and nothing else. */
  ghost predicate CarriesOriginal(signer: Signer, names: seq<string>, original: Fields, userAgent: string, length: string, agent: string,
                                  sent: Fields)
  {
    && (forall k :: k in names && k in original && !Added(signer, k) && k != length && k != agent ==> k in sent && sent[k] == original[k])
    && (forall k :: k in sent ==> (k in names && k in original) || Added(signer, k) || k == agent || (k == length && k in original))
    && (length in original ==> length in sent && sent[length] == original[length])
    && agent in sent && sent[agent] == userAgent
  }

  lemma JoinedCarries(signer: Signer, names: seq<string>, original: Fields, userAgent: string, length: string, agent: string,
                      signed: Fields, added: Fields)
    requires Carries(signer, Seed(names, original), signed) && length != agent
    requires added == if length in original then map[agent := userAgent][length := original[length]] else map[agent := userAgent]
    ensures CarriesOriginal(signer, names, original, userAgent, length, agent, signed + added)
  {
  }

  lemma {:induction false} SignedCarries(crypto: Crypto, signer: Signer, url: Url, seed: Fields, payloadHash: string, now: Clock)
    requires url.host.Some?
    ensures Carries(signer, seed, SignedFields(crypto, signer, "PUT", url, seed, payloadHash, now))
  {
    SignedFieldsAre(crypto, signer, "PUT", url, seed, payloadHash, now);
  }

  /**
    The forwarded request carries every named header that the client sent, with its value, the
    body's length as the client gave it, the gateway's own user agent, and what the signer
    sets; of the client's headers, nothing else.
   */
  lemma {:induction false} ForwardedHeadersExactly(crypto: Crypto, config: BucketConfig, url: Url, payloadHash: string, names: seq<string>,
                                                   original: Fields, userAgent: string, now: Clock)
    requires url.host.Some?
    ensures var s := SignerOf(config);
            var sent := SignedFields(crypto, s, "PUT", url, Seed(names, original), payloadHash, now) + Unsigned(original, userAgent);
            CarriesOriginal(s, names, original, userAgent, "content-length", "user-agent", sent)
  {
    var s := SignerOf(config);
    SignedCarries(crypto, s, url, Seed(names, original), payloadHash, now);
    assert "content-length"[0] == 'c' && "user-agent"[0] == 'u';
    JoinedCarries(s, names, original, userAgent, "content-length", "user-agent",
                  SignedFields(crypto, s, "PUT", url, Seed(names, original), payloadHash, now), Unsigned(original, userAgent));
  }

  lemma {:induction false} CarriesIfNamed(signer: Signer, names: seq<string>, original: Fields, userAgent: string, length: string, agent: string,
                                          sent: Fields, name: string)
    requires CarriesOriginal(signer, names, original, userAgent, length, agent, sent)
    requires name in original && !Added(signer, name) && name != length && name != agent
    ensures name in sent <==> name in names
    ensures name in sent ==> sent[name] == original[name]
  {
  }

  lemma {:induction false} ForwardsNamed(crypto: Crypto, config: BucketConfig, url: Url, payloadHash: string, names: seq<string>,
                                         original: Fields, userAgent: string, now: Clock, name: string)
    requires url.host.Some? && name in original && !Added(SignerOf(config), name) && name != "content-length" && name != "user-agent"
    ensures var sent := SignedFields(crypto, SignerOf(config), "PUT", url, Seed(names, original), payloadHash, now) + Unsigned(original, userAgent);
            && (name in sent <==> name in names)
            && (name in sent ==> sent[name] == original[name])
  {
    ForwardedHeadersExactly(crypto, config, url, payloadHash, names, original, userAgent, now);
    CarriesIfNamed(SignerOf(config), names, original, userAgent, "content-length", "user-agent",
                   SignedFields(crypto, SignerOf(config), "PUT", url, Seed(names, original), payloadHash, now) + Unsigned(original, userAgent),
                   name);
  }

  lemma OneOf(n: string, a: string, b: string, c: string, d: string, e: string, f: string, g: string, h: string)
    ensures n in [a, b, c, d, e, f] <==> n == a || n == b || n == c || n == d || n == e || n == f
    ensures n in [a, b, c, d, e, f, g, h] <==> n == a || n == b || n == c || n == d || n == e || n == f || n == g || n == h
  {
  }

  /** Of a chunked write, what describes the chunks and the conditions of the write reach the backend as the client sent them. */
  lemma {:induction false} ChunkedCarriesExactly(crypto: Crypto, config: BucketConfig, url: Url, payloadHash: string, original: Fields,
                                                 userAgent: string, now: Clock, name: string)
    requires url.host.Some? && name in original && !Added(SignerOf(config), name) && name != "content-length" && name != "user-agent"
    ensures var sent := SignedFields(crypto, SignerOf(config), "PUT", url, Seed(AWS_CHUNKED_FORWARD_HEADERS, original), payloadHash, now)
                        + Unsigned(original, userAgent);
            && (name in sent ==> sent[name] == original[name])
            && (name in sent
                <==> || name == "if-match" || name == "if-none-match"
                     || name == "x-amz-decoded-content-length" || name == "x-amz-trailer"
                     || name == "content-type" || name == "content-encoding")
  {
    ForwardsNamed(crypto, config, url, payloadHash, AWS_CHUNKED_FORWARD_HEADERS, original, userAgent, now, name);
    OneOf(name, "content-type", "content-encoding", "x-amz-decoded-content-length", "x-amz-trailer", "if-match", "if-none-match", "", "");
  }

  /** Of a plain part, its type and every checksum do. */
  lemma {:induction false} PartCarriesExactly(crypto: Crypto, config: BucketConfig, url: Url, payloadHash: string, original: Fields,
                                              userAgent: string, now: Clock, name: string)
    requires url.host.Some? && name in original && !Added(SignerOf(config), name) && name != "content-length" && name != "user-agent"
    ensures var sent := SignedFields(crypto, SignerOf(config), "PUT", url, Seed(PLAIN_PART_FORWARD_HEADERS, original), payloadHash, now)
                        + Unsigned(original, userAgent);
            && (name in sent ==> sent[name] == original[name])
            && (name in sent
                <==> || name == "content-type" || name == "content-md5" || name == "x-amz-sdk-checksum-algorithm"
                     || name == "x-amz-checksum-crc32" || name == "x-amz-checksum-crc32c" || name == "x-amz-checksum-crc64nvme"
                     || name == "x-amz-checksum-sha1" || name == "x-amz-checksum-sha256")
  {
    ForwardsNamed(crypto, config, url, payloadHash, PLAIN_PART_FORWARD_HEADERS, original, userAgent, now, name);
    OneOf(name, "content-type", "content-md5", "x-amz-sdk-checksum-algorithm", "x-amz-checksum-crc32", "x-amz-checksum-crc32c",
          "x-amz-checksum-crc64nvme", "x-amz-checksum-sha1", "x-amz-checksum-sha256");
  }

  /** The request is signed with the credentials, the region and the token of the backend's options, for S3, and so is every header of the seed. */
  lemma {:induction false} ForwardedCredential(crypto: Crypto, config: BucketConfig, url: Url, payloadHash: string, names: seq<string>,
                                               original: Fields, now: Clock)
    requires url.host.Some? && ForwardableNames(names)
    requires GoodStamp(now.dateStamp) && Requests.VisibleAscii(now.amzDate) && ReadableSigner(SignerOf(config))
    ensures var signed := SignedFields(crypto, SignerOf(config), "PUT", url, Seed(names, original), payloadHash, now);
            && "authorization" in signed
            && var auth := ParsedAuth(signed["authorization"]);
            && auth.Ok? && auth.value.accessKeyId == config.OptionOr("access_key_id", "")
            && auth.value.region == config.OptionOr("region", "us-east-1") && auth.value.service == "s3"
            && forall n :: n in signed && n != "authorization" ==> n in auth.value.signedHeaders
  {
    var s := SignerOf(config);
    SeedNames(names, original);
    NoCommasOrSlashes("s3");
    SignedFieldsAre(crypto, s, "PUT", url, Seed(names, original), payloadHash, now);
    SignsEverything(crypto, s, "PUT", url, Seed(names, original), payloadHash, now);
  }

  lemma NoCommasOrSlashes(service: string)
    requires service == "s3"
    ensures GoodStamp(service)
  {
  }

  /** The secret and the token are those of the backend's options, and the token is sent. */
  lemma {:induction false} ForwardedSecrets(crypto: Crypto, config: BucketConfig, url: Url, payloadHash: string, seed: Fields, now: Clock)
    requires url.host.Some?
    ensures SignerOf(config).secretAccessKey == config.OptionOr("secret_access_key", "")
    ensures var signed := SignedFields(crypto, SignerOf(config), "PUT", url, seed, payloadHash, now);
            && "x-amz-content-sha256" in signed && signed["x-amz-content-sha256"] == payloadHash
            && ("token" in config.options ==>
                "x-amz-security-token" in signed && signed["x-amz-security-token"] == config.options["token"])
  {
    SignedFieldsAre(crypto, SignerOf(config), "PUT", url, seed, payloadHash, now);
  }
}
