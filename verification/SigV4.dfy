/**
  Signature Version 4, both halves: the signer of outbound requests and the verifier of
  inbound ones. Hash and HMAC are any functions on bytes.
 */
module SigV4 {
  import opened Text
  import opened Ordering
  import Utf8
  import opened Percent
  import opened Types
  import opened Requests
  import opened QueryCanonical

  type Bytes = seq<Utf8.Byte>

  datatype Crypto = Crypto(sha256: Bytes -> Bytes, hmac: (Bytes, Bytes) -> Bytes)

  type Fields = map<string, string>

  class HeaderMap {
    var fields: Fields

    constructor ()
      ensures fields == map[]
    {
      fields := map[];
    }

    method Insert(name: string, value: string)
      modifies this
      ensures fields == old(fields)[name := value]
    {
      fields := fields[name := value];
    }
  }

  datatype Url = Url(host: Option<string>, port: Option<string>, path: string, query: string)

  datatype Clock = Clock(dateStamp: string, amzDate: string)

  datatype Signer = Signer(accessKeyId: string, secretAccessKey: string, region: string, service: string,
                           sessionToken: Option<string>)

  datatype SigV4Auth = SigV4Auth(accessKeyId: string, dateStamp: string, region: string, service: string,
                                 signedHeaders: seq<string>, signature: string)

  // ---- What both halves compute.

  /** Lower-case hexadecimal, two digits a byte. */
  function Hex(bs: Bytes): (r: string)
    ensures forall c :: c in r ==> '0' <= c <= '9' || 'a' <= c <= 'f'
    ensures forall c :: c in r ==> IsAlphanumeric(c)
  {
    if bs == [] then "" else [LowerHex(bs[0] / 16), LowerHex(bs[0] % 16)] + Hex(bs[1..])
  }

  function LowerHex(n: nat): (c: char)
    requires n < 16
    ensures '0' <= c <= '9' || 'a' <= c <= 'f'
  {
    if n < 10 then '0' + n as char else 'a' + (n - 10) as char
  }

  predicate IsBlank(c: char) {
    c == ' ' || c == '\t'
  }

  function TrimBlanks(s: string): string {
    if s == "" then ""
    else if IsBlank(s[0]) then TrimBlanks(s[1..])
    else if IsBlank(s[|s| - 1]) then TrimBlanks(s[..|s| - 1])
    else s
  }

  /** `get(name).to_str()` or nothing: values outside visible ASCII read as empty. */
  function HeaderText(fields: Fields, name: string): string {
    if name in fields && VisibleAscii(fields[name]) then fields[name] else ""
  }

  function CanonicalHeaders(names: seq<string>, fields: Fields): string {
    if names == [] then ""
    else names[0] + ":" + TrimBlanks(HeaderText(fields, names[0])) + "\n" + CanonicalHeaders(names[1..], fields)
  }

  function CanonicalRequest(verb: string, path: string, query: string, names: seq<string>, fields: Fields,
                            payloadHash: string): string
  {
    verb + "\n" + path + "\n" + Canonical(query) + "\n" + CanonicalHeaders(names, fields) + "\n"
    + Join(names, ";") + "\n" + payloadHash
  }

  function Scope(dateStamp: string, region: string, service: string): string {
    Join([dateStamp, region, service, "aws4_request"], "/")
  }

  function Signature(crypto: Crypto, secret: string, dateStamp: string, region: string, service: string,
                     amzDate: string, request: string): string
  {
    var text := "AWS4-HMAC-SHA256\n" + amzDate + "\n" + Scope(dateStamp, region, service) + "\n"
                + Hex(crypto.sha256(Utf8.Encode(request)));
    var kDate := crypto.hmac(Utf8.Encode("AWS4" + secret), Utf8.Encode(dateStamp));
    var kRegion := crypto.hmac(kDate, Utf8.Encode(region));
    var kService := crypto.hmac(kRegion, Utf8.Encode(service));
    var key := crypto.hmac(kService, Utf8.Encode("aws4_request"));
    Hex(crypto.hmac(key, Utf8.Encode(text)))
  }

  // ---- The signer.

  function HostHeader(url: Url): string
    requires url.host.Some?
  {
    if url.port.Some? then url.host.value + ":" + url.port.value else url.host.value
  }

  function Dated(signer: Signer, fields: Fields, payloadHash: string, now: Clock): Fields {
    var dated := fields["x-amz-date" := now.amzDate]["x-amz-content-sha256" := payloadHash];
    if signer.sessionToken.Some? then dated["x-amz-security-token" := signer.sessionToken.value] else dated
  }

  /** The headers that are signed: everything there is once the required ones are in. */
  function Prepared(signer: Signer, url: Url, fields: Fields, payloadHash: string, now: Clock): Fields
    requires url.host.Some?
  {
    Dated(signer, fields, payloadHash, now)["host" := HostHeader(url)]
  }

  ghost function AuthHeader(crypto: Crypto, signer: Signer, verb: string, url: Url, prepared: Fields, payloadHash: string,
                            now: Clock): string
  {
    var names := SortedKeys(prepared.Keys);
    var request := CanonicalRequest(verb, url.path, url.query, names, prepared, payloadHash);
    AuthText(signer.accessKeyId, now.dateStamp, signer.region, signer.service, names,
             Signature(crypto, signer.secretAccessKey, now.dateStamp, signer.region, signer.service, now.amzDate, request))
  }

  function AuthText(accessKeyId: string, dateStamp: string, region: string, service: string, names: seq<string>,
                    signature: string): string
  {
    "AWS4-HMAC-SHA256 " + ("Credential=" + (accessKeyId + "/" + Scope(dateStamp, region, service)) + ", "
    + ("SignedHeaders=" + Join(names, ";") + ", " + ("Signature=" + signature)))
  }

  ghost function SignedFields(crypto: Crypto, signer: Signer, verb: string, url: Url, fields: Fields, payloadHash: string,
                              now: Clock): Fields
    requires url.host.Some?
  {
    var prepared := Prepared(signer, url, fields, payloadHash, now);
    prepared["authorization" := AuthHeader(crypto, signer, verb, url, prepared, payloadHash, now)]
  }

  method SortNames(fields: Fields) returns (names: seq<string>)
    ensures names == SortedKeys(fields.Keys)
  {
    names := [];
    var left := fields.Keys;
    while left != {}
      invariant left <= fields.Keys && Enumerates(names, fields.Keys - left)
      decreases left
    {
      var k :| k in left;
      var names' := InsertSorted(k, names);
      InsertEnumerates(k, names, fields.Keys - left);
      assert fields.Keys - left + {k} == fields.Keys - (left - {k});
      names, left := names', left - {k};
    }
    assert fields.Keys - left == fields.Keys;
    SortedKeysUnique(names, fields.Keys);
  }

  lemma {:induction false} InsertEnumerates(k: string, names: seq<string>, keys: set<string>)
    requires Enumerates(names, keys) && k !in keys
    ensures Enumerates(InsertSorted(k, names), keys + {k})
  {
    var r := InsertSorted(k, names);
    forall x
      ensures x in r <==> x in keys + {k}
    {
      assert x in r <==> x in multiset(r);
      assert x in names <==> x in multiset(names);
    }
    assert Sorted(names) by {
      assert forall i, j :: 0 <= i < j < |names| ==> Less(names[i], names[j]);
    }
    InsertKeepsSorted(k, names);
    InsertDistinct(k, names);
  }

  lemma {:induction false} InsertDistinct(k: string, names: seq<string>)
    requires StrictlySorted(names) && k !in names && Sorted(InsertSorted(k, names))
    ensures StrictlySorted(InsertSorted(k, names))
  {
    if names != [] {
      var r := InsertSorted(k, names);
      LessTotal(names[0], k);
      if Less(names[0], k) {
        var tail := InsertSorted(k, names[1..]);
        assert forall i :: 0 <= i < |tail| ==> tail[i] == r[i + 1];
        assert forall i :: 0 <= i < |names[1..]| ==> names[1..][i] == names[i + 1];
        InsertDistinct(k, names[1..]);
        forall j | 0 < j < |r|
          ensures r[0] != r[j]
        {
          assert r[j] in multiset(tail);
          assert r[j] == k || r[j] in names[1..];
          if r[j] in names[1..] {
            var i :| 0 <= i < |names[1..]| && names[1..][i] == r[j];
            assert Less(names[0], names[i + 1]);
            LessTotal(names[0], names[i + 1]);
          }
        }
      } else {
        forall j | 0 < j < |r|
          ensures r[0] != r[j]
        {
          assert r[j] == names[j - 1];
        }
      }
    }
  }

  /** Adds the required headers, then signs everything present. */
  method SignRequest(crypto: Crypto, signer: Signer, verb: string, url: Url, headers: HeaderMap, payloadHash: string, now: Clock)
    returns (r: Result<(), ProxyError>)
    modifies headers
    ensures r.Ok? <==> url.host.Some?
    ensures r.Ok? ==> headers.fields == SignedFields(crypto, signer, verb, url, old(headers.fields), payloadHash, now)
    ensures r.Err? ==> headers.fields == Dated(signer, old(headers.fields), payloadHash, now)
  {
    headers.Insert("x-amz-date", now.amzDate);
    headers.Insert("x-amz-content-sha256", payloadHash);
    if signer.sessionToken.Some? {
      headers.Insert("x-amz-security-token", signer.sessionToken.value);
    }
    if url.host.None? {
      return Err(Internal);
    }
    headers.Insert("host", HostHeader(url));
    var names := SortNames(headers.fields);
    var request := CanonicalRequest(verb, url.path, url.query, names, headers.fields, payloadHash);
    var signature := Signature(crypto, signer.secretAccessKey, now.dateStamp, signer.region, signer.service,
                               now.amzDate, request);
    headers.Insert("authorization",
                   AuthText(signer.accessKeyId, now.dateStamp, signer.region, signer.service, names, signature));
    return Ok(());
  }

  // ---- The verifier.

  function LastStripped(parts: seq<string>, tag: string, current: Option<string>): Option<string> {
    if parts == [] then current
    else LastStripped(parts[1..], tag, if tag <= parts[0] then Some(parts[0][|tag|..]) else current)
  }

  const SCHEME: string := "AWS4-HMAC-SHA256 "
  const CREDENTIAL: string := "Credential="
  const SIGNED_HEADERS: string := "SignedHeaders="
  const SIGNATURE: string := "Signature="

  function AuthFrom(credential: Option<string>, signedHeaders: Option<string>, signature: Option<string>): Result<SigV4Auth, ProxyError> {
    if credential.None? || signedHeaders.None? || signature.None? then Err(InvalidRequest)
    else
      var cred := Split(credential.value, "/");
      if |cred| != 5 || cred[4] != "aws4_request" then Err(InvalidRequest)
      else Ok(SigV4Auth(cred[0], cred[1], cred[2], cred[3], Split(signedHeaders.value, ";"), signature.value))
  }

  function ParsedAuth(header: string): Result<SigV4Auth, ProxyError> {
    match StripPrefix(header, SCHEME)
    case None => Err(InvalidRequest)
    case Some(text) =>
      var parts := Split(text, ", ");
      AuthFrom(LastStripped(parts, CREDENTIAL, None), LastStripped(parts, SIGNED_HEADERS, None),
               LastStripped(parts, SIGNATURE, None))
  }

  lemma {:induction false} LastStrippedAppend(parts: seq<string>, p: string, tag: string, current: Option<string>)
    ensures LastStripped(parts + [p], tag, current)
         == if tag <= p then Some(p[|tag|..]) else LastStripped(parts, tag, current)
  {
    if parts == [] {
      assert parts + [p] == [p];
      assert [p][1..] == [];
    } else {
      assert (parts + [p])[1..] == parts[1..] + [p];
      LastStrippedAppend(parts[1..], p, tag, if tag <= parts[0] then Some(parts[0][|tag|..]) else current);
    }
  }

  lemma TagsExclude(p: string)
    ensures !(CREDENTIAL <= p && SIGNED_HEADERS <= p) && !(CREDENTIAL <= p && SIGNATURE <= p)
    ensures !(SIGNED_HEADERS <= p && SIGNATURE <= p)
  {
    assert CREDENTIAL <= p ==> p[0] == CREDENTIAL[0] == 'C';
    assert SIGNED_HEADERS <= p ==> p[0] == SIGNED_HEADERS[0] == 'S' && p[4] == SIGNED_HEADERS[4] == 'e';
    assert SIGNATURE <= p ==> p[0] == SIGNATURE[0] == 'S' && p[4] == SIGNATURE[4] == 'a';
  }

  method ParseSigV4Auth(header: string) returns (r: Result<SigV4Auth, ProxyError>)
    ensures r == ParsedAuth(header)
  {
    var stripped := StripPrefix(header, SCHEME);
    if stripped.None? {
      return Err(InvalidRequest);
    }
    var credential, signedHeaders, signature: Option<string> := None, None, None;
    var parts := Split(stripped.value, ", ");
    for i := 0 to |parts|
      invariant credential == LastStripped(parts[..i], CREDENTIAL, None)
      invariant signedHeaders == LastStripped(parts[..i], SIGNED_HEADERS, None)
      invariant signature == LastStripped(parts[..i], SIGNATURE, None)
    {
      var part := parts[i];
      assert parts[..i + 1] == parts[..i] + [part];
      LastStrippedAppend(parts[..i], part, CREDENTIAL, None);
      LastStrippedAppend(parts[..i], part, SIGNED_HEADERS, None);
      LastStrippedAppend(parts[..i], part, SIGNATURE, None);
      TagsExclude(part);
      if CREDENTIAL <= part {
        credential := Some(part[|CREDENTIAL|..]);
      } else if SIGNED_HEADERS <= part {
        signedHeaders := Some(part[|SIGNED_HEADERS|..]);
      } else if SIGNATURE <= part {
        signature := Some(part[|SIGNATURE|..]);
      }
    }
    assert parts[..|parts|] == parts;
    return AuthFrom(credential, signedHeaders, signature);
  }

  /** `x ^ y` and `x | y`, bit by bit. */
  function Xor(x: nat, y: nat): nat {
    if x == 0 && y == 0 then 0 else 2 * Xor(x / 2, y / 2) + (x + y) % 2
  }

  function Or(x: nat, y: nat): nat {
    if x == 0 && y == 0 then 0 else 2 * Or(x / 2, y / 2) + (if x % 2 == 1 || y % 2 == 1 then 1 else 0)
  }

  lemma {:induction false} XorZero(x: nat, y: nat)
    ensures Xor(x, y) == 0 <==> x == y
  {
    if x != 0 || y != 0 {
      XorZero(x / 2, y / 2);
    }
  }

  lemma {:induction false} OrZero(x: nat, y: nat)
    ensures Or(x, y) == 0 <==> x == 0 && y == 0
  {
    if x != 0 || y != 0 {
      OrZero(x / 2, y / 2);
    }
  }

  /** The accumulated differences decide equality. */
  method ConstantTimeEq(a: Bytes, b: Bytes) returns (r: bool)
    ensures r <==> a == b
  {
    if |a| != |b| {
      return false;
    }
    var acc := 0;
    for i := 0 to |a|
      invariant acc == 0 <==> a[..i] == b[..i]
    {
      XorZero(a[i], b[i]);
      OrZero(acc, Xor(a[i], b[i]));
      assert a[..i + 1] == a[..i] + [a[i]] && b[..i + 1] == b[..i] + [b[i]];
      acc := Or(acc, Xor(a[i], b[i]));
    }
    assert a[..|a|] == a && b[..|b|] == b;
    return acc == 0;
  }

  function ExpectedSignature(crypto: Crypto, verb: string, path: string, query: string, fields: Fields, auth: SigV4Auth,
                             secret: string, payloadHash: string): string
  {
    Signature(crypto, secret, auth.dateStamp, auth.region, auth.service, HeaderText(fields, "x-amz-date"),
              CanonicalRequest(verb, path, query, auth.signedHeaders, fields, payloadHash))
  }

  method VerifySigV4Signature(crypto: Crypto, verb: string, path: string, query: string, headers: HeaderMap,
                              auth: SigV4Auth, secret: string, payloadHash: string) returns (r: bool)
    ensures r <==> auth.signature == ExpectedSignature(crypto, verb, path, query, headers.fields, auth, secret, payloadHash)
  {
    var expected := ExpectedSignature(crypto, verb, path, query, headers.fields, auth, secret, payloadHash);
    r := ConstantTimeEq(Utf8.Encode(expected), Utf8.Encode(auth.signature));
    if Utf8.Encode(expected) == Utf8.Encode(auth.signature) {
      Utf8.EncodeInjective(expected, auth.signature);
    }
  }
}
