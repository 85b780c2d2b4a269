/**
  Signing a request that already carries an `authorization` header: the old value is signed
  with the other headers and then overwritten, so the verifier rebuilds another text.
 */
module StaleAuthorization {
  import opened Text
  import opened Ordering
  import Utf8
  import opened Percent
  import opened Types
  import opened Requests
  import opened QueryCanonical
  import opened SigV4
  import opened SigningProofs

  // ---- A hash and an HMAC that hide nothing.

  function Transparent(): Crypto {
    Crypto((b: Bytes) => b, (key: Bytes, message: Bytes) => message)
  }

  function TextToSign(dateStamp: string, region: string, service: string, amzDate: string, request: string): string {
    "AWS4-HMAC-SHA256\n" + amzDate + "\n" + Scope(dateStamp, region, service) + "\n" + Hex(Utf8.Encode(request))
  }

  lemma {:induction false} TransparentSignature(secret: string, dateStamp: string, region: string, service: string, amzDate: string,
                                                request: string)
    ensures Signature(Transparent(), secret, dateStamp, region, service, amzDate, request)
         == Hex(Utf8.Encode(TextToSign(dateStamp, region, service, amzDate, request)))
  {
  }

  lemma {:induction false} LowerHexInjective(m: nat, n: nat)
    requires m < 16 && n < 16
    ensures LowerHex(m) == LowerHex(n) <==> m == n
  {
  }

  lemma {:induction false} HexLength(bs: Bytes)
    ensures |Hex(bs)| == 2 * |bs|
  {
    if bs != [] {
      HexLength(bs[1..]);
    }
  }

  lemma {:induction false} HexInjective(a: Bytes, b: Bytes)
    requires Hex(a) == Hex(b)
    ensures a == b
    decreases |a|
  {
    HexLength(a);
    HexLength(b);
    if a != [] {
      var ta, tb := Hex(a[1..]), Hex(b[1..]);
      assert Hex(a)[0] == LowerHex(a[0] / 16) && Hex(a)[1] == LowerHex(a[0] % 16) && Hex(a)[2..] == ta;
      assert Hex(b)[0] == LowerHex(b[0] / 16) && Hex(b)[1] == LowerHex(b[0] % 16) && Hex(b)[2..] == tb;
      LowerHexInjective(a[0] / 16, b[0] / 16);
      LowerHexInjective(a[0] % 16, b[0] % 16);
      HexInjective(a[1..], b[1..]);
      assert a == [a[0]] + a[1..] && b == [b[0]] + b[1..];
    }
  }

  lemma {:induction false} EncodeLength(s: string)
    ensures |Utf8.Encode(s)| >= |s|
  {
    if s != [] {
      EncodeLength(s[1..]);
    }
  }

  /** A transparent signature tells requests apart and is longer than the request. */
  lemma {:induction false} TransparentTellsApart(secret: string, d: string, r: string, s: string, amzDate: string, x: string, y: string)
    ensures Signature(Transparent(), secret, d, r, s, amzDate, x) == Signature(Transparent(), secret, d, r, s, amzDate, y) <==> x == y
    ensures |Signature(Transparent(), secret, d, r, s, amzDate, x)| > |x|
  {
    TransparentSignature(secret, d, r, s, amzDate, x);
    TransparentSignature(secret, d, r, s, amzDate, y);
    var head := "AWS4-HMAC-SHA256\n" + amzDate + "\n" + Scope(d, r, s) + "\n";
    TextsApart(head, x, y);
  }

  lemma {:induction false} TextsApart(head: string, x: string, y: string)
    requires head != ""
    ensures Hex(Utf8.Encode(head + Hex(Utf8.Encode(x)))) == Hex(Utf8.Encode(head + Hex(Utf8.Encode(y)))) <==> x == y
    ensures |Hex(Utf8.Encode(head + Hex(Utf8.Encode(x))))| > |x|
  {
    var hx, hy := Hex(Utf8.Encode(x)), Hex(Utf8.Encode(y));
    HexLength(Utf8.Encode(x));
    EncodeLength(x);
    HexLength(Utf8.Encode(head + hx));
    EncodeLength(head + hx);
    if Hex(Utf8.Encode(head + hx)) == Hex(Utf8.Encode(head + hy)) {
      HexInjective(Utf8.Encode(head + hx), Utf8.Encode(head + hy));
      Utf8.EncodeInjective(head + hx, head + hy);
      assert (head + hx)[|head|..] == hx && (head + hy)[|head|..] == hy;
      HexInjective(Utf8.Encode(x), Utf8.Encode(y));
      Utf8.EncodeInjective(x, y);
    }
  }

  // ---- The written header, read back as a header value.

  lemma VisibleConcat(a: string, b: string)
    ensures VisibleAscii(a + b) <==> VisibleAscii(a) && VisibleAscii(b)
  {
    assert forall c :: c in a + b <==> c in a || c in b;
  }

  predicate AllVisible(names: seq<string>) {
    forall i :: 0 <= i < |names| ==> VisibleAscii(names[i])
  }

  lemma {:induction false} VisibleJoin(names: seq<string>)
    ensures VisibleAscii(Join(names, ";")) <==> AllVisible(names)
  {
    if |names| > 1 {
      VisibleJoin(names[1..]);
      VisibleConcat(names[0] + ";", Join(names[1..], ";"));
      VisibleConcat(names[0], ";");
      assert forall i :: 0 <= i < |names[1..]| ==> names[1..][i] == names[i + 1];
      assert forall i :: 0 < i < |names| ==> names[i] == names[1..][i - 1];
    }
  }

  lemma {:induction false} VisibleCredential(a: string, d: string, r: string, s: string)
    ensures VisibleAscii(a + "/" + Scope(d, r, s)) <==> VisibleAscii(a) && VisibleAscii(d) && VisibleAscii(r) && VisibleAscii(s)
  {
    CredentialIsJoin(a, d, r, s);
    var t3 := s + "/" + "aws4_request";
    var t2 := r + "/" + t3;
    var t1 := d + "/" + t2;
    VisibleAround(s, "aws4_request");
    VisibleAround(r, t3);
    VisibleAround(d, t2);
    VisibleAround(a, t1);
  }

  lemma VisibleAround(a: string, b: string)
    ensures VisibleAscii(a + "/" + b) <==> VisibleAscii(a) && VisibleAscii(b)
  {
    VisibleConcat(a + "/", b);
    VisibleConcat(a, "/");
  }

  lemma {:induction false} VisibleHeader(a: string, d: string, r: string, s: string, names: seq<string>, signature: string)
    requires VisibleAscii(signature)
    ensures VisibleAscii(AuthText(a, d, r, s, names, signature))
            <==> && VisibleAscii(a) && VisibleAscii(d) && VisibleAscii(r) && VisibleAscii(s)
                 && AllVisible(names)
  {
    VisibleCredential(a, d, r, s);
    VisibleJoin(names);
    HeaderAround(a + "/" + Scope(d, r, s), Join(names, ";"), signature);
  }

  lemma VisibleTagged(tag: string, s: string, rest: string)
    requires VisibleAscii(tag)
    ensures VisibleAscii(tag + s + ", " + rest) <==> VisibleAscii(s) && VisibleAscii(rest)
    ensures VisibleAscii(tag + s) <==> VisibleAscii(s)
  {
    VisibleConcat(tag + s + ", ", rest);
    VisibleConcat(tag + s, ", ");
    VisibleConcat(tag, s);
  }

  lemma HeaderAround(credential: string, names: string, signature: string)
    ensures VisibleAscii("AWS4-HMAC-SHA256 " + ("Credential=" + credential + ", "
                         + ("SignedHeaders=" + names + ", " + ("Signature=" + signature))))
            <==> VisibleAscii(credential) && VisibleAscii(names) && VisibleAscii(signature)
  {
    var c := "Signature=" + signature;
    var b := "SignedHeaders=" + names + ", " + c;
    var a := "Credential=" + credential + ", " + b;
    VisibleTagged("Signature=", signature, "");
    VisibleTagged("SignedHeaders=", names, c);
    VisibleTagged("Credential=", credential, b);
    VisibleTagged("AWS4-HMAC-SHA256 ", a, "");
  }

  /** Everything the signer writes into the header can be read as text. */
  ghost predicate Readable(signer: Signer, fields: Fields, now: Clock) {
    && VisibleAscii(signer.accessKeyId) && VisibleAscii(now.dateStamp)
    && VisibleAscii(signer.region) && VisibleAscii(signer.service)
    && NamesReadable(fields)
  }

  ghost predicate NamesReadable(fields: Fields) {
    forall k :: k in fields ==> VisibleAscii(k)
  }

  lemma RequiredVisible()
    ensures VisibleAscii("x-amz-date") && VisibleAscii("x-amz-content-sha256") && VisibleAscii("x-amz-security-token")
    ensures VisibleAscii("host")
  {
  }

  lemma {:induction false} WrittenReadable(crypto: Crypto, signer: Signer, verb: string, url: Url, fields: Fields, payloadHash: string,
                                           now: Clock)
    requires url.host.Some?
    ensures var prepared := Prepared(signer, url, fields, payloadHash, now);
            VisibleAscii(AuthHeader(crypto, signer, verb, url, prepared, payloadHash, now)) <==> Readable(signer, fields, now)
  {
    var prepared := Prepared(signer, url, fields, payloadHash, now);
    var names := SortedKeys(prepared.Keys);
    var request := CanonicalRequest(verb, url.path, url.query, names, prepared, payloadHash);
    var signature := SignatureOf(crypto, signer, now, request);
    HexIsVisible(signature);
    VisibleHeader(signer.accessKeyId, now.dateStamp, signer.region, signer.service, names, signature);
    PreparedNamesVisible(signer, url, fields, payloadHash, now);
  }

  ghost function SignatureOf(crypto: Crypto, signer: Signer, now: Clock, request: string): (r: string)
    ensures forall c :: c in r ==> IsAlphanumeric(c)
  {
    Signature(crypto, signer.secretAccessKey, now.dateStamp, signer.region, signer.service, now.amzDate, request)
  }

  lemma HexIsVisible(s: string)
    requires forall c :: c in s ==> IsAlphanumeric(c)
    ensures VisibleAscii(s)
  {
  }

  lemma {:induction false} PreparedNamesVisible(signer: Signer, url: Url, fields: Fields, payloadHash: string, now: Clock)
    requires url.host.Some?
    ensures var names := SortedKeys(Prepared(signer, url, fields, payloadHash, now).Keys);
            AllVisible(names) <==> NamesReadable(fields)
  {
    var prepared := Prepared(signer, url, fields, payloadHash, now);
    SortedKeysEnumerates(prepared.Keys);
    PreparedKeys(signer, url, fields, payloadHash, now);
    RequiredVisible();
    NamesVisible(SortedKeys(prepared.Keys), prepared, fields);
  }

  lemma {:induction false} NamesVisible(names: seq<string>, prepared: Fields, fields: Fields)
    requires Enumerates(names, prepared.Keys) && fields.Keys <= prepared.Keys
    requires forall k :: k in prepared && k !in fields ==> VisibleAscii(k)
    ensures AllVisible(names) <==> NamesReadable(fields)
  {
    forall i | 0 <= i < |names|
      ensures names[i] in prepared
    {
      assert names[i] in names;
    }
    forall k | k in fields
      ensures k in names
    {
      assert k in prepared.Keys;
    }
  }

  lemma {:induction false} TrimmedLength(s: string)
    ensures |TrimBlanks(s)| <= |s|
    decreases |s|
  {
    if s != "" {
      if IsBlank(s[0]) {
        TrimmedLength(s[1..]);
      } else if IsBlank(s[|s| - 1]) {
        TrimmedLength(s[..|s| - 1]);
      }
    }
  }

  /** The header begins and ends with something that is not blank. */
  lemma {:induction false} HeaderIsTrimmed(a: string, d: string, r: string, s: string, names: seq<string>, signature: string)
    requires signature != "" && forall c :: c in signature ==> IsAlphanumeric(c)
    ensures var header := AuthText(a, d, r, s, names, signature); TrimBlanks(header) == header && |header| > |signature|
  {
    var header := AuthText(a, d, r, s, names, signature);
    assert header[|header| - 1] == signature[|signature| - 1];
    assert signature[|signature| - 1] in signature;
    assert header[0] == 'A';
  }

  // ---- Values inside the canonical request.

  lemma {:induction false} ValueInHeaders(names: seq<string>, fields: Fields, name: string)
    requires name in names
    ensures |CanonicalHeaders(names, fields)| >= |TrimBlanks(HeaderText(fields, name))|
  {
    if names[0] != name {
      assert name in names[1..];
      ValueInHeaders(names[1..], fields, name);
    }
  }

  lemma {:induction false} ValueInRequest(verb: string, path: string, query: string, names: seq<string>, fields: Fields,
                                          payloadHash: string, name: string)
    requires name in names
    ensures |CanonicalRequest(verb, path, query, names, fields, payloadHash)| >= |TrimBlanks(HeaderText(fields, name))|
  {
    ValueInHeaders(names, fields, name);
    RequestAround(verb, path, query, names, fields, payloadHash);
  }

  // ---- Verification.

  /** The signed request, as it is, parses and verifies under the same secret. */
  ghost predicate SignedVerifies(crypto: Crypto, signer: Signer, verb: string, url: Url, fields: Fields, payloadHash: string, now: Clock)
    requires url.host.Some?
  {
    var received := SignedFields(crypto, signer, verb, url, fields, payloadHash, now);
    && "authorization" in received
    && var auth := ParsedAuth(received["authorization"]);
    && auth.Ok? && auth.value.accessKeyId == signer.accessKeyId && auth.value.region == signer.region
    && auth.value.signature
       == ExpectedSignature(crypto, verb, url.path, url.query, received, auth.value, signer.secretAccessKey, payloadHash)
  }

  ghost predicate Signable(signer: Signer, url: Url, fields: Fields, now: Clock) {
    && url.host.Some? && TokenNames(fields) && VisibleAscii(now.amzDate)
    && GoodStamp(now.dateStamp) && GoodStamp(signer.service)
    && '/' !in signer.accessKeyId && '/' !in signer.region
    && !HasCommaSpace(signer.accessKeyId) && !HasCommaSpace(signer.region)
  }

  /** The request that is signed. */
  ghost function SignedText(signer: Signer, verb: string, url: Url, fields: Fields, payloadHash: string, now: Clock): string
    requires url.host.Some?
  {
    var prepared := Prepared(signer, url, fields, payloadHash, now);
    CanonicalRequest(verb, url.path, url.query, SortedKeys(prepared.Keys), prepared, payloadHash)
  }

  /** The request the verifier rebuilds. */
  ghost function RebuiltText(crypto: Crypto, signer: Signer, verb: string, url: Url, fields: Fields, payloadHash: string, now: Clock): string
    requires url.host.Some?
  {
    var prepared := Prepared(signer, url, fields, payloadHash, now);
    CanonicalRequest(verb, url.path, url.query, SortedKeys(prepared.Keys),
                     SignedFields(crypto, signer, verb, url, fields, payloadHash, now), payloadHash)
  }

  /** The header written is parsed into the fields it was written from. */
  lemma {:induction false} ParsedBack(crypto: Crypto, signer: Signer, verb: string, url: Url, fields: Fields, payloadHash: string, now: Clock)
    requires Signable(signer, url, fields, now)
    ensures var prepared := Prepared(signer, url, fields, payloadHash, now);
            var signature := SignatureOf(crypto, signer, now, SignedText(signer, verb, url, fields, payloadHash, now));
            ParsedAuth(AuthHeader(crypto, signer, verb, url, prepared, payloadHash, now))
            == Ok(SigV4Auth(signer.accessKeyId, now.dateStamp, signer.region, signer.service, SortedKeys(prepared.Keys), signature))
  {
    var prepared := Prepared(signer, url, fields, payloadHash, now);
    var request := SignedText(signer, verb, url, fields, payloadHash, now);
    PreparedNames(signer, url, fields, payloadHash, now);
    NoCommasInHex(crypto, signer, now, request);
    AuthHeaderParses(signer.accessKeyId, now.dateStamp, signer.region, signer.service, SortedKeys(prepared.Keys),
                     SignatureOf(crypto, signer, now, request));
  }

  lemma {:induction false} DateArrives(crypto: Crypto, signer: Signer, verb: string, url: Url, fields: Fields, payloadHash: string,
                                       now: Clock)
    requires url.host.Some? && VisibleAscii(now.amzDate)
    ensures HeaderText(SignedFields(crypto, signer, verb, url, fields, payloadHash, now), "x-amz-date") == now.amzDate
  {
    var prepared := Prepared(signer, url, fields, payloadHash, now);
    PreparedDate(signer, url, fields, payloadHash, now);
    OtherText(prepared, "authorization", AuthHeader(crypto, signer, verb, url, prepared, payloadHash, now), "x-amz-date");
  }

  lemma OtherText(fields: Fields, name: string, value: string, other: string)
    requires name != "" && other != "" && name[0] != other[0]
    ensures HeaderText(fields[name := value], other) == HeaderText(fields, other)
  {
  }

  lemma {:induction false} VerifiesBySignature(crypto: Crypto, signer: Signer, verb: string, url: Url, fields: Fields,
                                               payloadHash: string, now: Clock)
    requires Signable(signer, url, fields, now)
    ensures var signed := SignatureOf(crypto, signer, now, SignedText(signer, verb, url, fields, payloadHash, now));
            var rebuilt := SignatureOf(crypto, signer, now, RebuiltText(crypto, signer, verb, url, fields, payloadHash, now));
            SignedVerifies(crypto, signer, verb, url, fields, payloadHash, now) <==> signed == rebuilt
  {
    ParsedBack(crypto, signer, verb, url, fields, payloadHash, now);
    DateArrives(crypto, signer, verb, url, fields, payloadHash, now);
  }

  /** The verifier rebuilds what was signed exactly when the old value and the new one read alike. */
  lemma {:induction false} StaleTextsExactly(crypto: Crypto, signer: Signer, verb: string, url: Url, fields: Fields,
                                             payloadHash: string, now: Clock)
    requires url.host.Some? && "authorization" in fields
    ensures var prepared := Prepared(signer, url, fields, payloadHash, now);
            var received := SignedFields(crypto, signer, verb, url, fields, payloadHash, now);
            SignedText(signer, verb, url, fields, payloadHash, now) == RebuiltText(crypto, signer, verb, url, fields, payloadHash, now)
            <==> TrimBlanks(HeaderText(received, "authorization")) == TrimBlanks(HeaderText(prepared, "authorization"))
  {
    var prepared := Prepared(signer, url, fields, payloadHash, now);
    var written := AuthHeader(crypto, signer, verb, url, prepared, payloadHash, now);
    OldValueKept(signer, url, fields, payloadHash, now);
    OverwrittenExactly(verb, url.path, url.query, prepared, "authorization", written, payloadHash);
  }

  /** The old value and the new one read alike only if both read as nothing. */
  lemma {:induction false} ReadAlikeExactly(signer: Signer, verb: string, url: Url, fields: Fields, payloadHash: string, now: Clock)
    requires url.host.Some? && "authorization" in fields
    ensures SignedText(signer, verb, url, fields, payloadHash, now)
              == RebuiltText(Transparent(), signer, verb, url, fields, payloadHash, now)
            <==> !Readable(signer, fields, now) && TrimBlanks(HeaderText(fields, "authorization")) == ""
  {
    var crypto := Transparent();
    var prepared := Prepared(signer, url, fields, payloadHash, now);
    var names := SortedKeys(prepared.Keys);
    var request := SignedText(signer, verb, url, fields, payloadHash, now);
    var signature := SignatureOf(crypto, signer, now, request);
    OldValueKept(signer, url, fields, payloadHash, now);
    SortedKeysEnumerates(prepared.Keys);
    assert "authorization" in prepared.Keys;
    StaleTextsExactly(crypto, signer, verb, url, fields, payloadHash, now);
    WrittenReadable(crypto, signer, verb, url, fields, payloadHash, now);
    ValueInRequest(verb, url.path, url.query, names, prepared, payloadHash, "authorization");
    TransparentTellsApart(signer.secretAccessKey, now.dateStamp, signer.region, signer.service, now.amzDate, request, request);
    HeaderIsTrimmed(signer.accessKeyId, now.dateStamp, signer.region, signer.service, names, signature);
  }

  lemma {:induction false} OldValueKept(signer: Signer, url: Url, fields: Fields, payloadHash: string, now: Clock)
    requires url.host.Some? && "authorization" in fields
    ensures var prepared := Prepared(signer, url, fields, payloadHash, now);
            "authorization" in prepared && prepared["authorization"] == fields["authorization"]
  {
    assert "authorization"[0] == 'a' && "host"[0] == 'h' && "x-amz-date"[0] == 'x';
    assert "x-amz-content-sha256"[0] == 'x' && "x-amz-security-token"[0] == 'x';
  }

  /**
    A signed request verifies under the same secret, whatever hash and HMAC are, exactly when
    it carried no `authorization` before; or when neither the old value nor the new one reads
    as anything, the new one because it holds characters outside visible ASCII.
   */
  lemma {:induction false} SigningVerifiesExactly(signer: Signer, verb: string, url: Url, fields: Fields, payloadHash: string, now: Clock)
    requires Signable(signer, url, fields, now)
    ensures (forall crypto: Crypto :: SignedVerifies(crypto, signer, verb, url, fields, payloadHash, now))
            <==> "authorization" !in fields
                 || (!Readable(signer, fields, now) && TrimBlanks(HeaderText(fields, "authorization")) == "")
    ensures Readable(signer, fields, now) ==>
              ((forall crypto: Crypto :: SignedVerifies(crypto, signer, verb, url, fields, payloadHash, now))
               <==> "authorization" !in fields)
  {
    if "authorization" !in fields {
      forall crypto: Crypto
        ensures SignedVerifies(crypto, signer, verb, url, fields, payloadHash, now)
      {
        FreshVerifies(crypto, signer, verb, url, fields, payloadHash, now);
      }
    } else if !Readable(signer, fields, now) && TrimBlanks(HeaderText(fields, "authorization")) == "" {
      forall crypto: Crypto
        ensures SignedVerifies(crypto, signer, verb, url, fields, payloadHash, now)
      {
        UnreadVerifies(crypto, signer, verb, url, fields, payloadHash, now);
      }
    } else {
      TransparentRefuses(signer, verb, url, fields, payloadHash, now);
    }
  }

  lemma {:induction false} FreshVerifies(crypto: Crypto, signer: Signer, verb: string, url: Url, fields: Fields, payloadHash: string,
                                         now: Clock)
    requires Signable(signer, url, fields, now) && "authorization" !in fields
    ensures SignedVerifies(crypto, signer, verb, url, fields, payloadHash, now)
  {
    VerifiesBySignature(crypto, signer, verb, url, fields, payloadHash, now);
    FreshTexts(crypto, signer, verb, url, fields, payloadHash, now);
  }

  lemma {:induction false} FreshTexts(crypto: Crypto, signer: Signer, verb: string, url: Url, fields: Fields, payloadHash: string, now: Clock)
    requires url.host.Some? && "authorization" !in fields
    ensures SignedText(signer, verb, url, fields, payloadHash, now) == RebuiltText(crypto, signer, verb, url, fields, payloadHash, now)
  {
    var prepared := Prepared(signer, url, fields, payloadHash, now);
    PreparedKeys(signer, url, fields, payloadHash, now);
    SortedKeysEnumerates(prepared.Keys);
    UnsignedHeader(verb, url.path, url.query, SortedKeys(prepared.Keys), prepared, payloadHash, "authorization",
                   AuthHeader(crypto, signer, verb, url, prepared, payloadHash, now));
  }

  /** A header that was not there does not change the request that the others make. */
  lemma {:induction false} UnsignedHeader(verb: string, path: string, query: string, names: seq<string>, fields: Fields,
                                          payloadHash: string, name: string, value: string)
    requires Enumerates(names, fields.Keys) && name !in fields
    ensures CanonicalRequest(verb, path, query, names, fields, payloadHash)
         == CanonicalRequest(verb, path, query, names, fields[name := value], payloadHash)
  {
    forall i | 0 <= i < |names|
      ensures names[i] in fields && names[i] != name
    {
      assert names[i] in names;
    }
    SameCanonicalHeaders(names, fields, fields[name := value]);
  }

  lemma {:induction false} UnreadVerifies(crypto: Crypto, signer: Signer, verb: string, url: Url, fields: Fields, payloadHash: string,
                                          now: Clock)
    requires Signable(signer, url, fields, now) && "authorization" in fields
    requires !Readable(signer, fields, now) && TrimBlanks(HeaderText(fields, "authorization")) == ""
    ensures SignedVerifies(crypto, signer, verb, url, fields, payloadHash, now)
  {
    OldValueKept(signer, url, fields, payloadHash, now);
    WrittenReadable(crypto, signer, verb, url, fields, payloadHash, now);
    StaleTextsExactly(crypto, signer, verb, url, fields, payloadHash, now);
    VerifiesBySignature(crypto, signer, verb, url, fields, payloadHash, now);
  }

  /** With a prior `authorization` that is read, or a new one that is, some hash and HMAC refuse the request. */
  lemma {:induction false} TransparentRefuses(signer: Signer, verb: string, url: Url, fields: Fields, payloadHash: string, now: Clock)
    requires Signable(signer, url, fields, now) && "authorization" in fields
    requires Readable(signer, fields, now) || TrimBlanks(HeaderText(fields, "authorization")) != ""
    ensures !SignedVerifies(Transparent(), signer, verb, url, fields, payloadHash, now)
  {
    VerifiesBySignature(Transparent(), signer, verb, url, fields, payloadHash, now);
    ReadAlikeExactly(signer, verb, url, fields, payloadHash, now);
    TransparentTellsApart(signer.secretAccessKey, now.dateStamp, signer.region, signer.service, now.amzDate,
                          SignedText(signer, verb, url, fields, payloadHash, now),
                          RebuiltText(Transparent(), signer, verb, url, fields, payloadHash, now));
  }
}
