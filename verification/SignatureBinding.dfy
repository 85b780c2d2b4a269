/**
  What a signature stands for: the secret, the scope, the date and the request. A request that
  arrives otherwise than it was signed is refused by some hash and HMAC.
 */
module SignatureBinding {
  import opened Text
  import opened Ordering
  import Utf8
  import opened Percent
  import opened Types
  import opened Requests
  import opened QueryCanonical
  import opened SigV4
  import opened SigningProofs
  import opened StaleAuthorization

  // ---- Hashes and HMACs that tell.

  /** An HMAC that is its key: only the secret is left of the signature. */
  function KeyOnly(): Crypto {
    Crypto((b: Bytes) => b, (key: Bytes, message: Bytes) => key)
  }

  /** A keyed text, written out. */
  function Mac(key: string, message: string): string {
    "(" + key + "," + message + ")"
  }

  /** An HMAC that writes itself out: every step of the chain of keys can be read off. */
  function WrittenOut(sha256: Bytes -> Bytes): Crypto {
    Crypto(sha256, (key: Bytes, message: Bytes) => Utf8.Encode("(") + key + Utf8.Encode(",") + message + Utf8.Encode(")"))
  }

  lemma {:induction false} MacWritten(sha256: Bytes -> Bytes, key: string, message: string)
    ensures WrittenOut(sha256).hmac(Utf8.Encode(key), Utf8.Encode(message)) == Utf8.Encode(Mac(key, message))
  {
    Utf8.EncodeConcat("(", key);
    Utf8.EncodeConcat("(" + key, ",");
    Utf8.EncodeConcat("(" + key + ",", message);
    Utf8.EncodeConcat("(" + key + "," + message, ")");
  }

  lemma {:induction false} KeyOnlySignature(secret: string, d: string, r: string, s: string, amzDate: string, request: string)
    ensures Signature(KeyOnly(), secret, d, r, s, amzDate, request) == Hex(Utf8.Encode("AWS4" + secret))
  {
  }

  /** The key is made from the secret, the day, the region, the service and a fixed word, in that order, and signs the text. */
  lemma {:induction false} KeyChain(sha256: Bytes -> Bytes, secret: string, d: string, r: string, s: string, amzDate: string, request: string)
    ensures var text := "AWS4-HMAC-SHA256\n" + amzDate + "\n" + (d + "/" + r + "/" + s + "/aws4_request") + "\n"
                        + Hex(sha256(Utf8.Encode(request)));
            Signature(WrittenOut(sha256), secret, d, r, s, amzDate, request)
            == Hex(Utf8.Encode(Mac(Mac(Mac(Mac(Mac("AWS4" + secret, d), r), s), "aws4_request"), text)))
  {
    ScopeText(d, r, s);
    var text := "AWS4-HMAC-SHA256\n" + amzDate + "\n" + Scope(d, r, s) + "\n" + Hex(sha256(Utf8.Encode(request)));
    MacWritten(sha256, "AWS4" + secret, d);
    MacWritten(sha256, Mac("AWS4" + secret, d), r);
    MacWritten(sha256, Mac(Mac("AWS4" + secret, d), r), s);
    MacWritten(sha256, Mac(Mac(Mac("AWS4" + secret, d), r), s), "aws4_request");
    MacWritten(sha256, Mac(Mac(Mac(Mac("AWS4" + secret, d), r), s), "aws4_request"), text);
  }

  lemma {:induction false} ScopeText(d: string, r: string, s: string)
    ensures Scope(d, r, s) == d + "/" + r + "/" + s + "/aws4_request"
  {
    CredentialIsJoin("", d, r, s);
    assert CredentialOf("", d, r, s) == "/" + Scope(d, r, s);
    assert "" + "/" + (d + "/" + (r + "/" + (s + "/" + "aws4_request"))) == "/" + (d + "/" + r + "/" + s + "/aws4_request");
    ConcatCancels("/", Scope(d, r, s), d + "/" + r + "/" + s + "/aws4_request");
  }

  // ---- Lines.

  predicate OneLine(s: string) {
    '\n' !in s
  }

  /** The first line of a text. */
  lemma {:induction false} FirstLine(a: string, x: string, b: string, y: string)
    requires OneLine(a) && OneLine(b)
    ensures a + "\n" + x == b + "\n" + y <==> a == b && x == y
  {
    FreeOfChar(a, '\n');
    FreeOfChar(b, '\n');
    SplitOnceAfterFree(a, "\n", x);
    SplitOnceAfterFree(b, "\n", y);
  }

  lemma {:induction false} ScopeBinds(d1: string, r1: string, s1: string, d2: string, r2: string, s2: string)
    requires '/' !in d1 && '/' !in r1 && '/' !in s1 && '/' !in d2 && '/' !in r2 && '/' !in s2
    ensures Scope(d1, r1, s1) == Scope(d2, r2, s2) <==> d1 == d2 && r1 == r2 && s1 == s2
  {
    CredentialSplits("", d1, r1, s1);
    CredentialSplits("", d2, r2, s2);
  }

  lemma {:induction false} ScopeOneLine(d: string, r: string, s: string)
    requires OneLine(d) && OneLine(r) && OneLine(s)
    ensures OneLine(Scope(d, r, s))
  {
    ScopeText(d, r, s);
  }

  predicate PlainScope(d: string, r: string, s: string) {
    OneLine(d) && OneLine(r) && OneLine(s) && '/' !in d && '/' !in r && '/' !in s
  }

  lemma {:induction false} TextBinds(d1: string, r1: string, s1: string, a1: string, x: string,
                                     d2: string, r2: string, s2: string, a2: string, y: string)
    requires PlainScope(d1, r1, s1) && PlainScope(d2, r2, s2) && OneLine(a1) && OneLine(a2)
    ensures TextToSign(d1, r1, s1, a1, x) == TextToSign(d2, r2, s2, a2, y)
            <==> d1 == d2 && r1 == r2 && s1 == s2 && a1 == a2 && x == y
  {
    var h := "AWS4-HMAC-SHA256\n";
    var t1, t2 := Hex(Utf8.Encode(x)), Hex(Utf8.Encode(y));
    ScopeOneLine(d1, r1, s1);
    ScopeOneLine(d2, r2, s2);
    TextLines(h, a1, Scope(d1, r1, s1), t1);
    TextLines(h, a2, Scope(d2, r2, s2), t2);
    ConcatCancels(h, a1 + "\n" + (Scope(d1, r1, s1) + "\n" + t1), a2 + "\n" + (Scope(d2, r2, s2) + "\n" + t2));
    FirstLine(a1, Scope(d1, r1, s1) + "\n" + t1, a2, Scope(d2, r2, s2) + "\n" + t2);
    FirstLine(Scope(d1, r1, s1), t1, Scope(d2, r2, s2), t2);
    ScopeBinds(d1, r1, s1, d2, r2, s2);
    HexOfText(x, y);
  }

  lemma TextLines(h: string, a: string, scope: string, t: string)
    ensures h + a + "\n" + scope + "\n" + t == h + (a + "\n" + (scope + "\n" + t))
  {
  }

  lemma {:induction false} HexOfText(x: string, y: string)
    ensures Hex(Utf8.Encode(x)) == Hex(Utf8.Encode(y)) <==> x == y
  {
    if Hex(Utf8.Encode(x)) == Hex(Utf8.Encode(y)) {
      HexInjective(Utf8.Encode(x), Utf8.Encode(y));
      Utf8.EncodeInjective(x, y);
    }
  }

  /** Two signatures are the same under every hash and HMAC exactly when secret, day, region, service, date and request are. */
  lemma {:induction false} SignatureBinds(k1: string, d1: string, r1: string, s1: string, a1: string, x: string,
                                          k2: string, d2: string, r2: string, s2: string, a2: string, y: string)
    requires PlainScope(d1, r1, s1) && PlainScope(d2, r2, s2) && OneLine(a1) && OneLine(a2)
    ensures (forall crypto :: Signature(crypto, k1, d1, r1, s1, a1, x) == Signature(crypto, k2, d2, r2, s2, a2, y))
            <==> k1 == k2 && d1 == d2 && r1 == r2 && s1 == s2 && a1 == a2 && x == y
    ensures Signature(KeyOnly(), k1, d1, r1, s1, a1, x) == Signature(KeyOnly(), k2, d2, r2, s2, a2, y)
            && Signature(Transparent(), k1, d1, r1, s1, a1, x) == Signature(Transparent(), k2, d2, r2, s2, a2, y)
            ==> k1 == k2 && d1 == d2 && r1 == r2 && s1 == s2 && a1 == a2 && x == y
  {
    KeyOnlySignature(k1, d1, r1, s1, a1, x);
    KeyOnlySignature(k2, d2, r2, s2, a2, y);
    HexOfText("AWS4" + k1, "AWS4" + k2);
    ConcatCancels("AWS4", k1, k2);
    TransparentSignature(k1, d1, r1, s1, a1, x);
    TransparentSignature(k2, d2, r2, s2, a2, y);
    HexOfText(TextToSign(d1, r1, s1, a1, x), TextToSign(d2, r2, s2, a2, y));
    TextBinds(d1, r1, s1, a1, x, d2, r2, s2, a2, y);
  }

  // ---- The canonical request.

  lemma {:induction false} TrimmedOneLine(s: string)
    requires OneLine(s)
    ensures OneLine(TrimBlanks(s))
    decreases |s|
  {
    if s != "" {
      if IsBlank(s[0]) {
        TrimmedOneLine(s[1..]);
      } else if IsBlank(s[|s| - 1]) {
        TrimmedOneLine(s[..|s| - 1]);
      }
    }
  }

  /** The value of a header as it is signed. */
  function SignedValue(fields: Fields, name: string): string {
    TrimBlanks(HeaderText(fields, name))
  }

  lemma {:induction false} SignedValueOneLine(fields: Fields, name: string)
    ensures OneLine(SignedValue(fields, name))
  {
    TrimmedOneLine(HeaderText(fields, name));
  }

  ghost predicate SameSigned(names: seq<string>, f: Fields, g: Fields) {
    forall i :: 0 <= i < |names| ==> SignedValue(f, names[i]) == SignedValue(g, names[i])
  }

  lemma {:induction false} HeadersBind(names: seq<string>, f: Fields, x: string, g: Fields, y: string)
    ensures CanonicalHeaders(names, f) + x == CanonicalHeaders(names, g) + y <==> SameSigned(names, f, g) && x == y
  {
    if names == [] {
      assert "" + x == x && "" + y == y;
    } else {
      SignedValueOneLine(f, names[0]);
      SignedValueOneLine(g, names[0]);
      OneHeaderBinds(names[0] + ":", SignedValue(f, names[0]), CanonicalHeaders(names[1..], f), x,
                     SignedValue(g, names[0]), CanonicalHeaders(names[1..], g), y);
      HeadersBind(names[1..], f, x, g, y);
      SameSignedCons(names, f, g);
    }
  }

  lemma {:induction false} OneHeaderBinds(pre: string, a: string, ta: string, x: string, b: string, tb: string, y: string)
    requires OneLine(a) && OneLine(b)
    ensures pre + a + "\n" + ta + x == pre + b + "\n" + tb + y <==> a == b && ta + x == tb + y
  {
    assert pre + a + "\n" + ta + x == pre + (a + "\n" + (ta + x));
    assert pre + b + "\n" + tb + y == pre + (b + "\n" + (tb + y));
    ConcatCancels(pre, a + "\n" + (ta + x), b + "\n" + (tb + y));
    FirstLine(a, ta + x, b, tb + y);
  }

  lemma SameSignedCons(names: seq<string>, f: Fields, g: Fields)
    requires names != []
    ensures SameSigned(names, f, g) <==> SignedValue(f, names[0]) == SignedValue(g, names[0]) && SameSigned(names[1..], f, g)
  {
    assert forall i :: 0 <= i < |names[1..]| ==> names[1..][i] == names[i + 1];
    assert forall i :: 0 < i < |names| ==> names[i] == names[1..][i - 1];
  }

  lemma {:induction false} CanonicalOneLine(query: string)
    requires OneLine(query)
    ensures OneLine(Canonical(query))
  {
    JoinSplit(query, "&");
    SplitOneLine(query);
    PartsOneLine(Split(query, "&"));
    forall p | p in Sort(CanonicalParts(query))
      ensures OneLine(p)
    {
      assert p in multiset(Sort(CanonicalParts(query)));
    }
    JoinOneLine(Sort(CanonicalParts(query)));
  }

  lemma {:induction false} SplitOneLine(s: string)
    requires OneLine(s)
    ensures forall p :: p in Split(s, "&") ==> OneLine(p)
    decreases |s|
  {
    var r := Find(s, "&");
    if r.Some? {
      SplitOneLine(s[r.value + |"&"|..]);
    }
  }

  lemma {:induction false} PartsOneLine(segs: seq<string>)
    requires forall p :: p in segs ==> OneLine(p)
    ensures forall p :: p in PartsOf(segs) ==> OneLine(p)
  {
    if segs != [] {
      assert segs[0] in segs && OneLine(CanonicalPart(segs[0]));
      PartsOneLine(segs[1..]);
    }
  }

  lemma {:induction false} JoinOneLine(parts: seq<string>)
    requires forall p :: p in parts ==> OneLine(p)
    ensures OneLine(Join(parts, "&"))
    decreases |parts|
  {
    if parts != [] {
      assert parts[0] in parts;
      JoinOneLine(parts[1..]);
    }
  }

  lemma RequestLines(verb: string, path: string, canonical: string, headers: string, tail: string)
    ensures verb + "\n" + path + "\n" + canonical + "\n" + headers + tail
         == verb + "\n" + (path + "\n" + (canonical + "\n" + (headers + tail)))
  {
  }

  /** With the same signed names, two canonical requests are the same exactly when each part of them is. */
  lemma {:induction false} RequestBinds(names: seq<string>, verb1: string, path1: string, query1: string, f: Fields, hash1: string,
                                        verb2: string, path2: string, query2: string, g: Fields, hash2: string)
    requires OneLine(verb1) && OneLine(path1) && OneLine(query1) && OneLine(verb2) && OneLine(path2) && OneLine(query2)
    ensures CanonicalRequest(verb1, path1, query1, names, f, hash1) == CanonicalRequest(verb2, path2, query2, names, g, hash2)
            <==> && verb1 == verb2 && path1 == path2 && Canonical(query1) == Canonical(query2)
                 && SameSigned(names, f, g) && hash1 == hash2
  {
    var q1, q2 := Canonical(query1), Canonical(query2);
    var h1, h2 := CanonicalHeaders(names, f), CanonicalHeaders(names, g);
    var t1, t2 := After(names, hash1), After(names, hash2);
    CanonicalOneLine(query1);
    CanonicalOneLine(query2);
    RequestAround(verb1, path1, query1, names, f, hash1);
    RequestAround(verb2, path2, query2, names, g, hash2);
    RequestLines(verb1, path1, q1, h1, t1);
    RequestLines(verb2, path2, q2, h2, t2);
    FirstLine(verb1, path1 + "\n" + (q1 + "\n" + (h1 + t1)), verb2, path2 + "\n" + (q2 + "\n" + (h2 + t2)));
    FirstLine(path1, q1 + "\n" + (h1 + t1), path2, q2 + "\n" + (h2 + t2));
    FirstLine(q1, h1 + t1, q2, h2 + t2);
    HeadersBind(names, f, t1, g, t2);
    ConcatCancels("\n" + Join(names, ";") + "\n", hash1, hash2);
  }

  // ---- A signed request and the request that arrives.

  /** A request as it reaches the verifier, its signature aside. */
  datatype Message = Message(verb: string, path: string, query: string, headers: Fields, payloadHash: string)

  predicate OneLiners(verb: string, path: string, query: string) {
    OneLine(verb) && OneLine(path) && OneLine(query)
  }

  /** Verification of what arrives, by the header it carries. */
  ghost predicate Accepts(crypto: Crypto, m: Message, authorization: string, secret: string) {
    var received := m.headers["authorization" := authorization];
    var auth := ParsedAuth(authorization);
    && auth.Ok?
    && auth.value.signature == ExpectedSignature(crypto, m.verb, m.path, m.query, received, auth.value, secret, m.payloadHash)
  }

  /** The header that the signer writes for a request without one. */
  ghost function Written(crypto: Crypto, signer: Signer, verb: string, url: Url, fields: Fields, payloadHash: string, now: Clock): string
    requires url.host.Some?
  {
    SignedFields(crypto, signer, verb, url, fields, payloadHash, now)["authorization"]
  }

  /** Every header that was signed reads as it did then. */
  ghost predicate HeadersArrive(prepared: Fields, arrived: Fields) {
    forall k :: k in prepared ==> SignedValue(arrived, k) == SignedValue(prepared, k)
  }

  lemma {:induction false} ArrivingHeaders(prepared: Fields, arrived: Fields, written: string)
    requires "authorization" !in prepared
    ensures SameSigned(SortedKeys(prepared.Keys), prepared, arrived["authorization" := written]) <==> HeadersArrive(prepared, arrived)
  {
    var names := SortedKeys(prepared.Keys);
    SortedKeysEnumerates(prepared.Keys);
    forall k | k in prepared
      ensures k in names && SignedValue(arrived["authorization" := written], k) == SignedValue(arrived, k)
    {
      assert k in prepared.Keys;
    }
    forall i | 0 <= i < |names|
      ensures names[i] in prepared
    {
      assert names[i] in names;
    }
  }

  /** The text that is signed and the text that is rebuilt. */
  ghost function Rebuilt(names: seq<string>, m: Message, written: string): string {
    CanonicalRequest(m.verb, m.path, m.query, names, m.headers["authorization" := written], m.payloadHash)
  }

  /** The text that is rebuilt of what arrives; the signature it carries depends on hash and HMAC. */
  ghost function RebuiltBy(signer: Signer, verb: string, url: Url, fields: Fields, payloadHash: string, now: Clock, m: Message): Crypto -> string
    requires url.host.Some?
  {
    crypto => Rebuilt(SortedKeys(Prepared(signer, url, fields, payloadHash, now).Keys), m,
                      Written(crypto, signer, verb, url, fields, payloadHash, now))
  }

  /** The signature of the one text is the one expected of the other. */
  ghost predicate Alike(crypto: Crypto, signer: Signer, now: Clock, x: string, secret: string, amzDate: string, rebuilt: Crypto -> string) {
    SignatureOf(crypto, signer, now, x)
    == Signature(crypto, secret, now.dateStamp, signer.region, signer.service, amzDate, rebuilt(crypto))
  }

  lemma {:induction false} AcceptsBySignature(crypto: Crypto, signer: Signer, verb: string, url: Url, fields: Fields, payloadHash: string,
                                              now: Clock, m: Message, secret: string)
    requires Signable(signer, url, fields, now)
    ensures Accepts(crypto, m, Written(crypto, signer, verb, url, fields, payloadHash, now), secret)
            <==> Alike(crypto, signer, now, SignedText(signer, verb, url, fields, payloadHash, now), secret, HeaderText(m.headers, "x-amz-date"),
                       RebuiltBy(signer, verb, url, fields, payloadHash, now, m))
  {
    ParsedBack(crypto, signer, verb, url, fields, payloadHash, now);
    OtherText(m.headers, "authorization", Written(crypto, signer, verb, url, fields, payloadHash, now), "x-amz-date");
  }

  /** The texts are the same exactly when everything that was signed arrives. */
  lemma {:induction false} TextsArrive(signer: Signer, verb: string, url: Url, fields: Fields, payloadHash: string, now: Clock, m: Message,
                                       written: string)
    requires url.host.Some? && "authorization" !in fields
    requires OneLiners(verb, url.path, url.query) && OneLiners(m.verb, m.path, m.query)
    ensures var prepared := Prepared(signer, url, fields, payloadHash, now);
            SignedText(signer, verb, url, fields, payloadHash, now) == Rebuilt(SortedKeys(prepared.Keys), m, written)
            <==> && m.verb == verb && m.path == url.path && multiset(CanonicalParts(m.query)) == multiset(CanonicalParts(url.query))
                 && m.payloadHash == payloadHash && HeadersArrive(prepared, m.headers)
  {
    var prepared := Prepared(signer, url, fields, payloadHash, now);
    CanonicalDecidesParameters(m.query, url.query);
    PreparedKeys(signer, url, fields, payloadHash, now);
    ArrivingHeaders(prepared, m.headers, written);
    RequestBinds(SortedKeys(prepared.Keys), verb, url.path, url.query, prepared, payloadHash,
                 m.verb, m.path, m.query, m.headers["authorization" := written], m.payloadHash);
  }

  lemma DateOneLine(fields: Fields, name: string)
    ensures OneLine(HeaderText(fields, name))
  {
  }

  /** What arrives is what was signed. */
  ghost predicate AsSigned(signer: Signer, verb: string, url: Url, fields: Fields, payloadHash: string, now: Clock, m: Message)
    requires url.host.Some?
  {
    && m.verb == verb && m.path == url.path && multiset(CanonicalParts(m.query)) == multiset(CanonicalParts(url.query))
    && m.payloadHash == payloadHash && HeadersArrive(Prepared(signer, url, fields, payloadHash, now), m.headers)
  }

  /**
    A request signed under one secret and arriving in any shape is accepted, whatever hash and
    HMAC are, exactly when it is checked with that secret and arrives with the verb, the path,
    the parameters, the date, the signed header values and the payload hash it was signed with.
   */
  lemma {:induction false} AcceptedExactly(signer: Signer, verb: string, url: Url, fields: Fields, payloadHash: string, now: Clock,
                                           m: Message, secret: string)
    requires Signable(signer, url, fields, now) && "authorization" !in fields
    requires PlainScope(now.dateStamp, signer.region, signer.service)
    requires OneLiners(verb, url.path, url.query) && OneLiners(m.verb, m.path, m.query)
    ensures (forall crypto :: Accepts(crypto, m, Written(crypto, signer, verb, url, fields, payloadHash, now), secret))
            <==> && secret == signer.secretAccessKey && HeaderText(m.headers, "x-amz-date") == now.amzDate
                 && AsSigned(signer, verb, url, fields, payloadHash, now, m)
  {
    SecretTells(signer, verb, url, fields, payloadHash, now, m, secret);
    TextTells(signer, verb, url, fields, payloadHash, now, m, secret);
    if secret == signer.secretAccessKey && HeaderText(m.headers, "x-amz-date") == now.amzDate
       && AsSigned(signer, verb, url, fields, payloadHash, now, m) {
      forall crypto
        ensures Accepts(crypto, m, Written(crypto, signer, verb, url, fields, payloadHash, now), secret)
      {
        SameIsAccepted(crypto, signer, verb, url, fields, payloadHash, now, m, secret);
      }
    }
  }

  lemma {:induction false} AlikeKeyOnly(signer: Signer, now: Clock, x: string, secret: string, amzDate: string, rebuilt: Crypto -> string)
    ensures Alike(KeyOnly(), signer, now, x, secret, amzDate, rebuilt) <==> secret == signer.secretAccessKey
  {
    SameSecret(signer.secretAccessKey, secret, now.dateStamp, signer.region, signer.service, now.amzDate, amzDate, x, rebuilt(KeyOnly()));
  }

  lemma {:induction false} AlikeTransparent(signer: Signer, now: Clock, x: string, secret: string, amzDate: string, rebuilt: Crypto -> string)
    requires PlainScope(now.dateStamp, signer.region, signer.service) && OneLine(now.amzDate) && OneLine(amzDate)
    ensures Alike(Transparent(), signer, now, x, secret, amzDate, rebuilt) <==> amzDate == now.amzDate && x == rebuilt(Transparent())
  {
    SameText(signer.secretAccessKey, secret, now.dateStamp, signer.region, signer.service, now.amzDate, amzDate, x, rebuilt(Transparent()));
  }

  lemma {:induction false} AlikeIfSame(crypto: Crypto, signer: Signer, now: Clock, x: string, rebuilt: Crypto -> string)
    requires x == rebuilt(crypto)
    ensures Alike(crypto, signer, now, x, signer.secretAccessKey, now.amzDate, rebuilt)
  {
  }

  /** The HMAC that is its key shows the secret. */
  lemma {:induction false} SecretTells(signer: Signer, verb: string, url: Url, fields: Fields, payloadHash: string, now: Clock,
                                       m: Message, secret: string)
    requires Signable(signer, url, fields, now)
    ensures Accepts(KeyOnly(), m, Written(KeyOnly(), signer, verb, url, fields, payloadHash, now), secret)
            <==> secret == signer.secretAccessKey
  {
    AcceptsBySignature(KeyOnly(), signer, verb, url, fields, payloadHash, now, m, secret);
    AlikeKeyOnly(signer, now, SignedText(signer, verb, url, fields, payloadHash, now), secret, HeaderText(m.headers, "x-amz-date"),
                 RebuiltBy(signer, verb, url, fields, payloadHash, now, m));
  }

  lemma {:induction false} RebuiltArrives(crypto: Crypto, signer: Signer, verb: string, url: Url, fields: Fields, payloadHash: string,
                                          now: Clock, m: Message)
    requires url.host.Some? && "authorization" !in fields
    requires OneLiners(verb, url.path, url.query) && OneLiners(m.verb, m.path, m.query)
    ensures SignedText(signer, verb, url, fields, payloadHash, now) == RebuiltBy(signer, verb, url, fields, payloadHash, now, m)(crypto)
            <==> AsSigned(signer, verb, url, fields, payloadHash, now, m)
  {
    TextsArrive(signer, verb, url, fields, payloadHash, now, m, Written(crypto, signer, verb, url, fields, payloadHash, now));
  }

  /** The transparent one shows date and text. */
  lemma {:induction false} TextTells(signer: Signer, verb: string, url: Url, fields: Fields, payloadHash: string, now: Clock,
                                     m: Message, secret: string)
    requires Signable(signer, url, fields, now) && "authorization" !in fields && PlainScope(now.dateStamp, signer.region, signer.service)
    requires OneLiners(verb, url.path, url.query) && OneLiners(m.verb, m.path, m.query)
    ensures Accepts(Transparent(), m, Written(Transparent(), signer, verb, url, fields, payloadHash, now), secret)
            <==> HeaderText(m.headers, "x-amz-date") == now.amzDate && AsSigned(signer, verb, url, fields, payloadHash, now, m)
  {
    AcceptsBySignature(Transparent(), signer, verb, url, fields, payloadHash, now, m, secret);
    DateOneLine(m.headers, "x-amz-date");
    AlikeTransparent(signer, now, SignedText(signer, verb, url, fields, payloadHash, now), secret, HeaderText(m.headers, "x-amz-date"),
                     RebuiltBy(signer, verb, url, fields, payloadHash, now, m));
    RebuiltArrives(Transparent(), signer, verb, url, fields, payloadHash, now, m);
  }

  lemma {:induction false} SameIsAccepted(crypto: Crypto, signer: Signer, verb: string, url: Url, fields: Fields, payloadHash: string,
                                          now: Clock, m: Message, secret: string)
    requires Signable(signer, url, fields, now) && "authorization" !in fields
    requires OneLiners(verb, url.path, url.query) && OneLiners(m.verb, m.path, m.query)
    requires secret == signer.secretAccessKey && HeaderText(m.headers, "x-amz-date") == now.amzDate
    requires AsSigned(signer, verb, url, fields, payloadHash, now, m)
    ensures Accepts(crypto, m, Written(crypto, signer, verb, url, fields, payloadHash, now), secret)
  {
    AcceptsBySignature(crypto, signer, verb, url, fields, payloadHash, now, m, secret);
    RebuiltArrives(crypto, signer, verb, url, fields, payloadHash, now, m);
    AlikeIfSame(crypto, signer, now, SignedText(signer, verb, url, fields, payloadHash, now),
                RebuiltBy(signer, verb, url, fields, payloadHash, now, m));
  }

  lemma {:induction false} SameSecret(k1: string, k2: string, d: string, r: string, s: string, a1: string, a2: string, x: string, y: string)
    ensures Signature(KeyOnly(), k1, d, r, s, a1, x) == Signature(KeyOnly(), k2, d, r, s, a2, y) <==> k1 == k2
  {
    KeyOnlySignature(k1, d, r, s, a1, x);
    KeyOnlySignature(k2, d, r, s, a2, y);
    HexOfText("AWS4" + k1, "AWS4" + k2);
    ConcatCancels("AWS4", k1, k2);
  }

  lemma {:induction false} SameText(k1: string, k2: string, d: string, r: string, s: string, a1: string, a2: string, x: string, y: string)
    requires PlainScope(d, r, s) && OneLine(a1) && OneLine(a2)
    ensures Signature(Transparent(), k1, d, r, s, a1, x) == Signature(Transparent(), k2, d, r, s, a2, y) <==> a1 == a2 && x == y
  {
    TransparentSignature(k1, d, r, s, a1, x);
    TransparentSignature(k2, d, r, s, a2, y);
    HexOfText(TextToSign(d, r, s, a1, x), TextToSign(d, r, s, a2, y));
    TextBinds(d, r, s, a1, x, d, r, s, a2, y);
  }

  // ---- What the signer adds, and what it signs.

  /** The headers the signer sets by itself. */
  predicate Added(signer: Signer, name: string) {
    || name == "x-amz-date" || name == "x-amz-content-sha256" || name == "host" || name == "authorization"
    || (name == "x-amz-security-token" && signer.sessionToken.Some?)
  }

  lemma NamesDiffer()
    ensures "x-amz-date" != "x-amz-content-sha256" && "x-amz-date" != "x-amz-security-token"
    ensures "x-amz-content-sha256" != "x-amz-security-token"
    ensures "host" != "x-amz-date" && "host" != "x-amz-content-sha256" && "host" != "x-amz-security-token"
    ensures "authorization" != "x-amz-date" && "authorization" != "x-amz-content-sha256"
    ensures "authorization" != "x-amz-security-token" && "authorization" != "host"
  {
    assert "authorization"[0] == 'a' && "host"[0] == 'h' && "x-amz-date"[0] == 'x';
    assert "x-amz-date"[6] == 'd' && "x-amz-content-sha256"[6] == 'c' && "x-amz-security-token"[6] == 's';
  }

  /** Five headers set one after the other, the third only if there is a value. */
  function SetAll(fields: Fields, n1: string, v1: string, n2: string, v2: string, n3: string, v3: Option<string>, n4: string, v4: string,
                  n5: string, v5: string): Fields
  {
    var two := fields[n1 := v1][n2 := v2];
    var three := if v3.Some? then two[n3 := v3.value] else two;
    three[n4 := v4][n5 := v5]
  }

  lemma SetApart(fields: Fields, n1: string, v1: string, n2: string, v2: string, n3: string, v3: Option<string>, n4: string, v4: string,
                 n5: string, v5: string)
    requires n1 != n2 && n1 != n3 && n2 != n3 && n4 != n1 && n4 != n2 && n4 != n3
    requires n5 != n1 && n5 != n2 && n5 != n3 && n5 != n4
    ensures var all := SetAll(fields, n1, v1, n2, v2, n3, v3, n4, v4, n5, v5);
            && n1 in all && all[n1] == v1 && n2 in all && all[n2] == v2 && n4 in all && all[n4] == v4 && n5 in all
            && (v3.Some? ==> n3 in all && all[n3] == v3.value)
            && (forall k :: k in fields && k != n1 && k != n2 && k != n4 && k != n5 && (k == n3 ==> v3.None?) ==> k in all && all[k] == fields[k])
            && (forall k :: k in all ==> k in fields || k == n1 || k == n2 || k == n4 || k == n5 || (k == n3 && v3.Some?))
  {
  }

  lemma {:induction false} PreparedIsSet(signer: Signer, url: Url, fields: Fields, payloadHash: string, now: Clock, written: string)
    requires url.host.Some?
    ensures Prepared(signer, url, fields, payloadHash, now)["authorization" := written]
         == SetAll(fields, "x-amz-date", now.amzDate, "x-amz-content-sha256", payloadHash, "x-amz-security-token", signer.sessionToken,
                   "host", HostHeader(url), "authorization", written)
  {
  }

  lemma {:induction false} SignedIsSet(crypto: Crypto, signer: Signer, verb: string, url: Url, fields: Fields, payloadHash: string, now: Clock)
    requires url.host.Some?
    ensures var written := AuthHeader(crypto, signer, verb, url, Prepared(signer, url, fields, payloadHash, now), payloadHash, now);
            SignedFields(crypto, signer, verb, url, fields, payloadHash, now)
            == Prepared(signer, url, fields, payloadHash, now)["authorization" := written]
  {
  }

  /** After signing, the date, the payload hash, the host and the token are in, and other headers are as before. */
  lemma {:induction false} SignedFieldsAre(crypto: Crypto, signer: Signer, verb: string, url: Url, fields: Fields, payloadHash: string, now: Clock)
    requires url.host.Some?
    ensures var signed := SignedFields(crypto, signer, verb, url, fields, payloadHash, now);
            && "x-amz-date" in signed && signed["x-amz-date"] == now.amzDate
            && "x-amz-content-sha256" in signed && signed["x-amz-content-sha256"] == payloadHash
            && "host" in signed && "authorization" in signed
            && signed["host"] == (if url.port.None? then url.host.value else url.host.value + ":" + url.port.value)
            && (signer.sessionToken.Some? ==>
                "x-amz-security-token" in signed && signed["x-amz-security-token"] == signer.sessionToken.value)
    ensures var signed := SignedFields(crypto, signer, verb, url, fields, payloadHash, now);
            && (forall k :: k in fields && !Added(signer, k) ==> k in signed && signed[k] == fields[k])
            && (forall k :: k in signed ==> k in fields || Added(signer, k))
  {
    var written := AuthHeader(crypto, signer, verb, url, Prepared(signer, url, fields, payloadHash, now), payloadHash, now);
    NamesDiffer();
    SignedIsSet(crypto, signer, verb, url, fields, payloadHash, now);
    PreparedIsSet(signer, url, fields, payloadHash, now, written);
    SetApart(fields, "x-amz-date", now.amzDate, "x-amz-content-sha256", payloadHash, "x-amz-security-token", signer.sessionToken,
             "host", HostHeader(url), "authorization", written);
  }

  /** Everything that was there before the signature is signed, by name, in order, and under the credential of the signer. */
  lemma {:induction false} SignsEverything(crypto: Crypto, signer: Signer, verb: string, url: Url, fields: Fields, payloadHash: string, now: Clock)
    requires Signable(signer, url, fields, now) && "authorization" !in fields
    ensures var signed := SignedFields(crypto, signer, verb, url, fields, payloadHash, now);
            var auth := ParsedAuth(signed["authorization"]);
            && auth.Ok? && auth.value.accessKeyId == signer.accessKeyId && auth.value.dateStamp == now.dateStamp
            && auth.value.region == signer.region && auth.value.service == signer.service
            && StrictlySorted(auth.value.signedHeaders)
            && forall k :: k in auth.value.signedHeaders <==> k in signed && k != "authorization"
  {
    var prepared := Prepared(signer, url, fields, payloadHash, now);
    PreparedKeys(signer, url, fields, payloadHash, now);
    ParsedBack(crypto, signer, verb, url, fields, payloadHash, now);
    SortedKeysEnumerates(prepared.Keys);
  }

  // ---- What a header must hold to be read.

  /** A header is read only if it spells the scheme and, among its parts, a credential that ends in the fixed word, the names and the signature. */
  lemma {:induction false} ReadIsSpelled(header: string)
    requires ParsedAuth(header).Ok?
    ensures var auth := ParsedAuth(header).value;
            && "AWS4-HMAC-SHA256 " <= header
            && var parts := Split(header[|"AWS4-HMAC-SHA256 "|..], ", ");
            && "Credential=" + (auth.accessKeyId + "/" + auth.dateStamp + "/" + auth.region + "/" + auth.service + "/aws4_request") in parts
            && "SignedHeaders=" + Join(auth.signedHeaders, ";") in parts
            && "Signature=" + auth.signature in parts
  {
    var auth := ParsedAuth(header).value;
    var parts := Split(header[|SCHEME|..], ", ");
    var credential := LastStripped(parts, CREDENTIAL, None);
    LastStrippedFrom(parts, CREDENTIAL, None);
    LastStrippedFrom(parts, SIGNED_HEADERS, None);
    LastStrippedFrom(parts, SIGNATURE, None);
    FiveFields(credential.value);
    JoinSplit(LastStripped(parts, SIGNED_HEADERS, None).value, ";");
    Tagged(parts, CREDENTIAL, credential.value);
    Tagged(parts, SIGNED_HEADERS, LastStripped(parts, SIGNED_HEADERS, None).value);
    Tagged(parts, SIGNATURE, auth.signature);
  }

  lemma Tagged(parts: seq<string>, tag: string, value: string)
    requires exists part :: part in parts && tag <= part && part[|tag|..] == value
    ensures tag + value in parts
  {
    var part :| part in parts && tag <= part && part[|tag|..] == value;
    assert part == tag + value;
  }

  lemma {:induction false} FiveFields(credential: string)
    requires var cred := Split(credential, "/"); |cred| == 5 && cred[4] == "aws4_request"
    ensures var cred := Split(credential, "/");
            credential == cred[0] + "/" + cred[1] + "/" + cred[2] + "/" + cred[3] + "/aws4_request"
  {
    var cred := Split(credential, "/");
    JoinSplit(credential, "/");
    assert cred == [cred[0], cred[1], cred[2], cred[3], cred[4]];
    FiveJoined(cred[0], cred[1], cred[2], cred[3]);
  }

  lemma {:induction false} FiveJoined(a: string, d: string, r: string, s: string)
    ensures Join([a, d, r, s, "aws4_request"], "/") == a + "/" + d + "/" + r + "/" + s + "/aws4_request"
  {
    CredentialIsJoin(a, d, r, s);
    ScopeText(d, r, s);
    assert a + "/" + (d + "/" + r + "/" + s + "/aws4_request") == a + "/" + d + "/" + r + "/" + s + "/aws4_request";
  }

  predicate AllBlank(s: string) {
    forall i :: 0 <= i < |s| ==> s[i] == ' ' || s[i] == '\t'
  }

  /** Blanks around a header value are not signed, and what is signed neither begins nor ends with one. */
  lemma {:induction false} BlanksAreNotSigned(before: string, value: string, after: string)
    requires AllBlank(before) && AllBlank(after)
    requires value != "" && !AllBlank(value[..1]) && !AllBlank(value[|value| - 1..])
    ensures TrimBlanks(before + value + after) == value
    decreases |before| + |after|
  {
    var s := before + value + after;
    assert value[..1][0] == value[0] && value[|value| - 1..][0] == value[|value| - 1];
    if before != "" {
      assert s[0] == before[0] && s[1..] == before[1..] + value + after;
      BlanksAreNotSigned(before[1..], value, after);
    } else if after != "" {
      assert s[0] == value[0];
      assert s[|s| - 1] == after[|after| - 1] && s[..|s| - 1] == before + value + after[..|after| - 1];
      BlanksAreNotSigned(before, value, after[..|after| - 1]);
    } else {
      assert s == value;
    }
  }
}
