/** What the signer writes, the verifier accepts. */
module SigningProofs {
  import opened Text
  import opened Ordering
  import Utf8
  import opened Percent
  import opened Types
  import opened Requests
  import opened QueryCanonical
  import opened SigV4

  // ---- Text without `, `: the separator of the header's three parts.

  ghost predicate HasCommaSpace(s: string) {
    exists i :: 0 <= i < |s| - 1 && s[i] == ',' && s[i + 1] == ' '
  }

  lemma {:induction false} CommaSpaceOccurs(s: string, i: nat)
    ensures OccursAt(s, ", ", i) <==> i + 1 < |s| && s[i] == ',' && s[i + 1] == ' '
  {
    if i + 2 <= |s| {
      assert s[i..i + 2] == [s[i], s[i + 1]];
    }
  }

  lemma {:induction false} FindCommaSpace(s: string)
    ensures Find(s, ", ").Some? <==> HasCommaSpace(s)
  {
    FindSpec(s, ", ");
    if HasCommaSpace(s) {
      var i :| 0 <= i < |s| - 1 && s[i] == ',' && s[i + 1] == ' ';
      CommaSpaceOccurs(s, i);
    }
    if Find(s, ", ").Some? {
      CommaSpaceOccurs(s, Find(s, ", ").value);
    }
  }

  lemma {:induction false} FreeOfCommaSpace(s: string)
    requires !HasCommaSpace(s)
    ensures FreeOf(s, ", ")
  {
    forall i: nat | i < |s|
      ensures !OccursAt(s + ", ", ", ", i)
    {
      CommaSpaceOccurs(s + ", ", i);
      assert (s + ", ")[i] == s[i];
      if i + 1 < |s| {
        assert (s + ", ")[i + 1] == s[i + 1];
      } else {
        assert (s + ", ")[i + 1] == ',';
      }
    }
  }

  /** A slash between two texts cannot make a `, `. */
  lemma {:induction false} SlashKeepsApart(a: string, b: string)
    ensures HasCommaSpace(a + "/" + b) <==> HasCommaSpace(a) || HasCommaSpace(b)
  {
    var s := a + "/" + b;
    assert s[|a|] == '/';
    if i :| 0 <= i < |a| - 1 && a[i] == ',' && a[i + 1] == ' ' {
      assert s[i] == a[i] && s[i + 1] == a[i + 1];
    }
    if i :| 0 <= i < |b| - 1 && b[i] == ',' && b[i + 1] == ' ' {
      assert s[|a| + 1 + i] == b[i] && s[|a| + 1 + i + 1] == b[i + 1];
    }
    if i :| 0 <= i < |s| - 1 && s[i] == ',' && s[i + 1] == ' ' {
      if i < |a| {
        assert i + 1 < |a|;
        assert a[i] == ',' && a[i + 1] == ' ';
      } else {
        assert i > |a|;
        assert b[i - |a| - 1] == ',' && b[i - |a| - 1 + 1] == ' ';
      }
    }
  }

  lemma {:induction false} NoCommas(s: string)
    requires ',' !in s
    ensures !HasCommaSpace(s)
  {
  }

  // ---- The authorization header is parsed back.

  predicate GoodStamp(s: string) {
    '/' !in s && ',' !in s
  }

  /** Header names are tokens: in particular free of `;` and `,`. */
  ghost predicate TokenNames(fields: Fields) {
    forall k :: k in fields ==> k != "" && ';' !in k && ',' !in k
  }

  ghost predicate TokenList(names: seq<string>) {
    names != [] && forall i :: 0 <= i < |names| ==> ';' !in names[i] && ',' !in names[i]
  }

  lemma {:induction false} JoinedNames(names: seq<string>)
    requires TokenList(names)
    ensures Split(Join(names, ";"), ";") == names && ',' !in Join(names, ";")
  {
    forall p | p in names
      ensures FreeOf(p, ";")
    {
      FreeOfChar(p, ';');
    }
    SplitJoin(names, ";");
    JoinNoComma(names);
  }

  lemma {:induction false} JoinNoComma(names: seq<string>)
    requires forall i :: 0 <= i < |names| ==> ',' !in names[i]
    ensures ',' !in Join(names, ";")
    decreases |names|
  {
    if |names| > 1 {
      JoinNoComma(names[1..]);
    }
  }

  function CredentialOf(accessKeyId: string, dateStamp: string, region: string, service: string): string {
    accessKeyId + "/" + Scope(dateStamp, region, service)
  }

  lemma {:induction false} CredentialIsJoin(a: string, d: string, r: string, s: string)
    ensures CredentialOf(a, d, r, s) == Join([a, d, r, s, "aws4_request"], "/")
    ensures CredentialOf(a, d, r, s) == a + "/" + (d + "/" + (r + "/" + (s + "/" + "aws4_request")))
  {
    var tail := [d, r, s, "aws4_request"];
    assert [a, d, r, s, "aws4_request"][1..] == tail;
    assert tail[1..] == [r, s, "aws4_request"];
    assert [r, s, "aws4_request"][1..] == [s, "aws4_request"];
    assert [s, "aws4_request"][1..] == ["aws4_request"];
    assert Join(["aws4_request"], "/") == "aws4_request";
    assert Join([s, "aws4_request"], "/") == s + "/" + "aws4_request";
    assert Join([r, s, "aws4_request"], "/") == r + "/" + (s + "/" + "aws4_request");
    assert Join(tail, "/") == d + "/" + (r + "/" + (s + "/" + "aws4_request"));
  }

  lemma {:induction false} CredentialSplits(a: string, d: string, r: string, s: string)
    requires '/' !in a && '/' !in d && '/' !in r && '/' !in s
    ensures Split(CredentialOf(a, d, r, s), "/") == [a, d, r, s, "aws4_request"]
  {
    CredentialIsJoin(a, d, r, s);
    var parts := [a, d, r, s, "aws4_request"];
    forall p | p in parts
      ensures FreeOf(p, "/")
    {
      FreeOfChar(p, '/');
    }
    SplitJoin(parts, "/");
  }

  lemma {:induction false} CredentialCommas(a: string, d: string, r: string, s: string)
    requires ',' !in d && ',' !in s
    ensures HasCommaSpace(CredentialOf(a, d, r, s)) <==> HasCommaSpace(a) || HasCommaSpace(r)
  {
    CredentialIsJoin(a, d, r, s);
    var t3 := s + "/" + "aws4_request";
    var t2 := r + "/" + t3;
    var t1 := d + "/" + t2;
    NoCommas(t3);
    NoCommas(d);
    SlashKeepsApart(r, t3);
    SlashKeepsApart(d, t2);
    SlashKeepsApart(a, t1);
  }

  lemma {:induction false} TaggedCommas(tag: string, s: string)
    requires tag != "" && ',' !in tag
    ensures HasCommaSpace(tag + s) <==> HasCommaSpace(s)
  {
    if i :| 0 <= i < |s| - 1 && s[i] == ',' && s[i + 1] == ' ' {
      assert (tag + s)[|tag| + i] == ',' && (tag + s)[|tag| + i + 1] == ' ';
    }
    if i :| 0 <= i < |tag + s| - 1 && (tag + s)[i] == ',' && (tag + s)[i + 1] == ' ' {
      assert i >= |tag|;
      assert s[i - |tag|] == ',' && s[i - |tag| + 1] == ' ';
    }
  }

  /** The three parts of the header, taken apart again. */
  lemma {:induction false} HeaderParts(credential: string, names: string, signature: string)
    requires !HasCommaSpace(credential) && ',' !in names && ',' !in signature
    ensures var text := (CREDENTIAL + credential) + ", " + ((SIGNED_HEADERS + names) + ", " + (SIGNATURE + signature));
            var parts := Split(text, ", ");
            && LastStripped(parts, CREDENTIAL, None) == Some(credential)
            && LastStripped(parts, SIGNED_HEADERS, None) == Some(names)
            && LastStripped(parts, SIGNATURE, None) == Some(signature)
  {
    var c, h, s := CREDENTIAL + credential, SIGNED_HEADERS + names, SIGNATURE + signature;
    TaggedCommas(CREDENTIAL, credential);
    NoCommas(h);
    NoCommas(s);
    FreeOfCommaSpace(c);
    FreeOfCommaSpace(h);
    FreeOfCommaSpace(s);
    SplitHead(c, ", ", h + ", " + s);
    SplitHead(h, ", ", s);
    SplitSingle(s, ", ");
    assert [c] + ([h] + [s]) == [] + [c] + [h] + [s];
    Stripped3(c, h, s, CREDENTIAL);
    Stripped3(c, h, s, SIGNED_HEADERS);
    Stripped3(c, h, s, SIGNATURE);
    TagsExclude(c);
    TagsExclude(h);
    TagsExclude(s);
    assert c[|CREDENTIAL|..] == credential && h[|SIGNED_HEADERS|..] == names && s[|SIGNATURE|..] == signature;
    assert CREDENTIAL <= c && SIGNED_HEADERS <= h && SIGNATURE <= s;
  }

  lemma {:induction false} Stripped3(a: string, b: string, c: string, tag: string)
    ensures LastStripped([a] + ([b] + [c]), tag, None)
         == if tag <= c then Some(c[|tag|..])
            else if tag <= b then Some(b[|tag|..])
            else if tag <= a then Some(a[|tag|..]) else None
  {
    LastStrippedAppend([a, b], c, tag, None);
    LastStrippedAppend([a], b, tag, None);
    LastStrippedAppend([], a, tag, None);
    assert [a, b] + [c] == [a] + ([b] + [c]) && [a] + [b] == [a, b] && [] + [a] == [a];
  }

  /**
    The header the signer writes is parsed into what was signed exactly when neither the
    access key nor the region holds a `/` or a `, `.
   */
  lemma {:induction false} AuthHeaderParses(a: string, d: string, r: string, s: string, names: seq<string>, signature: string)
    requires GoodStamp(d) && GoodStamp(s) && TokenList(names) && ',' !in signature
    ensures ParsedAuth(AuthText(a, d, r, s, names, signature)) == Ok(SigV4Auth(a, d, r, s, names, signature))
            <==> '/' !in a && '/' !in r && !HasCommaSpace(a) && !HasCommaSpace(r)
  {
    var header := AuthText(a, d, r, s, names, signature);
    var credential := CredentialOf(a, d, r, s);
    var text := (CREDENTIAL + credential) + ", " + ((SIGNED_HEADERS + Join(names, ";")) + ", " + (SIGNATURE + signature));
    assert header == SCHEME + text;
    assert SCHEME <= header && header[|SCHEME|..] == text;
    CredentialCommas(a, d, r, s);
    JoinedNames(names);
    if '/' !in a && '/' !in r && !HasCommaSpace(a) && !HasCommaSpace(r) {
      HeaderParts(credential, Join(names, ";"), signature);
      CredentialSplits(a, d, r, s);
    } else {
      var parsed := ParsedAuth(header);
      if parsed.Ok? {
        ParsedFields(text);
      }
    }
  }

  /** No field taken out of a credential holds a `/` or a `, `. */
  lemma {:induction false} ParsedFields(text: string)
    ensures var credential := LastStripped(Split(text, ", "), CREDENTIAL, None);
            credential.Some? ==>
              forall p :: p in Split(credential.value, "/") ==> '/' !in p && !HasCommaSpace(p)
  {
    var parts := Split(text, ", ");
    var credential := LastStripped(parts, CREDENTIAL, None);
    if credential.Some? {
      SplitPartsFree(text, ", ");
      LastStrippedFrom(parts, CREDENTIAL, None);
      var part :| part in parts && CREDENTIAL <= part && credential.value == part[|CREDENTIAL|..];
      FindCommaSpace(part);
      assert part == CREDENTIAL + credential.value;
      TaggedCommas(CREDENTIAL, credential.value);
      SplitCharParts(credential.value, '/');
      SplitKeepsApart(credential.value);
    }
  }

  lemma {:induction false} LastStrippedFrom(parts: seq<string>, tag: string, current: Option<string>)
    ensures LastStripped(parts, tag, current) == current
            || exists part :: part in parts && tag <= part && LastStripped(parts, tag, current) == Some(part[|tag|..])
  {
    if parts != [] {
      LastStrippedFrom(parts[1..], tag, if tag <= parts[0] then Some(parts[0][|tag|..]) else current);
    }
  }

  lemma {:induction false} SplitKeepsApart(s: string)
    requires !HasCommaSpace(s)
    ensures forall p :: p in Split(s, "/") ==> !HasCommaSpace(p)
    decreases |s|
  {
    var r := Find(s, "/");
    if r.Some? {
      FindChar(s, '/');
      var i := r.value;
      assert s == s[..i] + "/" + s[i + 1..];
      SlashKeepsApart(s[..i], s[i + 1..]);
      SplitKeepsApart(s[i + 1..]);
      assert s[i + |"/"|..] == s[i + 1..];
    }
  }

  // ---- The verifier reconstructs the canonical request.

  lemma {:induction false} SameCanonicalHeaders(names: seq<string>, f: Fields, g: Fields)
    requires forall i :: 0 <= i < |names| ==> names[i] in f && names[i] in g && f[names[i]] == g[names[i]]
    ensures CanonicalHeaders(names, f) == CanonicalHeaders(names, g)
  {
    if names != [] {
      SameCanonicalHeaders(names[1..], f, g);
    }
  }

  ghost predicate Agrees(f: Fields, g: Fields) {
    forall k :: k in f ==> k in g && g[k] == f[k]
  }

  /** The signed request arrives with every signed header unchanged. */
  lemma {:induction false} SignedRequestVerifies(crypto: Crypto, signer: Signer, verb: string, url: Url, fields: Fields,
                                                 payloadHash: string, now: Clock, received: Fields)
    requires url.host.Some? && TokenNames(fields) && VisibleAscii(now.amzDate)
    requires GoodStamp(now.dateStamp) && GoodStamp(signer.service)
    requires '/' !in signer.accessKeyId && '/' !in signer.region
    requires !HasCommaSpace(signer.accessKeyId) && !HasCommaSpace(signer.region)
    requires var prepared := Prepared(signer, url, fields, payloadHash, now);
             && Agrees(prepared, received) && "authorization" in received
             && received["authorization"] == AuthHeader(crypto, signer, verb, url, prepared, payloadHash, now)
    ensures var auth := ParsedAuth(received["authorization"]);
            && auth.Ok? && auth.value.accessKeyId == signer.accessKeyId && auth.value.region == signer.region
            && auth.value.signature
               == ExpectedSignature(crypto, verb, url.path, url.query, received, auth.value, signer.secretAccessKey, payloadHash)
  {
    var prepared := Prepared(signer, url, fields, payloadHash, now);
    var names := SortedKeys(prepared.Keys);
    var request := CanonicalRequest(verb, url.path, url.query, names, prepared, payloadHash);
    var signature := Signature(crypto, signer.secretAccessKey, now.dateStamp, signer.region, signer.service, now.amzDate, request);
    PreparedNames(signer, url, fields, payloadHash, now);
    NoCommasInHex(crypto, signer, now, request);
    AuthHeaderParses(signer.accessKeyId, now.dateStamp, signer.region, signer.service, names, signature);
    SameCanonicalHeaders(names, prepared, received);
    PreparedDate(signer, url, fields, payloadHash, now);
    assert HeaderText(received, "x-amz-date") == now.amzDate;
  }

  lemma {:induction false} PreparedDate(signer: Signer, url: Url, fields: Fields, payloadHash: string, now: Clock)
    requires url.host.Some?
    ensures var prepared := Prepared(signer, url, fields, payloadHash, now);
            "x-amz-date" in prepared && prepared["x-amz-date"] == now.amzDate
  {
    assert "x-amz-date"[0] == 'x' && "host"[0] == 'h';
    assert "x-amz-date"[6] == 'd' && "x-amz-content-sha256"[6] == 'c' && "x-amz-security-token"[6] == 's';
  }

  lemma {:induction false} NoCommasInHex(crypto: Crypto, signer: Signer, now: Clock, request: string)
    ensures ',' !in Signature(crypto, signer.secretAccessKey, now.dateStamp, signer.region, signer.service, now.amzDate, request)
  {
  }

  lemma {:induction false} PreparedNames(signer: Signer, url: Url, fields: Fields, payloadHash: string, now: Clock)
    requires url.host.Some? && TokenNames(fields)
    ensures var prepared := Prepared(signer, url, fields, payloadHash, now);
            var names := SortedKeys(prepared.Keys);
            && TokenList(names)
            && forall i :: 0 <= i < |names| ==> names[i] in prepared
  {
    var prepared := Prepared(signer, url, fields, payloadHash, now);
    RequiredNames();
    PreparedKeys(signer, url, fields, payloadHash, now);
    assert "host" in prepared;
    SortedTokens(prepared);
  }

  lemma RequiredNames()
    ensures TokenNames(map["x-amz-date" := "", "x-amz-content-sha256" := "", "x-amz-security-token" := "", "host" := ""])
  {
  }

  lemma {:induction false} SortedTokens(fields: Fields)
    requires TokenNames(fields) && fields.Keys != {}
    ensures var names := SortedKeys(fields.Keys);
            TokenList(names) && forall i :: 0 <= i < |names| ==> names[i] in fields
  {
    SortedKeysEnumerates(fields.Keys);
    var names := SortedKeys(fields.Keys);
    EmptyEnumeration(names, fields.Keys);
    forall i | 0 <= i < |names|
      ensures names[i] in fields
    {
      assert names[i] in names;
    }
  }

  /** One more header and others beside them leave the given headers as they are. */
  lemma AddedApart(fields: Fields, name: string, value: string, added: Fields)
    requires name !in fields && name !in added && added.Keys !! fields.Keys
    ensures Agrees(fields, fields[name := value] + added)
    ensures name in fields[name := value] + added && (fields[name := value] + added)[name] == value
  {
  }

  /** Signing, then verifying with the same secret, succeeds: no header of the signed request is touched by the signature itself. */
  lemma {:induction false} SignThenVerify(crypto: Crypto, signer: Signer, verb: string, url: Url, fields: Fields,
                                          payloadHash: string, now: Clock, added: Fields)
    requires url.host.Some? && TokenNames(fields) && VisibleAscii(now.amzDate) && "authorization" !in fields
    requires GoodStamp(now.dateStamp) && GoodStamp(signer.service)
    requires '/' !in signer.accessKeyId && '/' !in signer.region
    requires !HasCommaSpace(signer.accessKeyId) && !HasCommaSpace(signer.region)
    requires added.Keys !! Prepared(signer, url, fields, payloadHash, now).Keys && "authorization" !in added
    ensures var received := SignedFields(crypto, signer, verb, url, fields, payloadHash, now) + added;
            && "authorization" in received
            && var auth := ParsedAuth(received["authorization"]);
            && auth.Ok? && auth.value.accessKeyId == signer.accessKeyId && auth.value.region == signer.region
            && auth.value.signature
               == ExpectedSignature(crypto, verb, url.path, url.query, received, auth.value, signer.secretAccessKey, payloadHash)
  {
    var prepared := Prepared(signer, url, fields, payloadHash, now);
    PreparedKeys(signer, url, fields, payloadHash, now);
    var received := SignedFields(crypto, signer, verb, url, fields, payloadHash, now) + added;
    var written := AuthHeader(crypto, signer, verb, url, prepared, payloadHash, now);
    assert received == prepared["authorization" := written] + added;
    AddedApart(prepared, "authorization", written, added);
    SignedRequestVerifies(crypto, signer, verb, url, fields, payloadHash, now, received);
  }

  lemma {:induction false} PreparedKeys(signer: Signer, url: Url, fields: Fields, payloadHash: string, now: Clock)
    requires url.host.Some?
    ensures var keys := Prepared(signer, url, fields, payloadHash, now).Keys;
            forall k :: k in keys ==>
              k in fields || k == "x-amz-date" || k == "x-amz-content-sha256" || k == "x-amz-security-token" || k == "host"
    ensures "authorization" !in fields ==> "authorization" !in Prepared(signer, url, fields, payloadHash, now)
  {
    assert "authorization"[0] == 'a' && "host"[0] == 'h' && "x-amz-date"[0] == 'x';
    assert "x-amz-content-sha256"[0] == 'x' && "x-amz-security-token"[0] == 'x';
  }

  // ---- A request that already carries an `authorization` header.

  lemma {:induction false} OneHeaderDiffers(names: seq<string>, f: Fields, g: Fields, name: string)
    requires name in names && forall i, j :: 0 <= i < j < |names| ==> names[i] != names[j]
    requires forall i :: 0 <= i < |names| && names[i] != name ==> HeaderText(f, names[i]) == HeaderText(g, names[i])
    ensures CanonicalHeaders(names, f) == CanonicalHeaders(names, g)
            <==> TrimBlanks(HeaderText(f, name)) == TrimBlanks(HeaderText(g, name))
  {
    var a, b := TrimBlanks(HeaderText(f, names[0])), TrimBlanks(HeaderText(g, names[0]));
    var ta, tb := CanonicalHeaders(names[1..], f), CanonicalHeaders(names[1..], g);
    if names[0] == name {
      assert name !in names[1..];
      SameTexts(names[1..], f, g);
      SameMiddle(name + ":", a, b, "\n" + ta);
      assert CanonicalHeaders(names, f) == (name + ":") + a + ("\n" + ta);
      assert CanonicalHeaders(names, g) == (name + ":") + b + ("\n" + ta);
    } else {
      assert name in names[1..];
      OneHeaderDiffers(names[1..], f, g, name);
      SameMiddle(names[0] + ":" + a + "\n", ta, tb, "");
      assert CanonicalHeaders(names, f) == (names[0] + ":" + a + "\n") + ta + "";
      assert CanonicalHeaders(names, g) == (names[0] + ":" + a + "\n") + tb + "";
    }
  }

  lemma {:induction false} SameTexts(names: seq<string>, f: Fields, g: Fields)
    requires forall i :: 0 <= i < |names| ==> HeaderText(f, names[i]) == HeaderText(g, names[i])
    ensures CanonicalHeaders(names, f) == CanonicalHeaders(names, g)
  {
    if names != [] {
      SameTexts(names[1..], f, g);
    }
  }

  lemma SameMiddle(pre: string, a: string, b: string, post: string)
    ensures pre + a + post == pre + b + post <==> a == b
  {
    if pre + a + post == pre + b + post {
      assert |a| == |b|;
      assert (pre + a + post)[|pre|..|pre| + |a|] == a;
      assert (pre + b + post)[|pre|..|pre| + |b|] == b;
    }
  }

  lemma {:induction false} OverwrittenExactly(verb: string, path: string, query: string, fields: Fields, name: string, value: string,
                                              payloadHash: string)
    requires name in fields
    ensures var names := SortedKeys(fields.Keys);
            var received := fields[name := value];
            CanonicalRequest(verb, path, query, names, received, payloadHash)
              == CanonicalRequest(verb, path, query, names, fields, payloadHash)
            <==> TrimBlanks(HeaderText(received, name)) == TrimBlanks(HeaderText(fields, name))
  {
    var names := SortedKeys(fields.Keys);
    SortedKeysEnumerates(fields.Keys);
    assert name in fields.Keys;
    forall i, j | 0 <= i < j < |names|
      ensures names[i] != names[j]
    {
      LessTotal(names[i], names[j]);
    }
    SameRequestExactly(verb, path, query, names, fields[name := value], fields, payloadHash, name);
  }

  lemma {:induction false} SameRequestExactly(verb: string, path: string, query: string, names: seq<string>, f: Fields, g: Fields,
                                              payloadHash: string, name: string)
    requires name in names && forall i, j :: 0 <= i < j < |names| ==> names[i] != names[j]
    requires forall i :: 0 <= i < |names| && names[i] != name ==> HeaderText(f, names[i]) == HeaderText(g, names[i])
    ensures CanonicalRequest(verb, path, query, names, f, payloadHash) == CanonicalRequest(verb, path, query, names, g, payloadHash)
            <==> TrimBlanks(HeaderText(f, name)) == TrimBlanks(HeaderText(g, name))
  {
    OneHeaderDiffers(names, f, g, name);
    RequestAround(verb, path, query, names, f, payloadHash);
    RequestAround(verb, path, query, names, g, payloadHash);
    SameMiddle(Before(verb, path, query), CanonicalHeaders(names, f), CanonicalHeaders(names, g), After(names, payloadHash));
  }

  function Before(verb: string, path: string, query: string): string {
    verb + "\n" + path + "\n" + Canonical(query) + "\n"
  }

  function After(names: seq<string>, payloadHash: string): string {
    "\n" + Join(names, ";") + "\n" + payloadHash
  }

  lemma {:induction false} RequestAround(verb: string, path: string, query: string, names: seq<string>, fields: Fields, payloadHash: string)
    ensures CanonicalRequest(verb, path, query, names, fields, payloadHash)
         == Before(verb, path, query) + CanonicalHeaders(names, fields) + After(names, payloadHash)
  {
  }
}
