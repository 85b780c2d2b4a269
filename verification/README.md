# Multistore: a verified model of the gateway's translations and protocols

Multistore is an S3 gateway. A client speaks S3 to it; the gateway names the same objects in
another way (backend buckets, prefixed keys, signed URLs, internal buckets made of path segments)
and answers in the client's terms again. Most of its logic is therefore translation between
namespaces, and each translation promises to be undone by, or to agree with, another one. Beside
the translations stand three stateful pieces: the credential cache, the bandwidth meter, and the
request body on its way through a request. This project models those parts in Dafny and proves
what they promise each other.

## How the model is laid out

One module per component. A string is a sequence of Unicode scalar values, as in Rust.

- Library behaviour that the rest relies on: `Text` (searching, splitting, joining, trimming),
  `Utf8`, `Percent` (sections 2.1 and 2.3 of RFC 3986), `Query` (sections 5.1 and 5.2 of the WHATWG
  URL Standard, and the list parameters), `Ordering` (byte order of keys, library sort), `Types`.
- Keys and listings: `Keys`, `Listing`, `PrefixView`, `MarkerPaging`, `PageSizes`, `FirstKeys`, `FolderListing`.
- Requests and backend URLs: `Requests`, `BackendUrl`, `UrlRoundTrips`.
- Signatures: `QueryCanonical`, `SigV4`, `SigningProofs`, `StaleAuthorization`, `SignatureBinding`, `StreamingForward`.
  Hash and HMAC are arbitrary functions.
- Hierarchical names: `PathMapping`, `PathMappingProofs`, `PrefixFolding`, `FoldedListing`, `FoldingInputs`.
- Roles: `SubjectGlob`, `ScopeTemplates`, `Authorization`, `ListingScope`.
- State: `CredentialCache` with `CacheRuns`, `BandwidthMeter`, `Gateway`, `BatchDelete`.

What changes state in the original changes state here: the cache, the meter and the header map are
classes; the matcher, the template loop, the parameter and header parsers, the signer, the URL
builder and the batch delete are methods with loops, each proved against a function or relation of
its inputs, about which the properties are then proved. Runs of the cache and of the meter are
sequences of events in any order the component allows.

## Where the code does not do what one would expect

Each of these is kept as the code has it, and the exact condition is a theorem.

- Version 1 listings hand out the path of a backend key as `NextMarker` and prefix the marker they
  are handed (`crates/core/src/proxy.rs:1293-1297` and `crates/core/src/proxy.rs:1354-1363`). Paging
  is complete exactly when no backend prefix under which keys can lie is configured
  (`MarkerPaging.PagingExactlyWithoutPrefix`) and no folder marker is visible or ends a page before
  the last, an exception for pages of two aside (`PageSizes.PagingExactlyFor`,
  `PageSizes.PagingExactly`).
- The key of a folder marker loses its slash in the path parser. A marker that the listing does not
  filter is shown under a key that need not be stored (`PrefixView.PrefixViewExactly`,
  `MarkerPaging.FolderMarkerInput`).
- The filter for folder markers goes by the path that is left, so it also drops plain objects of zero
  bytes: one beside a folder of its name (`PrefixView.BesideFolderInput`), and one whose name is the
  very prefix listed (`PrefixView.NameAsPrefixInput`). When nothing at all is lost is
  `PrefixView.PrefixViewExactly`.
- `KeyCount` counts what the backend returned, before zero-byte folder markers are filtered out
  (`PrefixView.KeyCountCountsMarkers`).
- A common prefix always comes back with a final `/`, so other delimiters are shown wrongly
  (`PrefixView.PrefixViewExactly`).
- The raw-signed URL writes a slash for a prefix that trims to nothing; the presigned URL does not
  (`UrlRoundTrips.WriteRoutesAgree`).
- A claim value with a `{` in it is expanded again, and a claim that names itself is expanded for
  ever; the documentation speaks of replacing placeholders (`ScopeTemplates.SimultaneousExactly`,
  `ScopeTemplates.TerminationExactly`, `ScopeTemplates.SelfReferenceDiverges`).
- Canonical query strings are sorted as whole `name=value` strings, which differs from sorting by
  name and value when one name continues another with a character below `=`
  (`QueryCanonical.CanonicalOrderExactly`).
- Folding a list prefix into the bucket reads the first prefix parameter and leaves `+` alone; the
  list parser reads the last one and makes `+` a space; and the character set of the rewritten
  query leaves `%` alone (`FoldedListing.FoldingExactly`, `FoldingInputs.PlusInput`,
  `FoldingInputs.DisagreeingInput`, `FoldingInputs.EncodedInput`).
- The same fold takes the product off the prefix but passes `start-after` and `marker`, which are keys
  in the client's namespace too, on as they are. A client that resumes from a key it was shown, with
  `list-type=2&prefix=b/&start-after=b/m` for instance, is shown other keys than it asked for
  (`FoldingInputs.ResumeInput`); which offsets are harmless is part of `FoldedListing.FoldingExactly`.
- A request that already carries `authorization` has the old value signed and then overwritten, so
  the verifier rebuilds another text (`StaleAuthorization.SigningVerifiesExactly`).
- A listing is authorised by its first prefix parameter and a scope prefix without a slash admits
  the listing of that very name, which shows what merely begins with it
  (`ListingScope.AuthorizedListingExactly`, `ListingScope.BareScopeInput`,
  `ListingScope.TwoPrefixesInput`).
- An alarm at the very moment an entry reaches the edge of the window clears what a check at that
  moment would still count (`BandwidthMeter.EdgeLostExactly`).
- A cache key joins scope and subject with U+001F without escaping; two scopes can share a key
  exactly when one continues the other after that separator (`CredentialCache.ScopesCollideExactly`).

## Model

| member | source | states |
|---|---|---|
| `PrefixView.PrefixViewSeen` | crates/core/src/proxy.rs:1269-1389 | For every store of objects and folder markers, every backend prefix, client prefix, start-after or marker, page size and encoding, the page is that of listing the virtual store of prefixed keys with the client's own parameters; common prefixes and truncation are the direct ones, contents are the objects not hidden under the name the lost slash leaves them, and count and marker are given exactly |
| `PrefixView.PrefixViewRefinement` | crates/core/src/proxy.rs:1269-1389 | If the common prefixes are folders and no object of the page is a folder marker or hidden, the response is that of the virtual store listed directly, every object under its own key |
| `PrefixView.PrefixViewExactly` | crates/core/src/api/list.rs:138-234 | With any delimiter and any stored paths, the listing is the unfiltered direct one if and only if the delimiter is absent or ends in `/` or the page has no common prefix, and no object of the page is a folder marker or a zero-byte object named like a folder of the page or like the listed prefix |
| `PrefixView.PrefixViewModuloFilter` | crates/core/src/api/list.rs:161-181 | Up to the objects the filter hides, that is so if and only if every folder marker of the page is a hidden one |
| `PrefixView.NameAsPrefixInput` | crates/core/src/api/list.rs:161-181 | In every store, a first page whose prefix is the name of a zero-byte object, without delimiter or with one that ends in `/`, holds that object and the response leaves it out |
| `PrefixView.BesideFolderInput` | crates/core/src/api/list.rs:161-181 | A zero-byte object beside a folder of its name is counted but not shown |
| `PrefixView.KeyCountCountsMarkers` | crates/core/src/proxy.rs:1335-1352 | The key count exceeds the entries shown by exactly the hidden markers, keys with a final slash included, and equals them if and only if there is none on the page |
| `Listing.SortedThroughPrefix` | crates/core/src/api/list.rs:91-107 | Order commutes with prefixing: the sorted backend keys are the sorted client keys, each behind the prefix |
| `Listing.GroupThroughPrefix` | crates/core/src/proxy.rs:1308-1329 | Rolling up by delimiter commutes with stripping the prefix |
| `Listing.GroupLists` | crates/core/src/proxy.rs:1308-1329 | An entry is listed if and only if some key is listed as it |
| `Listing.ListedOnce` | crates/core/src/proxy.rs:1308-1329 | Every key and every common prefix of a store is listed once, because what is rolled into one prefix lies together in the order of keys |
| `Listing.EncodedExactly` | crates/core/src/api/list.rs:118-234 | The encoding type `url` percent-encodes the keys, common prefixes and prefix of an answer and changes nothing else; any other value changes nothing |
| `Listing.StrippedInTurn` | crates/core/src/api/list.rs:328-362 | A shown name is the stored one without the bucket's prefix and then without the folder to be stripped, if it is in it |
| `Listing.PutBehind` | crates/core/src/api/list.rs:345-358 | A name is put behind the folder added with one slash between the two exactly if neither side has one and neither is empty |
| `MarkerPaging.CrawlVisitsEverything` | crates/core/src/proxy.rs:1354-1378 | Without a prefix and with folder markers hidden and at the end of no page but the last, following `NextMarker` ends after at most one page per key and has shown every key once, in order |
| `PageSizes.PagingExactlyFor` | crates/core/src/proxy.rs:1354-1378 | Without a prefix, pages of a given size show every key once, in order, if and only if every folder marker under the client prefix is hidden and is the last key, or ends no page, or ends the first page of two after the object of its own name |
| `PageSizes.PagingExactly` | crates/core/src/proxy.rs:1354-1378 | That is so for every page size if and only if a folder marker under the client prefix can only be the last key, and a hidden one |
| `MarkerPaging.PrefixDefeatsPaging` | crates/core/src/proxy.rs:1287-1297 | Under every prefix that is a clean path there is a store on which following `NextMarker` never yields all keys, however many pages are read |
| `MarkerPaging.PagingExactlyWithoutPrefix` | crates/core/src/proxy.rs:1354-1363 | Paging is complete for all stores without a folder marker in the way, all client prefixes and all page sizes, if and only if the trimmed backend prefix is not a clean path (in particular if it is empty) |
| `MarkerPaging.FolderMarkerInput` | crates/core/src/api/list.rs:161-175 | A folder marker before an object is listed under a key that is not stored, and one key at a time the crawl never gets past it |
| `Query.ParseListQueryParams` | crates/core/src/api/list.rs:47-88 | The one-pass loop keeps the last value of each known parameter, caps the page size, and takes version 2 if any `list-type` is `2` |
| `Query.ParseSerialize` | crates/core/src/backend/multipart.rs:74-97 | Parsing undoes serialising for every list of pairs, empty names and all characters included |
| `Query.ListParamsReadBack` | crates/core/src/api/list.rs:47-88 | Every set of list parameters with a page size of at most 1000, spelled under its names, is read back as it was, each value in its own place |
| `Query.LaterParamsWin` | crates/core/src/api/list.rs:47-88 | Whatever stands earlier in the query, the parameters written last are read; what they leave out keeps its earlier value, and version 2 once asked for stays |
| `Query.PageSize` | crates/core/src/api/list.rs:72-81 | Without `max-keys`, or with a text that is no number, a page holds 1000 keys; a number is taken up to 1000 |
| `Percent.DecodeEncode` | crates/core/src/backend/multipart.rs:16-31 | Percent-decoding undoes encoding with the strict path set, on every Unicode string |
| `Percent.StrictKeepsExactly` | crates/core/src/backend/multipart.rs:16-31 | The strict path set leaves a text as it is if and only if it holds only letters, digits and `-._~/` |
| `Utf8.DecodeExactly` | crates/core/src/api/request.rs:119-126 | Bytes decode to a text if and only if they are its UTF-8 encoding |
| `Percent.QueryValueRoundTrip` | crates/path-mapping/src/lib.rs:352-374 | With the set that keeps `%`, a value survives if and only if no `%` of it is followed by two hexadecimal digits; otherwise bytes are lost |
| `Keys.StripUndoesApply` | crates/core/src/proxy.rs:1802-1834 | Stripping the backend prefix undoes applying it, for every prefix and key |
| `Keys.StripLeavesOthers` | crates/core/src/proxy.rs:1818-1834 | A key that does not begin with the prefix and its slash is left as it is |
| `Keys.ApplyInjective` | crates/core/src/proxy.rs:1802-1816 | Different client keys have different backend keys |
| `Keys.ValidKeyExactly` | crates/core/src/api/request.rs:249-274 | A key is valid if and only if it is empty, or it is spelled from non-empty segments other than `.` and `..` with single slashes and holds no control character |
| `Keys.ParsedPathExactly` | crates/core/src/proxy.rs:1770-1795 | A backend path is read from its clean form with or without a slash before and behind it, and from nothing else but the root |
| `Requests.ParsedFromExactly` | crates/core/src/api/request.rs:134-247 | A verb, bucket, key and query parse to an operation if and only if the key is valid, verb, bucket and key are the operation's own, and the query carries what it is told by: `uploads`, `uploadId` and a part number, `delete`, and for a listing the text itself; all else is an invalid request |
| `Requests.CopyParsed` | crates/core/src/api/request.rs:69-131 | A copy names the request path as its destination and the header, or what the header was rewritten to, as its source, which is read back as it was spelled, version included; with an upload id it is not implemented, with an invalid key on either side invalid |
| `Requests.SourceParsedExactly` | crates/core/src/api/request.rs:104-131 | A source with a bucket names its key if and only if the escapes give valid UTF-8 and not the empty name; an empty version is none |
| `Requests.HostStylesAgree` | crates/core/src/api/request.rs:17-61 | A request with the bucket in the host is the request with the bucket before the path, whatever the verb, query and copy source |
| `Requests.LeadingSlashes` | crates/core/src/api/request.rs:284-294 | A path with any number of slashes before it is read as the path without them |
| `BackendUrl.BuildBackendUrl` | crates/core/src/backend/multipart.rs:36-102 | The buffers grown piece by piece hold endpoint, bucket, encoded key and query of the operation, or the key is refused |
| `BackendUrl.UnsignedUrls` | crates/core/src/backend/url_signer.rs:40-106 | Without credentials, the URL of an Azure, GCS or plain S3 object is the provider's host, the container or bucket, and the encoded key |
| `UrlRoundTrips.ParsingUndoesPrinting` | crates/core/src/backend/multipart.rs:36-102 | For every keyed operation, parsing the printed URL as a request gives the operation retargeted to the backend bucket and prefixed key, upload id and part number included, if and only if the prefix is absent or itself a valid key; a copy reads as the plain write it is sent as, its source being in a header, and the URL of a read carries no version |
| `UrlRoundTrips.ParsingUndoesPrintingBatch` | crates/core/src/backend/multipart.rs:46-57 | The batch-delete URL parses back to a batch delete on the backend bucket |
| `UrlRoundTrips.WriteRoutesAgree` | crates/core/src/backend/url_signer.rs:40-106 | The presigned and the raw-signed route write the same URL for a key if and only if the prefix is absent or its trimmed form is a clean path |
| `UrlRoundTrips.CopySourceRoundTrip` | crates/core/src/proxy.rs:1683-1703 | The copy source read off the header is the backend bucket, the prefixed key and the version, if and only if the bucket holds no slash |
| `QueryCanonical.CanonicalizeQueryString` | crates/core/src/auth/sigv4.rs:170-190 | The loop drops empty segments, completes bare flags, sorts, and joins |
| `QueryCanonical.CanonicalKeepsParameters` | crates/core/src/auth/sigv4.rs:170-190 | The canonical query is sorted and holds each parameter as often as the query does |
| `QueryCanonical.CanonicalIdempotent` | crates/core/src/auth/sigv4.rs:170-190 | Canonicalising twice is canonicalising once |
| `QueryCanonical.CanonicalDecidesParameters` | crates/core/src/auth/sigv4.rs:162-190 | Two queries have the same canonical form if and only if they carry the same parameters, in whatever order |
| `QueryCanonical.CanonicalParses` | crates/core/src/auth/sigv4.rs:162-190 | Parsed as a form, the canonical query carries the same names and values as often as the query itself |
| `QueryCanonical.CanonicalOrderExactly` | crates/core/src/auth/sigv4.rs:162-190 | The canonical query is in name-then-value order if and only if no two of its names conflict in that way |
| `SigV4.SignRequest` | crates/core/src/backend/request_signer.rs:49-143 | The header map ends up with the date, payload hash, token and host headers and an `authorization` over everything then present; without a host only the dated headers are in |
| `SigV4.ParseSigV4Auth` | crates/core/src/auth/sigv4.rs:31-73 | The loop over the header's parts keeps the last of each kind, and the credential must have five fields ending in `aws4_request` |
| `SigV4.ConstantTimeEq` | crates/core/src/auth/sigv4.rs:199-209 | The accumulated bit differences are zero if and only if the byte strings are equal |
| `SigV4.VerifySigV4Signature` | crates/core/src/auth/sigv4.rs:76-160 | Verification succeeds if and only if the presented signature is the one of the reconstructed request |
| `SigningProofs.AuthHeaderParses` | crates/core/src/auth/sigv4.rs:31-73 | The header the signer writes parses into exactly what was signed if and only if access key and region hold neither `/` nor a comma followed by a space |
| `SigningProofs.SignThenVerify` | crates/core/src/backend/request_signer.rs:49-143 | For any hash and HMAC, method, URL, payload hash and headers without a prior `authorization`, the signed request verifies under the same secret, also with further unsigned headers beside it |
| `StaleAuthorization.SigningVerifiesExactly` | crates/core/src/backend/request_signer.rs:49-143 | A signed request parses and verifies for every hash and HMAC if and only if it carried no `authorization` before; the one other case is that both the old value and the written one, which then holds characters outside visible ASCII, read as nothing |
| `SignatureBinding.KeyChain` | crates/core/src/auth/sigv4.rs:118-140 | The signing key is made from `AWS4` and the secret, the day, the region, the service and `aws4_request`, in that order, and signs scheme, date, scope and the hashed request |
| `SignatureBinding.SignatureBinds` | crates/core/src/auth/sigv4.rs:118-160 | Two signatures are equal for every hash and HMAC if and only if secret, day, region, service, date and canonical request are |
| `SignatureBinding.AcceptedExactly` | crates/core/src/auth/sigv4.rs:76-160 | A signed request that arrives in any shape is accepted for every hash and HMAC if and only if it is checked with the secret it was signed with and arrives with the verb, the path, the parameters, the date, the signed header values and the payload hash it was signed with |
| `SignatureBinding.SignedFieldsAre` | crates/core/src/backend/request_signer.rs:49-143 | After signing, the date, the payload hash, the host with its port and the token, if there is one, are in the headers; all others are as before |
| `SignatureBinding.SignsEverything` | crates/core/src/backend/request_signer.rs:49-143 | The written header names the signer's key, day, region and service, and the signed headers are all that were there, in order |
| `SignatureBinding.ReadIsSpelled` | crates/core/src/auth/sigv4.rs:31-73 | A header that parses begins with the scheme and spells, among its parts, a credential ending in `aws4_request`, the signed names and the signature it parses to |
| `StreamingForward.BuildStreamingForward` | crates/core/src/proxy.rs:1214-1263 | The printed URL is parsed, and the forwarded headers are the signed seed of the named client headers, or without credentials the seed and the host, plus the unsigned length and user agent; an invalid key, an unparseable URL or one without a host is an error |
| `StreamingForward.ForwardedRequestVerifies` | crates/core/src/proxy.rs:1214-1263 | The backend, holding the same secret, accepts the forwarded request including the headers added after signing |
| `StreamingForward.StreamedWritesVerify` | crates/core/src/proxy.rs:104-125 | So are both streaming writes, with the headers each of them names, whatever the client sent |
| `StreamingForward.ForwardedHeadersExactly` | crates/core/src/proxy.rs:1214-1263 | A forwarded write carries the named headers of the client as they were, its length, the gateway's user agent, what signing adds, and nothing else |
| `StreamingForward.ChunkedCarriesExactly` | crates/core/src/proxy.rs:94-112 | Of a client's headers, a chunked write carries those that describe the chunks, the content type and encoding, and the conditions `if-match` and `if-none-match`, as they were, and no others |
| `StreamingForward.PartCarriesExactly` | crates/core/src/proxy.rs:114-126 | A plain part carries the content type, the MD5 and every checksum header, and no others |
| `StreamingForward.ForwardedCredential` | crates/core/src/proxy.rs:1214-1263 | It is signed with the bucket's access key and region, `us-east-1` if none is given, for the service `s3` |
| `PathMappingProofs.BucketNameRoundTrip` | crates/path-mapping/src/lib.rs:118-212 | The internal bucket name of a parsed path is taken apart into its segments if and only if none of them holds the separator |
| `PathMappingProofs.MappedExactly` | crates/path-mapping/src/lib.rs:118-168 | A path is mapped if and only if it spells the configured number of non-empty, slash-free segments, with a key after them or not |
| `PathMappingProofs.MappedRewritten` | crates/path-mapping/src/lib.rs:230-252 | A mapped path becomes its segments, joined by the separator to one bucket name, and the key behind it; its query stays |
| `PathMappingProofs.PassesThrough` | crates/path-mapping/src/lib.rs:230-290 | A path that is not mapped is left as it is unless it is one segment with a list query whose prefix is not empty |
| `PathMappingProofs.ListAskedExactly` | crates/path-mapping/src/lib.rs:334-336 | A query asks for a listing if and only if it spells `list-type=` at its beginning or behind an `&` |
| `PathMappingProofs.SigningKeepsOriginal` | crates/path-mapping/src/lib.rs:230-290 | Whatever is rewritten, the path and query that the client signed are kept for verification |
| `PathMappingProofs.MappedListing` | crates/path-mapping/src/lib.rs:516-546 | A mapped bucket lists the plain listing's keys, folder markers as they are seen included, its common prefixes and its prefix, each behind the key prefix, under the display name, with the plain truncation and count |
| `PathMappingProofs.ListedKeysAreFetchable` | crates/path-mapping/src/lib.rs:516-546 | Every key shown in a mapped listing, put behind the shown bucket name, resolves to the internal bucket and the key the object is seen under, which is the listed object itself if and only if that is no folder marker |
| `PathMappingProofs.AllFetchableExactly` | crates/core/src/api/list.rs:161-181 | Every key shown is stored if and only if beside each visible folder marker its name without the slash is stored, and for a marker of the bucket's root the backend prefix twice |
| `PathMappingProofs.CopySourceAgreesWithRequest` | crates/path-mapping/src/lib.rs:293-308 | A copy source is rewritten as the request path is, with its version carried along |
| `PrefixFolding.ValueSurvivesExactly` | crates/path-mapping/src/lib.rs:352-374 | A value written into the query is read downstream as it was if and only if no `%` of it is followed by two hexadecimal digits |
| `PrefixFolding.RewrittenQuery` | crates/path-mapping/src/lib.rs:358-374 | Downstream, the rewritten query has all other parameters unchanged and in order, and every plainly spelled prefix parameter replaced by what the new prefix is received as |
| `PrefixFolding.FoldedNameExactly` | crates/path-mapping/src/lib.rs:179-212 | The folded bucket name is taken apart into account and product if and only if neither holds the separator and the product is not empty |
| `FirstKeys.SameKeysExactly` | crates/core/src/proxy.rs:1287-1297 | Two offsets let through the same paths under a prefix if and only if the first path each lets through, computed from the offset and the prefix, is the same |
| `FolderListing.FolderShown` | crates/core/src/api/list.rs:186-228 | For every store, backend prefix, delimiter, page size and encoding, showing a store's keys behind a folder's name is showing the keys of that folder, when the offset lets through the same keys |
| `FoldedListing.FoldingExactly` | crates/path-mapping/src/lib.rs:247-265 | For every query with a non-empty prefix, the answer to the rewritten request is, for every store and backend prefix, the answer to the client's own parameters from a bucket with the keys in the product's folder, if and only if the names can be told apart, the last prefix parameter is plainly spelled and reads as the product and what is received of the remainder, and the offset, if there is one, lets the same first key through inside the folder and outside it |
| `FoldedListing.FoldingKeepsListing` | crates/path-mapping/src/lib.rs:313-332 | When the prefix parameters agree, that is so if and only if the names can be told apart, the prefix has a slash, its raw text has no `+`, its remainder no percent escape, and the offset lets the same first key through |
| `FoldingInputs.PlusInput` | crates/path-mapping/src/lib.rs:339-350 | Inputs with a raw `+` on which the fold changes the listing |
| `FoldingInputs.ResumeInput` | crates/path-mapping/src/lib.rs:313-332 | However it is spelled, a request for a prefix in the product's folder that resumes after a key under that prefix is answered with another listing, such as `list-type=2&prefix=b/&start-after=b/m` |
| `FoldingInputs.DisagreeingInput` | crates/path-mapping/src/lib.rs:339-350 | Of two plain prefix parameters the listing is kept if and only if they are equal |
| `FoldingInputs.EncodedInput` | crates/path-mapping/src/lib.rs:360-374 | A client that percent-encodes its prefix gets its listing if and only if the remainder itself holds no percent escape |
| `SubjectGlob.SubjectMatches` | crates/sts/src/lib.rs:205-243 | The greedy loop answers yes if and only if the subject matches the pattern character by character, and if and only if it is the literal pieces in order with arbitrary gaps |
| `SubjectGlob.SubjectAllowed` | crates/sts/src/lib.rs:194-201 | A subject is allowed if and only if one condition matches it; no conditions allow nobody |
| `SubjectGlob.LeftmostSuffices` | crates/sts/src/lib.rs:226-234 | The exchange argument: if the rest of the pieces can follow any occurrence of a piece, they can follow its first |
| `SubjectGlob.PiecesDecide` | crates/sts/src/lib.rs:205-243 | Character-wise matching, anchored pieces and pieces with gaps are the same relation, for every pattern |
| `ScopeTemplates.ResolveTemplate` | crates/sts/src/sts.rs:34-52 | Watched for any number of rounds, on every template: the loop's outcome if it ends within them and else the fact that it takes more; a success leaves no closed placeholder, without braces in claims the outcome is the simultaneous substitution, and without closed placeholders in claims as many rounds as the template has characters, and one, suffice |
| `ScopeTemplates.TerminationExactly` | crates/sts/src/sts.rs:37-51 | The loop ends on every template if and only if it ends on every string claim a placeholder can name; in particular if none of these holds a closed placeholder |
| `ScopeTemplates.SettlesInTime` | crates/sts/src/sts.rs:37-51 | If no nameable claim holds a closed placeholder, every template ends within as many rewritings as it has characters |
| `ScopeTemplates.YieldsSimultaneous` | crates/sts/src/sts.rs:34-52 | Without braces in claims the loop ends on every template and computes the left-to-right substitution of all placeholders at once |
| `ScopeTemplates.SimultaneousExactly` | crates/sts/src/sts.rs:34-52 | Every template is substituted simultaneously if and only if no string claim a placeholder can name holds an opening brace |
| `ScopeTemplates.RefusedExactly` | crates/sts/src/sts.rs:42-48 | If no nameable claim holds a brace, a template is refused if and only if one of its closed placeholders names a missing or non-string claim |
| `ScopeTemplates.YieldsSettles` | crates/sts/src/sts.rs:37-40 | Whatever the claims hold, a successful outcome has no closed placeholder left |
| `ScopeTemplates.BraceIsReexpanded` | crates/sts/src/sts.rs:49-50 | For every claim with a brace there is a template that is expanded again |
| `ScopeTemplates.SelfReferenceDiverges` | crates/sts/src/sts.rs:37-51 | A claim whose value names itself keeps the loop running: no number of rewritings ends it |
| `Authorization.PrefixCoversExactly` | crates/core/src/auth/authorize.rs:12-22 | A prefix covers a key if and only if the key continues it at a path boundary |
| `Authorization.CoarseIsSomeKey` | crates/core/src/auth/authorize.rs:70-128 | The per-key check is the authorisation of the single delete, and a batch delete passes its coarse check if and only if some key would pass its own |
| `Authorization.AnonymousExactly` | crates/core/src/auth/authorize.rs:25-48 | An anonymous caller is let in if and only if the bucket is public and the operation reads the current version of an object, its head, or a listing |
| `Authorization.AuthenticatedExactly` | crates/core/src/auth/authorize.rs:50-128 | An authenticated caller is let in if and only if some scope names the bucket and the operation's own action, and one of its prefixes, if it has any, continues at a path boundary into the key, for a listing into the first prefix parameter, and for a batch delete no key is asked for; every refusal is access denied |
| `ListingScope.ShowsOnlyCoveredExactly` | crates/core/src/auth/authorize.rs:12-22 | A listing of a prefix can show only covered keys if and only if one granted scope covers everything under that prefix, not just the key of its name |
| `ListingScope.AuthorizedListingExactly` | crates/core/src/auth/authorize.rs:50-90 | An authorised listing shows only covered keys if and only if that holds of the prefix the list parser reads; with agreeing prefix parameters the one exception is a scope prefix of that very name without a slash |
| `ListingScope.PageInScope` | crates/core/src/proxy.rs:1281-1329 | Then every object and common prefix of every page is covered, and so is the name each is shown under, save the marker of the listed folder itself, which loses its slash |
| `ListingScope.BareScopeInput` | crates/core/src/auth/authorize.rs:12-22 | A scope on a name without a slash admits a listing that shows keys it does not cover |
| `ListingScope.TwoPrefixesInput` | crates/core/src/auth/authorize.rs:50-64 | With two prefix parameters the listing shows keys outside the scope it was authorised by |
| `BatchDelete.ExecuteDeleteObjects` | crates/core/src/proxy.rs:1471-1573 | The loops compute the answer the following theorems are about; the request sent holds the allowed keys in backend form and is not sent without any, nor if it cannot be signed |
| `BatchDelete.MalformedExactly` | crates/core/src/proxy.rs:1471-1486 | A body is refused as malformed if and only if it cannot be read, names no key, or more than 1000 |
| `BatchDelete.AnsweredExactly` | crates/core/src/proxy.rs:1487-1573 | Otherwise there is an answer if and only if no key is allowed or the backend reports with a status below 300; anything else is the backend's error |
| `BatchDelete.QuietExactly` | crates/core/src/api/delete.rs:151-187 | A quiet answer names no deleted key and reports the same errors as the answer to the same keys sent without quiet |
| `BatchDelete.FailuresReported` | crates/core/src/proxy.rs:1495-1565 | Quiet or not, every requested key that is not allowed is reported as denied, and every failure the backend reports, under the client's key |
| `BatchDelete.AnswerConserves` | crates/core/src/proxy.rs:1471-1573 | If the backend reports each key it was sent once, the deleted and errored keys of the answer together are the requested ones, with multiplicity |
| `BatchDelete.KeysConserved` | crates/core/src/proxy.rs:1471-1573 | If the backend reports each key it was sent once, the deleted and errored client keys together are the requested ones, with multiplicity |
| `BatchDelete.SentExactlyAllowed` | crates/core/src/proxy.rs:1487-1506 | A key is sent if and only if it was requested and allowed; nothing is sent if and only if no requested key is allowed |
| `CredentialCache.Cache.Claim` | crates/oidc-provider/src/cache.rs:180-211 | A credential is served only with more than five seconds left; a caller told to fetch a cached key holds its claim, and nothing else changes |
| `CredentialCache.Cache.Complete` | crates/oidc-provider/src/cache.rs:150-172 | A fetched credential replaces the entry and its claim; a failed fetch drops the claim whoever holds it |
| `CredentialCache.Cache.GetOrFetch` | crates/oidc-provider/src/cache.rs:141-176 | An undisturbed call serves the cached credential and changes nothing, or returns what the fetch yields and stores it |
| `CredentialCache.ScopedKeyInjective` | crates/oidc-provider/src/cache.rs:89-93 | Scopes free of the separator and arbitrary subjects are recovered from the key |
| `CredentialCache.ScopesCollideExactly` | crates/oidc-provider/src/cache.rs:81-93 | Two different scopes can share a key if and only if one is the other followed by a separator and more |
| `CacheRuns.RunKeepsInv` | crates/oidc-provider/src/cache.rs:141-211 | On every interleaving each entry came from a fetch run for its own key, and no claim is in the future |
| `CacheRuns.ServedIsMintedAndFresh` | crates/oidc-provider/src/cache.rs:180-211 | Whatever any run serves was fetched for that very key and has more than five seconds left |
| `CacheRuns.MintedByClaimants` | crates/oidc-provider/src/cache.rs:141-176 | A credential is stored only by a caller that was told to fetch: fetches completed and pending never exceed fetches claimed |
| `CacheRuns.FetchesWithinBudget` | crates/oidc-provider/src/cache.rs:65-79 | From any state of a run, the fetches still to be handed out are bounded by what the remaining lifetime and the open claim leave room for, plus the failures |
| `CacheRuns.RenewalBound` | crates/oidc-provider/src/cache.rs:65-79 | While one credential stays in place with more than five seconds left, at most two callers are told to renew it, and one more for each failed fetch, over every interleaving |
| `CacheRuns.RenewalBoundTight` | crates/oidc-provider/src/cache.rs:180-211 | For every number of failures there is a run that meets the bound |
| `CacheRuns.RenewalsAreSpaced` | crates/oidc-provider/src/cache.rs:74-79 | Two renewals of one usable credential with no release between them are at least thirty seconds apart, inside its last sixty seconds and less than fifty-five apart |
| `CacheRuns.VanishedClaimBlocksBriefly` | crates/oidc-provider/src/cache.rs:108-118 | After a claimant vanishes, a due caller is told to fetch if and only if thirty seconds have passed or the credential is about to expire |
| `CacheRuns.FetchedIsServed` | crates/oidc-provider/src/cache.rs:141-211 | After a fetch succeeded and nothing was stored on its key since, in any run, a caller is served exactly that credential if it has more than sixty seconds left, and else the first one to come is told to fetch |
| `CacheRuns.FailureReleases` | crates/oidc-provider/src/cache.rs:162-172 | After a failed fetch the cached credential stays: it is served with more than sixty seconds left, and else the first caller to come is told to fetch |
| `CacheRuns.UnknownIsFetched` | crates/oidc-provider/src/cache.rs:180-211 | While nothing was stored on a key, every caller is told to fetch |
| `BandwidthMeter.Durable.HandleCheck` | examples/cf-workers/src/bandwidth.rs:122-144 | The decision compares the window's total plus the request with the limit, saturating; parameters are refused in the code's order; storage and alarm stay |
| `BandwidthMeter.Durable.HandleRecord` | examples/cf-workers/src/bandwidth.rs:147-177 | A record is appended to the pruned entries, stored, and schedules the alarm one window ahead |
| `BandwidthMeter.Durable.Alarm` | examples/cf-workers/src/bandwidth.rs:73-88 | The alarm empties memory and storage |
| `BandwidthMeter.RunKeepsInv` | examples/cf-workers/src/bandwidth.rs:73-177 | On every run of checks, records, alarms and evictions, memory and storage are what was recorded since the last alarm, less a beginning that is out of the window |
| `BandwidthMeter.UsedSinceAlarm` | examples/cf-workers/src/bandwidth.rs:122-144 | A check uses exactly the bytes recorded since the last alarm that are in the window or on its edge |
| `BandwidthMeter.CheckAgreesWithHistory` | examples/cf-workers/src/bandwidth.rs:122-144 | After every run, a check uses exactly the bytes of the whole history in the window or on its edge, or, if an alarm fired at that moment, exactly those inside it; for a window of no length, those recorded since that alarm |
| `BandwidthMeter.AllowedExactly` | examples/cf-workers/src/bandwidth.rs:122-144 | After every run whose bytes sum to less than 2^64, and without an alarm at that very moment, a request is allowed if and only if the bytes recorded in the last window, its edge included, and the requested ones together are within the limit |
| `BandwidthMeter.EdgeLostExactly` | examples/cf-workers/src/bandwidth.rs:73-88 | Bytes on the edge are lost if and only if an alarm fired at the moment of the check and cleared an entry on the edge that carries bytes |
| `BandwidthMeter.BoundaryIsLost` | examples/cf-workers/src/bandwidth.rs:73-88 | The exception is real: for any amount there is a run in which the edge is lost |
| `BandwidthMeter.ChecksAreInvisible` | examples/cf-workers/src/bandwidth.rs:122-144 | An earlier check changes no later decision, no later record, and nothing a reload finds |
| `Gateway.HandleRequest` | crates/core/src/proxy.rs:485-614 | For each outcome, when it is reached: the body is handed on, once, if and only if a route forwards or an operation that was not read early does; an early read that is too large or fails, an answer, a completion and each fail-closed branch have their conditions, and the body is used exactly then |
| `Gateway.ClassifierMatchesDispatch` | crates/core/src/proxy.rs:339-355 | An operation is read early if and only if dispatch can ask for its body, and one read early is never forwarded |
| `Gateway.ServeRequest` | crates/core/src/proxy.rs:485-614 | On every run the body is used at most once and neither fail-closed branch is reached; an identified, resolved and delegated operation is forwarded if and only if it is a read, head or delete that can be presigned, or a write that can be signed in its way; it is completed with the body read if and only if it is multipart control or a batch delete on S3; listings and copies are answered; everything else is refused for a reason that is given |
| `Gateway.DispatchedExactly` | crates/core/src/proxy.rs:863-1107 | Dispatch forwards, asks for the body, answers or refuses an operation exactly when the operation and its surroundings are of the kind stated |
| `Gateway.DelegatesReach` | crates/core/src/proxy.rs:863-880 | A chain that only delegates ends in dispatch; any other ends in its first answer |

## Left out

- XML and JSON text of requests and answers: requests and results are datatypes.
- Hash, HMAC, sealing, JWT and MD5: arbitrary functions or absent.
- HTTP clients, worker bridges, Lambda and server wiring, tracing, CORS, Server-Timing, request metadata and error-code tables.
- Continuation tokens: they are the backend's and opaque; `Listing.HandleList` is about requests without one.
- The backend's listing is a reference model: keys in order, an exclusive offset, prefix, delimiter, a page size; a page is truncated if and only if entries are left.
- Listings are modelled on values: the filters, maps and the prefix buffer of `crates/core/src/api/list.rs` are functions.
- URL normalisation, host parsing and IP addresses: a URL is host, port, path and query; printed bucket names are plain ones that need no escape.
- Lossy UTF-8 decoding puts one replacement character per invalid byte, where the library joins some.
- Header maps hold one value per name; `HeaderMap::get` reads the first.
- `resolve_scopes` in `crates/sts/src/sts.rs`: the template function over a list.
- Host-style detection, multi-part bucket names in hosts, and the copy route of `execute_copy` beyond its header and source parsing.
- Azure and GCP backends, their token exchange, and the other TTL caches of the repository.
- Middleware that rewrites the action it is handed: only middleware that delegates or answers is considered.
- CredentialCache.Cache.GetOrFetch: one undisturbed call; what other callers do during the fetch is in `CacheRuns`, whose events are the claim and the completion; clock readings are taken to be monotone in the order the claims lock the map, although the code reads the clock just before locking.
- BandwidthMeter.CheckAgreesWithHistory: for recorded bytes that sum to less than 2^64; beyond that the release-build sum wraps, which `TotalBytes` keeps.
- BandwidthMeter.Durable.Alarm: storage failures and the retry of an alarm are not modelled, nor is a timestamp that wraps.
- BatchDelete.ExecuteDeleteObjects: one function from the keys to what becomes of their request stands for signing, sending and reading the answer; its headers and body text are not modelled.
- PrefixView.PrefixViewSeen: for stored keys that are clean paths with or without one final slash; what the path parser does to other keys, refusing them or dropping a first slash, is not stated for listings.
- FoldedListing.FoldingExactly: for two bucket segments of which one is displayed, and a separator of one character; for queries without a continuation token; for a product other than `.` and `..`, under which no stored key can lie; for buckets without an object at the root of their prefix, which is listed under the prefix's own name; and without the `NextMarker` of version 1 answers, which is a path of the backend in either case.
- SignatureBinding.AcceptedExactly: for a verb, path and query without a newline and a region, service and date without newline or slash, which the request syntax and the clock give; "for every hash and HMAC" stands for what a good hash does with overwhelming likelihood.
- BandwidthMeter.AllowedExactly: without an alarm at the moment of the check, whose effect is `BandwidthMeter.EdgeLostExactly`; a total of 2^64 or more is taken for the largest number (`BandwidthMeter.Saturates`).
- PathMappingProofs.MappedExactly: for at least one bucket segment, as the mapping's documentation has it.
- SigV4.SignRequest: the canonical path is the URL's own; its normalisation by the URL library is not modelled.
- ScopeTemplates.ResolveTemplate: the loop is watched for a given number of rounds, because it need not end; whether it ends is the subject of the other theorems of that module.
