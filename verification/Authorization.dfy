/** Whether an identity may perform an operation, and the per-key check of batch operations. */
module Authorization {
  import opened Text
  import opened Types
  import opened Query

  predicate KeyMatchesPrefix(key: string, prefix: string) {
    if EndsWith(prefix, "/") || prefix == "" then prefix <= key
    else key == prefix || (|key| > |prefix| && prefix <= key && key[|prefix|] == '/')
  }

  predicate ScopeAllows(scope: AccessScope, bucket: string, action: Action) {
    scope.bucket == bucket && action in scope.actions
  }

  predicate ScopeCovers(scope: AccessScope, key: string) {
    scope.prefixes == [] || exists p :: p in scope.prefixes && KeyMatchesPrefix(key, p)
  }

  /** The key the scopes are checked against; a listing is checked by its first `prefix` parameter. */
  function CheckedKey(op: S3Operation): string {
    if op.ListBucket? then OrElse(FirstValue(QueryPairs(op.rawQuery), "prefix"), "") else op.ObjectKey()
  }

  predicate ReadAction(a: Action) {
    a == ActGetObject || a == ActHeadObject || a == ActListBucket
  }

  function Authorize(identity: Identity, op: S3Operation, config: BucketConfig): Result<(), ProxyError> {
    match identity
    case Anonymous =>
      if config.anonymousAccess && ReadAction(op.RequiredAction()) then Ok(()) else Err(AccessDenied)
    case Authenticated(_, scopes) =>
      var bucket := if op.TargetBucket().Some? then op.TargetBucket().value else "";
      if exists s :: s in scopes && ScopeAllows(s, bucket, op.RequiredAction())
                     && (op.DeleteObjects? || ScopeCovers(s, CheckedKey(op)))
      then Ok(()) else Err(AccessDenied)
  }

  predicate KeyAuthorized(identity: Identity, bucket: string, action: Action, key: string) {
    match identity
    case Anonymous => false
    case Authenticated(_, scopes) =>
      exists s :: s in scopes && ScopeAllows(s, bucket, action) && ScopeCovers(s, key)
  }

  /** A prefix covers what continues it at a path boundary, and nothing else. */
  lemma PrefixCoversExactly(key: string, prefix: string)
    ensures KeyMatchesPrefix(key, prefix)
            <==> exists rest: string :: key == prefix + rest
                   && (prefix == "" || EndsWith(prefix, "/") || rest == "" || rest[0] == '/')
  {
    if KeyMatchesPrefix(key, prefix) {
      var rest := key[|prefix|..];
      assert key == prefix + rest;
    }
    if rest: string :| key == prefix + rest && (prefix == "" || EndsWith(prefix, "/") || rest == "" || rest[0] == '/') {
      assert prefix <= key;
      assert rest == "" ==> key == prefix;
      assert rest != "" ==> key[|prefix|] == rest[0];
    }
  }

  /**
    The check on one key is the authorisation of its single delete, and the coarse check of a
    batch delete passes exactly when some key would pass its own.
   */
  lemma CoarseIsSomeKey(identity: Identity, bucket: string, config: BucketConfig)
    ensures forall key: string ::
              Authorize(identity, DeleteObject(bucket, key), config).Ok? <==> KeyAuthorized(identity, bucket, ActDeleteObject, key)
    ensures Authorize(identity, DeleteObjects(bucket), config).Ok?
            <==> exists key: string :: KeyAuthorized(identity, bucket, ActDeleteObject, key)
  {
    assert DeleteObjects(bucket).RequiredAction() == ActDeleteObject;
    forall key: string
      ensures Authorize(identity, DeleteObject(bucket, key), config).Ok? <==> KeyAuthorized(identity, bucket, ActDeleteObject, key)
    {
      assert DeleteObject(bucket, key).RequiredAction() == ActDeleteObject;
    }
    if identity.Authenticated? && Authorize(identity, DeleteObjects(bucket), config).Ok? {
      var s :| s in identity.allowedScopes && ScopeAllows(s, bucket, ActDeleteObject);
      var key := if s.prefixes == [] then "" else s.prefixes[0];
      assert s.prefixes != [] ==> s.prefixes[0] in s.prefixes && KeyMatchesPrefix(key, key);
      assert ScopeCovers(s, key);
      assert KeyAuthorized(identity, bucket, ActDeleteObject, key);
    }
  }

  // ---- Who is let in, operation by operation.

  /** The action an operation asks for. */
  predicate Needs(op: S3Operation, action: Action) {
    match action
    case ActGetObject => op.GetObject? && op.version.None?
    case ActGetObjectVersion => op.GetObject? && op.version.Some?
    case ActHeadObject => op.HeadObject?
    case ActPutObject => op.PutObject? || op.CopyObject?
    case ActListBucket => op.ListBucket? || op.ListBuckets?
    case ActCreateMultipartUpload => op.CreateMultipartUpload?
    case ActUploadPart => op.UploadPart?
    case ActCompleteMultipartUpload => op.CompleteMultipartUpload?
    case ActAbortMultipartUpload => op.AbortMultipartUpload?
    case ActDeleteObject => op.DeleteObject? || op.DeleteObjects?
  }

  /** An anonymous caller may read the current objects of a public bucket and list it, and nothing else. */
  lemma AnonymousExactly(op: S3Operation, config: BucketConfig)
    ensures Authorize(Anonymous, op, config).Ok?
            <==> config.anonymousAccess
                 && ((op.GetObject? && op.version.None?) || op.HeadObject? || op.ListBucket? || op.ListBuckets?)
    ensures Authorize(Anonymous, op, config).Err? ==> Authorize(Anonymous, op, config) == Err(AccessDenied)
  {
  }

  /** The key continues one of the prefixes at a path boundary, or there are none to continue. */
  ghost predicate Continues(prefixes: seq<string>, key: string) {
    prefixes == []
    || exists p, rest: string :: p in prefixes && key == p + rest && (p == "" || EndsWith(p, "/") || rest == "" || rest[0] == '/')
  }

  ghost predicate Granted(scopes: seq<AccessScope>, bucket: string, op: S3Operation, key: Option<string>) {
    exists s, a :: s in scopes && s.bucket == bucket && a in s.actions && Needs(op, a)
                   && (key.Some? ==> Continues(s.prefixes, key.value))
  }

  lemma ContinuesExactly(s: AccessScope, key: string)
    ensures ScopeCovers(s, key) <==> Continues(s.prefixes, key)
  {
    forall p | p in s.prefixes
      ensures KeyMatchesPrefix(key, p)
              <==> exists rest: string :: key == p + rest && (p == "" || EndsWith(p, "/") || rest == "" || rest[0] == '/')
    {
      PrefixCoversExactly(key, p);
    }
  }

  lemma NeedsRequired(op: S3Operation, a: Action)
    ensures Needs(op, a) <==> a == op.RequiredAction()
  {
  }

  /**
    An authenticated caller is let in exactly when one scope names the bucket and the
    operation's action and covers its key: the object's own key, for a copy the destination's,
    for a listing the first prefix it gives; a batch delete is not held to prefixes here.
   */
  lemma AuthenticatedExactly(principal: string, scopes: seq<AccessScope>, op: S3Operation, config: BucketConfig)
    ensures var r := Authorize(Authenticated(principal, scopes), op, config);
            && (op.ListBuckets? ==> (r.Ok? <==> Granted(scopes, "", op, Some(""))))
            && (op.DeleteObjects? ==> (r.Ok? <==> Granted(scopes, op.bucket, op, None)))
            && (op.ListBucket? ==>
                (r.Ok? <==> Granted(scopes, op.bucket, op, Some(OrElse(FirstValue(QueryPairs(op.rawQuery), "prefix"), "")))))
            && (!op.ListBuckets? && !op.DeleteObjects? && !op.ListBucket? ==>
                (r.Ok? <==> Granted(scopes, op.bucket, op, Some(op.key))))
            && (r.Err? ==> r == Err(AccessDenied))
  {
    forall s, a, key
      ensures Needs(op, a) <==> a == op.RequiredAction()
      ensures ScopeCovers(s, key) <==> Continues(s.prefixes, key)
    {
      NeedsRequired(op, a);
      ContinuesExactly(s, key);
    }
    var bucket := if op.ListBuckets? then "" else op.bucket;
    if Authorize(Authenticated(principal, scopes), op, config).Ok? {
      var s :| s in scopes && ScopeAllows(s, bucket, op.RequiredAction()) && (op.DeleteObjects? || ScopeCovers(s, CheckedKey(op)));
      assert Needs(op, op.RequiredAction()) && op.RequiredAction() in s.actions;
    }
  }
}
