/** The request body on its way through the gateway: read early, forwarded, or left alone, but never twice. */
module Gateway {
  import opened Text
  import opened Types

  datatype Streaming = PlainBody | UnsignedChunks | SignedChunks

  /** What the calls out of `dispatch_operation` come back with. */
  datatype Surroundings = Surroundings(
    isS3: bool,
    tooLarge: bool,
    streaming: Streaming,
    presigned: Result<(), ProxyError>,
    resigned: Result<(), ProxyError>,
    listed: Result<(), ProxyError>,
    sourceResolved: Result<(), ProxyError>,
    copied: Result<(), ProxyError>)

  /** A response says whether it is an answer or an error. */
  datatype HandlerAction = Respond(result: Result<(), ProxyError>) | Forward | NeedsBody(op: S3Operation)

  function ForwardIf(r: Result<(), ProxyError>): Result<HandlerAction, ProxyError> {
    if r.Ok? then Ok(Forward) else Err(r.error)
  }

  function RespondIf(r: Result<(), ProxyError>): Result<HandlerAction, ProxyError> {
    if r.Ok? then Ok(Respond(Ok(()))) else Err(r.error)
  }

  /** An `aws-chunked` body is re-signed and streamed or refused; a plain one is not handled here. */
  function TryStreamingForward(s: Surroundings): Result<Option<HandlerAction>, ProxyError> {
    match s.streaming
    case PlainBody => Ok(None)
    case SignedChunks => Err(NotImplemented)
    case UnsignedChunks =>
      if !s.isS3 then Err(InvalidRequest)
      else if s.resigned.Ok? then Ok(Some(Forward)) else Err(s.resigned.error)
  }

  function DispatchOperation(op: S3Operation, s: Surroundings): Result<HandlerAction, ProxyError> {
    match op
    case ListBuckets => RespondIf(s.listed)
    case GetObject(_, _, _) => ForwardIf(s.presigned)
    case HeadObject(_, _) => ForwardIf(s.presigned)
    case PutObject(_, _) =>
      if s.tooLarge then Err(EntityTooLarge)
      else
        (match TryStreamingForward(s)
         case Err(e) => Err(e)
         case Ok(Some(action)) => Ok(action)
         case Ok(None) => ForwardIf(s.presigned))
    case DeleteObject(_, _) => ForwardIf(s.presigned)
    case ListBucket(_, _) => RespondIf(s.listed)
    case UploadPart(_, _, _, _) =>
      if !s.isS3 then Err(InvalidRequest)
      else if s.tooLarge then Err(EntityTooLarge)
      else
        (match TryStreamingForward(s)
         case Err(e) => Err(e)
         case Ok(Some(action)) => Ok(action)
         case Ok(None) => ForwardIf(s.resigned))
    case CreateMultipartUpload(_, _) => if s.isS3 then Ok(NeedsBody(op)) else Err(InvalidRequest)
    case CompleteMultipartUpload(_, _, _) => if s.isS3 then Ok(NeedsBody(op)) else Err(InvalidRequest)
    case AbortMultipartUpload(_, _, _) => if s.isS3 then Ok(NeedsBody(op)) else Err(InvalidRequest)
    case DeleteObjects(_) =>
      if !s.isS3 then Err(NotImplemented)
      else if s.tooLarge then Err(EntityTooLarge)
      else Ok(NeedsBody(op))
    case CopyObject(_, _, _, _, _) =>
      if !s.isS3 then Err(InvalidRequest)
      else if s.sourceResolved.Err? then Err(s.sourceResolved.error)
      else RespondIf(s.copied)
  }

  /** Middleware hands on, or answers by itself. */
  datatype Middleware = Delegate | Answer(outcome: Result<(), ProxyError>)

  function RunChain(chain: seq<Middleware>, op: S3Operation, s: Surroundings): Result<HandlerAction, ProxyError> {
    if chain == [] then DispatchOperation(op, s)
    else if chain[0].Answer? then RespondIf(chain[0].outcome)
    else RunChain(chain[1..], op, s)
  }

  /** Parse, identify, resolve the bucket, dispatch; every error becomes a response. */
  function ResolveRequest(parsed: Result<S3Operation, ProxyError>, identified: Result<(), ProxyError>,
                          bucketResolved: Result<(), ProxyError>, chain: seq<Middleware>, s: Surroundings): HandlerAction
  {
    if parsed.Err? then Respond(Err(parsed.error))
    else if identified.Err? then Respond(identified)
    else if parsed.value.TargetBucket().Some? && bucketResolved.Err? then Respond(bucketResolved)
    else
      match RunChain(chain, parsed.value, s)
      case Ok(action) => action
      case Err(e) => Respond(Err(e))
  }

  predicate OpNeedsBufferedBody(parsed: Result<S3Operation, ProxyError>) {
    parsed.Ok? && (parsed.value.CreateMultipartUpload? || parsed.value.CompleteMultipartUpload?
                   || parsed.value.AbortMultipartUpload? || parsed.value.DeleteObjects?)
  }

  /** What the caller of the gateway gets; the last two are the branches that should not happen. */
  datatype Outcome =
    | Responded(result: Result<(), ProxyError>)
    | Forwarded
    | ForwardFailed(error: ProxyError)
    | Completed(op: S3Operation, body: string)
    | BodyTooLarge
    | BodyUnreadable
    | UnexpectedNeedsBody
    | BodyAlreadyConsumed
    | BodyUnavailable

  /** What is made of a forwarded body. */
  function Relayed(forwarded: Result<(), ProxyError>): Outcome {
    if forwarded.Ok? then Forwarded else ForwardFailed(forwarded.error)
  }

  /**
    `route` is what a route handler answers, if one does; `action` what the pipeline resolves to;
    `collected` and `forwarded` what reading and forwarding the body come back with.
    `uses` counts how often the body was handed to a reader or a forwarder.
   */
  method HandleRequest(route: Option<HandlerAction>, parsed: Result<S3Operation, ProxyError>, tooLarge: bool,
                       body: string, collected: Result<string, ()>, action: HandlerAction, forwarded: Result<(), ProxyError>)
    returns (r: Outcome, uses: nat)
    ensures r.Forwarded? || r.ForwardFailed?
            <==> route == Some(Forward) || (route.None? && !OpNeedsBufferedBody(parsed) && action.Forward?)
    ensures r.Forwarded? ==> forwarded.Ok?
    ensures r.ForwardFailed? ==> forwarded == Err(r.error)
    ensures r.Responded? <==> (route.Some? && route.value.Respond?)
                              || (route.None? && action.Respond? && (OpNeedsBufferedBody(parsed) ==> !tooLarge && collected.Ok?))
    ensures r.Responded? ==> r.result == (if route.Some? then route.value else action).result
    ensures r == BodyTooLarge <==> route.None? && OpNeedsBufferedBody(parsed) && tooLarge
    ensures r == BodyUnreadable <==> route.None? && OpNeedsBufferedBody(parsed) && !tooLarge && collected.Err?
    ensures r == UnexpectedNeedsBody <==> route.Some? && route.value.NeedsBody?
    ensures r == BodyAlreadyConsumed
            <==> route.None? && OpNeedsBufferedBody(parsed) && !tooLarge && collected.Ok? && action.Forward?
    ensures r == BodyUnavailable <==> route.None? && !OpNeedsBufferedBody(parsed) && action.NeedsBody?
    ensures r.Completed? <==> route.None? && OpNeedsBufferedBody(parsed) && !tooLarge && collected.Ok? && action.NeedsBody?
    ensures r.Completed? ==> r == Completed(action.op, collected.value)
    ensures uses == if r.Forwarded? || r.ForwardFailed? || (route.None? && OpNeedsBufferedBody(parsed) && !tooLarge) then 1 else 0
  {
    uses := 0;
    if route.Some? {
      match route.value {
        case Respond(result) => return Responded(result), uses;
        case Forward =>
          uses := uses + 1;
          return Relayed(forwarded), uses;
        case NeedsBody(_) => return UnexpectedNeedsBody, uses;
      }
    }
    var slot: Option<string> := Some(body);
    var prebuffered: Option<string> := None;
    if OpNeedsBufferedBody(parsed) {
      if tooLarge {
        return BodyTooLarge, uses;
      }
      slot := None;
      uses := uses + 1;
      match collected {
        case Ok(bytes) => prebuffered := Some(bytes);
        case Err(_) => return BodyUnreadable, uses;
      }
    }
    match action {
      case Respond(result) =>
        return Responded(result), uses;
      case Forward =>
        if slot.None? {
          return BodyAlreadyConsumed, uses;
        }
        slot := None;
        uses := uses + 1;
        return Relayed(forwarded), uses;
      case NeedsBody(op) =>
        match prebuffered {
          case Some(bytes) => return Completed(op, bytes), uses;
          case None => return BodyUnavailable, uses;
        }
    }
  }

  // ---- The classifier and the dispatcher agree.

  lemma {:induction false} ChainOnlyDispatches(chain: seq<Middleware>, op: S3Operation, s: Surroundings)
    ensures RunChain(chain, op, s) == DispatchOperation(op, s)
            || (RunChain(chain, op, s).Ok? && RunChain(chain, op, s).value.Respond?) || RunChain(chain, op, s).Err?
  {
    if chain != [] && chain[0].Delegate? {
      ChainOnlyDispatches(chain[1..], op, s);
    }
  }

  /** An operation can come out of dispatch needing its body exactly when the body is read early, and is never forwarded then. */
  lemma ClassifierMatchesDispatch(op: S3Operation)
    ensures OpNeedsBufferedBody(Ok(op)) <==> exists s :: DispatchOperation(op, s).Ok? && DispatchOperation(op, s).value.NeedsBody?
    ensures OpNeedsBufferedBody(Ok(op)) ==> forall s :: DispatchOperation(op, s) != Ok(Forward)
    ensures forall s :: DispatchOperation(op, s).Ok? && DispatchOperation(op, s).value.NeedsBody? ==>
              DispatchOperation(op, s).value.op == op
  {
    var s := Surroundings(true, false, PlainBody, Ok(()), Ok(()), Ok(()), Ok(()), Ok(()));
    if OpNeedsBufferedBody(Ok(op)) {
      assert DispatchOperation(op, s) == Ok(NeedsBody(op));
    }
  }

  /** With middleware that delegates or answers, the resolved action never meets a missing body. */
  lemma ResolvedActionFits(parsed: Result<S3Operation, ProxyError>, identified: Result<(), ProxyError>,
                           bucketResolved: Result<(), ProxyError>, chain: seq<Middleware>, s: Surroundings)
    ensures var action := ResolveRequest(parsed, identified, bucketResolved, chain, s);
            && (action.Forward? ==> !OpNeedsBufferedBody(parsed))
            && (action.NeedsBody? ==> OpNeedsBufferedBody(parsed) && action.op == parsed.value)
  {
    if parsed.Ok? {
      ChainOnlyDispatches(chain, parsed.value, s);
      ClassifierMatchesDispatch(parsed.value);
    }
  }

  // ---- What becomes of each operation.

  /** The request gets as far as the dispatcher: nothing before it refuses, and no middleware answers. */
  predicate Reaches(route: Option<HandlerAction>, parsed: Result<S3Operation, ProxyError>, identified: Result<(), ProxyError>,
                    bucketResolved: Result<(), ProxyError>, chain: seq<Middleware>)
  {
    && route.None? && parsed.Ok? && identified.Ok?
    && (parsed.value != ListBuckets ==> bucketResolved.Ok?)
    && forall i :: 0 <= i < |chain| ==> chain[i] == Delegate
  }

  /** Reads, deletes and plain writes go out presigned; streamed writes and parts go out signed, to S3 only. */
  predicate Sendable(op: S3Operation, s: Surroundings) {
    || ((op.GetObject? || op.HeadObject? || op.DeleteObject?) && s.presigned.Ok?)
    || (op.PutObject? && !s.tooLarge && s.streaming.PlainBody? && s.presigned.Ok?)
    || (op.PutObject? && !s.tooLarge && s.streaming.UnsignedChunks? && s.isS3 && s.resigned.Ok?)
    || (op.UploadPart? && !s.tooLarge && !s.streaming.SignedChunks? && s.isS3 && s.resigned.Ok?)
  }

  /** Multipart control and batch deletes are completed with their body, on S3 only. */
  predicate Completable(op: S3Operation, s: Surroundings) {
    && (op.CreateMultipartUpload? || op.CompleteMultipartUpload? || op.AbortMultipartUpload? || op.DeleteObjects?)
    && s.isS3 && !s.tooLarge
  }

  /** Listings and copies are answered. */
  predicate Answerable(op: S3Operation, s: Surroundings) {
    || ((op.ListBuckets? || op.ListBucket?) && s.listed.Ok?)
    || (op.CopyObject? && s.isS3 && s.sourceResolved.Ok? && s.copied.Ok?)
  }

  /** Why an operation that is none of these is refused. */
  function Refusal(op: S3Operation, s: Surroundings): ProxyError
    requires !Sendable(op, s) && !Completable(op, s) && !Answerable(op, s)
  {
    if op.ListBuckets? || op.ListBucket? then s.listed.error
    else if op.GetObject? || op.HeadObject? || op.DeleteObject? then s.presigned.error
    else if !s.isS3 && op.DeleteObjects? then NotImplemented
    else if !s.isS3 && !op.PutObject? then InvalidRequest
    else if s.tooLarge && !op.CopyObject? then EntityTooLarge
    else if op.CopyObject? then (if s.sourceResolved.Err? then s.sourceResolved.error else s.copied.error)
    else if s.streaming.SignedChunks? then NotImplemented
    else if s.streaming.UnsignedChunks? && !s.isS3 then InvalidRequest
    else if op.PutObject? && s.streaming.PlainBody? then s.presigned.error
    else s.resigned.error
  }

  lemma {:induction false} DelegatesReach(chain: seq<Middleware>, op: S3Operation, s: Surroundings)
    ensures (forall i :: 0 <= i < |chain| ==> chain[i] == Delegate) ==> RunChain(chain, op, s) == DispatchOperation(op, s)
    ensures !(forall i :: 0 <= i < |chain| ==> chain[i] == Delegate) ==>
              exists i :: 0 <= i < |chain| && chain[i].Answer? && RunChain(chain, op, s) == RespondIf(chain[i].outcome)
                          && forall j :: 0 <= j < i ==> chain[j] == Delegate
  {
    if chain != [] && chain[0].Delegate? {
      DelegatesReach(chain[1..], op, s);
      assert forall i :: 0 <= i < |chain[1..]| ==> chain[1..][i] == chain[i + 1];
      assert forall i :: 0 < i < |chain| ==> chain[i] == chain[1..][i - 1];
      if i :| 0 <= i < |chain[1..]| && chain[1..][i].Answer? && RunChain(chain[1..], op, s) == RespondIf(chain[1..][i].outcome)
              && forall j :: 0 <= j < i ==> chain[1..][j] == Delegate {
        assert chain[i + 1].Answer? && forall j :: 0 <= j < i + 1 ==> chain[j] == Delegate;
      }
    }
  }

  /** What dispatch does with each operation, in every surroundings. */
  lemma DispatchedExactly(op: S3Operation, s: Surroundings)
    ensures DispatchOperation(op, s) == Ok(Forward) <==> Sendable(op, s)
    ensures (DispatchOperation(op, s).Ok? && DispatchOperation(op, s).value.NeedsBody?)
            <==> ((op.CreateMultipartUpload? || op.CompleteMultipartUpload? || op.AbortMultipartUpload?) && s.isS3)
                 || (op.DeleteObjects? && s.isS3 && !s.tooLarge)
    ensures (DispatchOperation(op, s).Ok? && DispatchOperation(op, s).value.Respond?) <==> Answerable(op, s)
    ensures Answerable(op, s) ==> DispatchOperation(op, s) == Ok(Respond(Ok(())))
    ensures DispatchOperation(op, s).Err? && !Completable(op, s) ==> DispatchOperation(op, s) == Err(Refusal(op, s))
  {
  }

  /**
    The whole run. A request that reaches the dispatcher is forwarded, completed or answered
    exactly when its operation can be, and refused for the operation's reason otherwise; the
    body is used at most once, and neither fail-closed branch is reached.
   */
  method ServeRequest(route: Option<HandlerAction>, parsed: Result<S3Operation, ProxyError>, body: string,
                      collected: Result<string, ()>, identified: Result<(), ProxyError>, bucketResolved: Result<(), ProxyError>,
                      chain: seq<Middleware>, s: Surroundings, forwarded: Result<(), ProxyError>)
    returns (r: Outcome, uses: nat)
    ensures uses <= 1
    ensures r != BodyAlreadyConsumed && r != BodyUnavailable
    ensures r.Forwarded? || r.ForwardFailed?
            <==> route == Some(Forward) || (Reaches(route, parsed, identified, bucketResolved, chain) && Sendable(parsed.value, s))
    ensures r.Forwarded? ==> forwarded.Ok? && uses == 1
    ensures r.ForwardFailed? ==> forwarded == Err(r.error) && uses == 1
    ensures r.Completed?
            <==> Reaches(route, parsed, identified, bucketResolved, chain) && Completable(parsed.value, s) && collected.Ok?
    ensures r.Completed? ==> r == Completed(parsed.value, collected.value) && uses == 1
    ensures Reaches(route, parsed, identified, bucketResolved, chain) && Answerable(parsed.value, s) ==> r == Responded(Ok(())) && uses == 0
    ensures Reaches(route, parsed, identified, bucketResolved, chain) && !Sendable(parsed.value, s) && !Completable(parsed.value, s)
            && !Answerable(parsed.value, s) ==>
              || r == Responded(Err(Refusal(parsed.value, s)))
              || (OpNeedsBufferedBody(parsed) && r == if s.tooLarge then BodyTooLarge else BodyUnreadable)
    ensures route.None? && parsed.Err? ==> r == Responded(Err(parsed.error)) && uses == 0
    ensures route.None? && parsed.Ok? && !OpNeedsBufferedBody(parsed) && identified.Err? ==> r == Responded(identified) && uses == 0
    ensures route.None? && parsed.Ok? && !OpNeedsBufferedBody(parsed) && identified.Ok? && parsed.value != ListBuckets && bucketResolved.Err? ==>
              r == Responded(bucketResolved) && uses == 0
  {
    var action := ResolveRequest(parsed, identified, bucketResolved, chain, s);
    ResolvedActionFits(parsed, identified, bucketResolved, chain, s);
    if parsed.Ok? {
      DelegatesReach(chain, parsed.value, s);
      DispatchedExactly(parsed.value, s);
    }
    r, uses := HandleRequest(route, parsed, s.tooLarge, body, collected, action, forwarded);
  }
}
