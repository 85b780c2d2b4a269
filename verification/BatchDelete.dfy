/** `DeleteObjects`: authorise each key, forward the allowed ones, merge the answers. */
module BatchDelete {
  import opened Text
  import opened Types
  import opened Keys

  const MAX_KEYS: nat := 1000

  datatype DeleteError = DeleteError(key: string, code: string, message: string)

  /** The request body: its keys and whether successes are to be left out of the answer; or not well-formed. */
  datatype Body = Malformed | DeleteRequest(keys: seq<string>, quiet: bool)

  /** What a parsed answer of the backend reports. */
  datatype Outcome = Outcome(deleted: seq<string>, errors: seq<DeleteError>)

  /** The one request may not be sent, may get no answer, or is answered; an answer may hold no report. */
  datatype Reply = NotSigned(error: ProxyError) | NoAnswer(error: ProxyError) | Answer(status: nat, report: Option<Outcome>)

  /** The report that is used. */
  function Reported(reply: Reply): Result<Outcome, ProxyError> {
    match reply
    case NotSigned(e) => Err(e)
    case NoAnswer(e) => Err(e)
    case Answer(status, report) => if status >= 300 || report.None? then Err(BackendError) else Ok(report.value)
  }

  datatype DeleteResult = DeleteResult(deleted: seq<string>, errors: seq<DeleteError>)

  function ParseBody(body: Body): Result<Body, ProxyError> {
    if body.Malformed? || body.keys == [] || |body.keys| > MAX_KEYS then Err(MalformedXml) else Ok(body)
  }

  function Denial(key: string): DeleteError {
    DeleteError(key, "AccessDenied", "Access Denied")
  }

  function Allowed(keys: seq<string>, may: string -> bool): seq<string> {
    if keys == [] then []
    else (if may(keys[0]) then [keys[0]] else []) + Allowed(keys[1..], may)
  }

  function Denials(keys: seq<string>, may: string -> bool): seq<DeleteError> {
    if keys == [] then []
    else (if may(keys[0]) then [] else [Denial(keys[0])]) + Denials(keys[1..], may)
  }

  function ApplyAll(config: BucketConfig, keys: seq<string>): seq<string> {
    if keys == [] then [] else [ApplyBackendPrefix(config, keys[0])] + ApplyAll(config, keys[1..])
  }

  function StripAll(config: BucketConfig, keys: seq<string>): seq<string> {
    if keys == [] then [] else [StripBackendPrefix(config, keys[0])] + StripAll(config, keys[1..])
  }

  function StripErrors(config: BucketConfig, errors: seq<DeleteError>): seq<DeleteError> {
    if errors == [] then []
    else [errors[0].(key := StripBackendPrefix(config, errors[0].key))] + StripErrors(config, errors[1..])
  }

  function ErrorKeys(errors: seq<DeleteError>): seq<string> {
    if errors == [] then [] else [errors[0].key] + ErrorKeys(errors[1..])
  }

  /** What goes to the backend. */
  function Sent(config: BucketConfig, keys: seq<string>, may: string -> bool): seq<string> {
    ApplyAll(config, Allowed(keys, may))
  }

  /** Successes and errors in client keys, before the quiet preference. */
  function Merged(config: BucketConfig, keys: seq<string>, may: string -> bool, report: Outcome): DeleteResult {
    if Sent(config, keys, may) == [] then DeleteResult([], Denials(keys, may))
    else DeleteResult(StripAll(config, report.deleted), Denials(keys, may) + StripErrors(config, report.errors))
  }

  function Quieted(r: DeleteResult, quiet: bool): DeleteResult {
    if quiet then r.(deleted := []) else r
  }

  /** The answer to the client. */
  function Answered(config: BucketConfig, body: Body, may: string -> bool, backend: seq<string> -> Reply): Result<DeleteResult, ProxyError> {
    match ParseBody(body)
    case Err(e) => Err(e)
    case Ok(request) =>
      var sent := Sent(config, request.keys, may);
      if sent == [] then Ok(Quieted(Merged(config, request.keys, may, Outcome([], [])), request.quiet))
      else
        match Reported(backend(sent))
        case Err(e) => Err(e)
        case Ok(report) => Ok(Quieted(Merged(config, request.keys, may, report), request.quiet))
  }

  lemma {:induction false} StepKey(config: BucketConfig, keys: seq<string>, may: string -> bool, i: nat)
    requires i < |keys|
    ensures Sent(config, keys[i..], may)
         == (if may(keys[i]) then [ApplyBackendPrefix(config, keys[i])] else []) + Sent(config, keys[i + 1..], may)
    ensures Denials(keys[i..], may) == (if may(keys[i]) then [] else [Denial(keys[i])]) + Denials(keys[i + 1..], may)
  {
    assert keys[i..][0] == keys[i] && keys[i..][1..] == keys[i + 1..];
    if may(keys[i]) {
      assert ([keys[i]] + Allowed(keys[i + 1..], may))[1..] == Allowed(keys[i + 1..], may);
    } else {
      assert [] + Allowed(keys[i + 1..], may) == Allowed(keys[i + 1..], may);
    }
  }

  lemma Extend<T>(done: seq<T>, next: seq<T>, rest: seq<T>, whole: seq<T>)
    requires done + (next + rest) == whole
    ensures (done + next) + rest == whole
    ensures next == [] ==> done + rest == whole
  {
  }

  /** The allowed keys in backend form, and a denial for each of the others, both in request order. */
  method PartitionKeys(config: BucketConfig, keys: seq<string>, may: string -> bool)
    returns (allowedBackend: seq<string>, denials: seq<DeleteError>)
    ensures allowedBackend == Sent(config, keys, may)
    ensures denials == Denials(keys, may)
  {
    allowedBackend, denials := [], [];
    for i := 0 to |keys|
      invariant allowedBackend + Sent(config, keys[i..], may) == Sent(config, keys, may)
      invariant denials + Denials(keys[i..], may) == Denials(keys, may)
    {
      StepKey(config, keys, may, i);
      Extend(allowedBackend, if may(keys[i]) then [ApplyBackendPrefix(config, keys[i])] else [],
             Sent(config, keys[i + 1..], may), Sent(config, keys, may));
      Extend(denials, if may(keys[i]) then [] else [Denial(keys[i])], Denials(keys[i + 1..], may), Denials(keys, may));
      if may(keys[i]) {
        allowedBackend := allowedBackend + [ApplyBackendPrefix(config, keys[i])];
      } else {
        denials := denials + [Denial(keys[i])];
      }
    }
    assert keys[|keys|..] == [];
  }

  /** The backend's answer in client keys, its errors after the denials. */
  method MergeReply(config: BucketConfig, deleted: seq<string>, failed: seq<DeleteError>, denials: seq<DeleteError>)
    returns (r: DeleteResult)
    ensures r == DeleteResult(StripAll(config, deleted), denials + StripErrors(config, failed))
  {
    var deletedClient: seq<string> := [];
    for i := 0 to |deleted|
      invariant deletedClient + StripAll(config, deleted[i..]) == StripAll(config, deleted)
    {
      assert deleted[i..][1..] == deleted[i + 1..];
      deletedClient := deletedClient + [StripBackendPrefix(config, deleted[i])];
    }
    assert deleted[|deleted|..] == [];
    var errors := denials;
    for i := 0 to |failed|
      invariant errors + StripErrors(config, failed[i..]) == denials + StripErrors(config, failed)
    {
      assert failed[i..][1..] == failed[i + 1..];
      errors := errors + [failed[i].(key := StripBackendPrefix(config, failed[i].key))];
    }
    assert failed[|failed|..] == [];
    r := DeleteResult(deletedClient, errors);
  }

  /** `backend` is what becomes of the one request for these keys; `sent` is that request, if it goes out. */
  method ExecuteDeleteObjects(config: BucketConfig, body: Body, may: string -> bool, backend: seq<string> -> Reply)
    returns (r: Result<DeleteResult, ProxyError>, sent: Option<seq<string>>)
    ensures r == Answered(config, body, may, backend)
    ensures ParseBody(body).Err? ==> sent == None
    ensures ParseBody(body).Ok? ==>
              var request := Sent(config, body.keys, may);
              sent == (if request == [] || backend(request).NotSigned? then None else Some(request))
  {
    sent := None;
    if ParseBody(body).Err? {
      return Err(MalformedXml), None;
    }
    var allowedBackend, denials := PartitionKeys(config, body.keys, may);
    if allowedBackend == [] {
      return Ok(Quieted(DeleteResult([], denials), body.quiet)), None;
    }
    match backend(allowedBackend) {
      case NotSigned(e) => return Err(e), None;
      case NoAnswer(e) => return Err(e), Some(allowedBackend);
      case Answer(status, report) =>
        sent := Some(allowedBackend);
        if status >= 300 {
          return Err(BackendError), sent;
        }
        match report {
          case None => return Err(BackendError), sent;
          case Some(outcome) =>
            var merged := MergeReply(config, outcome.deleted, outcome.errors, denials);
            return Ok(Quieted(merged, body.quiet)), sent;
        }
    }
  }

  // ---- Conservation.

  lemma {:induction false} ErrorKeysCons(e: DeleteError, rest: seq<DeleteError>)
    ensures ErrorKeys([e] + rest) == [e.key] + ErrorKeys(rest)
  {
    assert ([e] + rest)[1..] == rest;
  }

  lemma PartitionStep(k: string, a: seq<string>, d: seq<string>, rest: seq<string>)
    requires multiset(a) + multiset(d) == multiset(rest)
    ensures multiset([k] + a) + multiset(d) == multiset([k] + rest)
    ensures multiset(a) + multiset([k] + d) == multiset([k] + rest)
  {
    assert multiset([k] + a) == multiset{k} + multiset(a);
    assert multiset([k] + d) == multiset{k} + multiset(d);
    assert multiset([k] + rest) == multiset{k} + multiset(rest);
  }

  lemma {:induction false} PartitionCons(keys: seq<string>, may: string -> bool)
    requires keys != []
    ensures var k, a, d := keys[0], Allowed(keys[1..], may), ErrorKeys(Denials(keys[1..], may));
            && Allowed(keys, may) == (if may(k) then [k] + a else a)
            && ErrorKeys(Denials(keys, may)) == (if may(k) then d else [k] + d)
  {
    var rest := Denials(keys[1..], may);
    ErrorKeysCons(Denial(keys[0]), rest);
    assert [] + rest == rest;
  }

  lemma {:induction false} KeysPartition(keys: seq<string>, may: string -> bool)
    ensures multiset(Allowed(keys, may)) + multiset(ErrorKeys(Denials(keys, may))) == multiset(keys)
  {
    if keys != [] {
      var k, rest := keys[0], keys[1..];
      var a, d := Allowed(rest, may), ErrorKeys(Denials(rest, may));
      KeysPartition(rest, may);
      PartitionCons(keys, may);
      PartitionJoin(keys, k, rest, a, d, Allowed(keys, may), ErrorKeys(Denials(keys, may)), may(k));
    }
  }

  lemma PartitionJoin(keys: seq<string>, k: string, rest: seq<string>, a: seq<string>, d: seq<string>,
                      a': seq<string>, d': seq<string>, allowed: bool)
    requires multiset(a) + multiset(d) == multiset(rest) && keys == [k] + rest
    requires a' == (if allowed then [k] + a else a) && d' == (if allowed then d else [k] + d)
    ensures multiset(a') + multiset(d') == multiset(keys)
  {
    PartitionStep(k, a, d, rest);
  }

  lemma {:induction false} StripAllConcat(config: BucketConfig, a: seq<string>, b: seq<string>)
    ensures StripAll(config, a + b) == StripAll(config, a) + StripAll(config, b)
  {
    if a == [] {
      assert a + b == b;
    } else {
      assert (a + b)[1..] == a[1..] + b;
      StripAllConcat(config, a[1..], b);
    }
  }

  lemma {:induction false} StripAllInsert(config: BucketConfig, left: seq<string>, k: string, right: seq<string>)
    ensures multiset(StripAll(config, left + [k] + right))
         == multiset{StripBackendPrefix(config, k)} + multiset(StripAll(config, left + right))
  {
    StripAllConcat(config, left, right);
    StripAllConcat(config, left + [k], right);
    StripAllConcat(config, left, [k]);
    assert StripAll(config, [k]) == [StripBackendPrefix(config, k)];
    InsertOne(StripAll(config, left), StripBackendPrefix(config, k), StripAll(config, right));
  }

  lemma InsertOne<T>(left: seq<T>, x: T, right: seq<T>)
    ensures multiset(left + [x] + right) == multiset{x} + multiset(left + right)
  {
  }

  /** The first key of `a`, found in `b`; what is left of the two has the same multiset. */
  lemma {:induction false} RemoveHead(a: seq<string>, b: seq<string>) returns (left: seq<string>, right: seq<string>)
    requires a != [] && multiset(a) == multiset(b)
    ensures b == left + [a[0]] + right
    ensures multiset(a[1..]) == multiset(left + right)
  {
    assert a[0] in multiset(b);
    var i :| 0 <= i < |b| && b[i] == a[0];
    left, right := b[..i], b[i + 1..];
    assert b == left + [a[0]] + right;
    assert a == [a[0]] + a[1..];
    InsertOne(left, a[0], right);
    assert multiset(a[1..]) == multiset(a) - multiset{a[0]} == multiset(left + right);
  }

  /** Stripping respects multisets: it is applied key by key. */
  lemma {:induction false} StripAllMultiset(config: BucketConfig, a: seq<string>, b: seq<string>)
    requires multiset(a) == multiset(b)
    ensures multiset(StripAll(config, a)) == multiset(StripAll(config, b))
  {
    if a == [] {
      assert |b| == |multiset(b)| == |multiset(a)| == 0;
    } else {
      var left, right := RemoveHead(a, b);
      StripAllMultiset(config, a[1..], left + right);
      StripAllInsert(config, left, a[0], right);
      assert StripAll(config, a) == [StripBackendPrefix(config, a[0])] + StripAll(config, a[1..]);
    }
  }

  lemma {:induction false} StripApplied(config: BucketConfig, keys: seq<string>)
    ensures StripAll(config, ApplyAll(config, keys)) == keys
  {
    if keys != [] {
      StripUndoesApply(config, keys[0]);
      StripApplied(config, keys[1..]);
      assert keys == [keys[0]] + keys[1..];
    }
  }

  lemma {:induction false} ErrorKeysConcat(a: seq<DeleteError>, b: seq<DeleteError>)
    ensures ErrorKeys(a + b) == ErrorKeys(a) + ErrorKeys(b)
  {
    if a == [] {
      assert a + b == b;
    } else {
      assert (a + b)[1..] == a[1..] + b;
      ErrorKeysConcat(a[1..], b);
    }
  }

  lemma {:induction false} StrippedErrorKeys(config: BucketConfig, errors: seq<DeleteError>)
    ensures ErrorKeys(StripErrors(config, errors)) == StripAll(config, ErrorKeys(errors))
  {
    if errors != [] {
      StrippedErrorKeys(config, errors[1..]);
    }
  }

  /** The backend reports every key it was sent exactly once. */
  ghost predicate ReportsEach(report: Outcome, sent: seq<string>) {
    multiset(report.deleted) + multiset(ErrorKeys(report.errors)) == multiset(sent)
  }

  /** Every requested key is answered exactly once, as deleted or as an error. */
  lemma {:induction false} KeysConserved(config: BucketConfig, keys: seq<string>, may: string -> bool, report: Outcome)
    requires Sent(config, keys, may) != [] ==> ReportsEach(report, Sent(config, keys, may))
    ensures var r := Merged(config, keys, may, report);
            multiset(r.deleted) + multiset(ErrorKeys(r.errors)) == multiset(keys)
  {
    var allowed := Allowed(keys, may);
    KeysPartition(keys, may);
    StripApplied(config, allowed);
    if Sent(config, keys, may) == [] {
      assert allowed == [];
    } else {
      var failed := ErrorKeys(report.errors);
      ErrorKeysConcat(Denials(keys, may), StripErrors(config, report.errors));
      StrippedErrorKeys(config, report.errors);
      assert multiset(report.deleted + failed) == multiset(Sent(config, keys, may));
      StripAllMultiset(config, report.deleted + failed, Sent(config, keys, may));
      StripAllConcat(config, report.deleted, failed);
    }
  }

  lemma {:induction false} AllowedHas(keys: seq<string>, may: string -> bool, k: string)
    ensures k in Allowed(keys, may) <==> k in keys && may(k)
  {
    if keys != [] {
      AllowedHas(keys[1..], may, k);
    }
  }

  lemma {:induction false} ApplyAllHas(config: BucketConfig, keys: seq<string>, k: string)
    ensures ApplyBackendPrefix(config, k) in ApplyAll(config, keys) <==> k in keys
  {
    if keys != [] {
      ApplyAllHas(config, keys[1..], k);
      if ApplyBackendPrefix(config, k) == ApplyBackendPrefix(config, keys[0]) {
        ApplyInjective(config, k, keys[0]);
      }
    }
  }

  /** A key reaches the backend exactly when it was requested and allowed; nothing allowed means nothing sent. */
  lemma {:induction false} SentExactlyAllowed(config: BucketConfig, keys: seq<string>, may: string -> bool, k: string)
    ensures ApplyBackendPrefix(config, k) in Sent(config, keys, may) <==> k in keys && may(k)
    ensures Sent(config, keys, may) == [] <==> forall i :: 0 <= i < |keys| ==> !may(keys[i])
  {
    AllowedHas(keys, may, k);
    ApplyAllHas(config, Allowed(keys, may), k);
    forall i | 0 <= i < |keys|
      ensures may(keys[i]) ==> Allowed(keys, may) != []
    {
      AllowedHas(keys, may, keys[i]);
    }
    if Allowed(keys, may) != [] {
      AllowedHas(keys, may, Allowed(keys, may)[0]);
    }
  }

  // ---- The answer.

  /** The backend's report on what it is sent for this body is a complete one. */
  ghost predicate ReportsAll(config: BucketConfig, keys: seq<string>, may: string -> bool, backend: seq<string> -> Reply) {
    var sent := Sent(config, keys, may);
    sent != [] && Reported(backend(sent)).Ok? ==> ReportsEach(Reported(backend(sent)).value, sent)
  }

  /** The body is refused exactly when it is not well-formed or names no key or more than a thousand. */
  lemma {:induction false} MalformedExactly(config: BucketConfig, body: Body, may: string -> bool, backend: seq<string> -> Reply)
    requires forall request :: !(backend(request).NotSigned? && backend(request).error.MalformedXml?)
    requires forall request :: !(backend(request).NoAnswer? && backend(request).error.MalformedXml?)
    ensures Answered(config, body, may, backend) == Err(MalformedXml)
            <==> body.Malformed? || |body.keys| == 0 || |body.keys| > 1000
  {
    if body.DeleteRequest? {
      var sent := Sent(config, body.keys, may);
      assert !(backend(sent).NotSigned? && backend(sent).error.MalformedXml?);
      assert !(backend(sent).NoAnswer? && backend(sent).error.MalformedXml?);
    }
  }

  /**
    A well-formed request is answered exactly when no key of it is allowed or the backend
    answers the request for the allowed ones with a status below 300 and a readable report.
   */
  lemma {:induction false} AnsweredExactly(config: BucketConfig, keys: seq<string>, quiet: bool, may: string -> bool,
                                           backend: seq<string> -> Reply)
    requires 1 <= |keys| <= 1000
    ensures var reply := backend(Sent(config, keys, may));
            var r := Answered(config, DeleteRequest(keys, quiet), may, backend);
            && (r.Ok? <==> (forall i :: 0 <= i < |keys| ==> !may(keys[i]))
                           || (reply.Answer? && reply.status < 300 && reply.report.Some?))
            && (r.Err? && reply.Answer? ==> r == Err(BackendError))
            && (r.Err? && !reply.Answer? ==> r == Err(reply.error))
  {
    SentExactlyAllowed(config, keys, may, "");
  }

  /** Quiet leaves out the successes and nothing else. */
  lemma {:induction false} QuietExactly(config: BucketConfig, keys: seq<string>, may: string -> bool, backend: seq<string> -> Reply)
    ensures var quiet := Answered(config, DeleteRequest(keys, true), may, backend);
            var loud := Answered(config, DeleteRequest(keys, false), may, backend);
            && (quiet.Err? ==> loud == quiet) && (quiet.Ok? ==> loud.Ok?)
            && (quiet.Ok? ==> quiet.value.deleted == [] && quiet.value.errors == loud.value.errors)
  {
  }

  /** Without quiet, every requested key is in the answer exactly once, if the backend reports each it was sent. */
  lemma {:induction false} AnswerConserves(config: BucketConfig, keys: seq<string>, may: string -> bool, backend: seq<string> -> Reply)
    requires ReportsAll(config, keys, may, backend)
    requires Answered(config, DeleteRequest(keys, false), may, backend).Ok?
    ensures var r := Answered(config, DeleteRequest(keys, false), may, backend).value;
            multiset(r.deleted) + multiset(ErrorKeys(r.errors)) == multiset(keys)
  {
    var sent := Sent(config, keys, may);
    KeysConserved(config, keys, may, if sent == [] then Outcome([], []) else Reported(backend(sent)).value);
  }

  /** What an error says, in client terms. */
  ghost predicate HasError(errors: seq<DeleteError>, key: string, code: string, message: string) {
    DeleteError(key, code, message) in errors
  }

  lemma {:induction false} DenialsHave(keys: seq<string>, may: string -> bool, k: string)
    ensures HasError(Denials(keys, may), k, "AccessDenied", "Access Denied") <==> k in keys && !may(k)
    ensures forall e :: e in Denials(keys, may) ==> e.code == "AccessDenied"
  {
    if keys != [] {
      DenialsHave(keys[1..], may, k);
    }
  }

  lemma {:induction false} StrippedHave(config: BucketConfig, errors: seq<DeleteError>, e: DeleteError)
    requires e in errors
    ensures e.(key := StripBackendPrefix(config, e.key)) in StripErrors(config, errors)
  {
    if errors[0] != e {
      StrippedHave(config, errors[1..], e);
    }
  }

  /** Denied keys are reported as such, quiet or not; and so is every failure the backend reports, in the client's key and the backend's words. */
  lemma {:induction false} FailuresReported(config: BucketConfig, keys: seq<string>, quiet: bool, may: string -> bool,
                                            backend: seq<string> -> Reply)
    requires Answered(config, DeleteRequest(keys, quiet), may, backend).Ok?
    ensures var errors := Answered(config, DeleteRequest(keys, quiet), may, backend).value.errors;
            var reply := backend(Sent(config, keys, may));
            && (forall k :: k in keys && !may(k) ==> HasError(errors, k, "AccessDenied", "Access Denied"))
            && ((exists k :: k in keys && may(k)) ==>
                reply.Answer? && reply.report.Some?
                && forall k, code, message ::
                     DeleteError(ApplyBackendPrefix(config, k), code, message) in reply.report.value.errors ==> HasError(errors, k, code, message))
  {
    var errors := Answered(config, DeleteRequest(keys, quiet), may, backend).value.errors;
    var reply := backend(Sent(config, keys, may));
    forall k | k in keys && !may(k)
      ensures HasError(errors, k, "AccessDenied", "Access Denied")
    {
      DenialsHave(keys, may, k);
    }
    if k :| k in keys && may(k) {
      SentExactlyAllowed(config, keys, may, k);
      forall k, code, message | DeleteError(ApplyBackendPrefix(config, k), code, message) in reply.report.value.errors
        ensures HasError(errors, k, code, message)
      {
        StrippedHave(config, reply.report.value.errors, DeleteError(ApplyBackendPrefix(config, k), code, message));
        StripUndoesApply(config, k);
      }
    }
  }
}
