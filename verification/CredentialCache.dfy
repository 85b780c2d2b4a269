/**
  The backend credential cache: non-blocking, single-flight renewal.
  The class is the cache itself; `CacheRuns` is about all interleavings of its callers.
 */
module CredentialCache {
  import opened Text

  // Times and durations in nanoseconds.
  const SECOND: int := 1_000_000_000
  const REFRESH_LEAD: int := 60 * SECOND
  const MIN_SERVE: int := 5 * SECOND
  const CLAIM_TIMEOUT: int := 30 * SECOND

  datatype Credentials = Credentials(accessKeyId: string, secretAccessKey: string, sessionToken: string, expiration: int)

  datatype Entry = Entry(creds: Credentials, renewingSince: Option<int>)

  type Entries = map<string, Entry>

  datatype Action = Serve(creds: Credentials) | Fetch

  const UNIT_SEPARATOR: char := '\U{1F}'

  function ScopedKey(scope: string, subject: string): string {
    scope + [UNIT_SEPARATOR] + subject
  }

  predicate ClaimHeld(e: Entry, now: int) {
    e.renewingSince.Some? && now < e.renewingSince.value + CLAIM_TIMEOUT
  }

  /** What a caller asking at `now` does. */
  function ClaimAction(entries: Entries, key: string, now: int): Action {
    if key !in entries then Fetch
    else
      var e := entries[key];
      if e.creds.expiration > now + REFRESH_LEAD then Serve(e.creds)
      else if ClaimHeld(e, now) && e.creds.expiration > now + MIN_SERVE then Serve(e.creds)
      else Fetch
  }

  /** What it leaves behind: being told to fetch for a cached key takes the claim. */
  function AfterClaim(entries: Entries, key: string, now: int): Entries {
    if key in entries && ClaimAction(entries, key, now).Fetch?
    then entries[key := entries[key].(renewingSince := Some(now))]
    else entries
  }

  function AfterFetch(entries: Entries, key: string, fetched: Option<Credentials>): Entries {
    match fetched
    case Some(creds) => entries[key := Entry(creds, None)]
    case None => if key in entries then entries[key := entries[key].(renewingSince := None)] else entries
  }

  class Cache {
    var entries: Entries

    constructor ()
      ensures entries == map[]
    {
      entries := map[];
    }

    method Claim(key: string, now: int) returns (action: Action)
      modifies this
      ensures action == ClaimAction(old(entries), key, now)
      ensures entries == AfterClaim(old(entries), key, now)
      ensures action.Serve? ==> action.creds.expiration > now + 5 * SECOND
    {
      if key !in entries {
        return Fetch;
      }
      var entry := entries[key];
      if entry.creds.expiration > now + REFRESH_LEAD {
        return Serve(entry.creds);
      }
      var claimed := entry.renewingSince.Some? && now < entry.renewingSince.value + CLAIM_TIMEOUT;
      if claimed && entry.creds.expiration > now + MIN_SERVE {
        return Serve(entry.creds);
      }
      entries := entries[key := entry.(renewingSince := Some(now))];
      return Fetch;
    }

    /** The two arms after the fetch: store the credential, or drop whatever claim is there. */
    method Complete(key: string, fetched: Option<Credentials>)
      modifies this
      ensures entries == AfterFetch(old(entries), key, fetched)
      ensures fetched.Some? ==> entries == old(entries)[key := Entry(fetched.value, None)]
      ensures fetched.None? ==> entries.Keys == old(entries).Keys
                                && forall k :: k in entries ==> entries[k].creds == old(entries)[k].creds
    {
      match fetched {
        case Some(creds) =>
          entries := entries[key := Entry(creds, None)];
        case None =>
          if key in entries {
            entries := entries[key := entries[key].(renewingSince := None)];
          }
      }
    }

    /** One undisturbed call: `fetched` is what the closure yields if it is run. */
    method GetOrFetch(key: string, now: int, fetched: Option<Credentials>) returns (r: Option<Credentials>)
      modifies this
      ensures var action := ClaimAction(old(entries), key, now);
              if action.Serve? then r == Some(action.creds) && entries == old(entries)
              else r == fetched && entries == AfterFetch(AfterClaim(old(entries), key, now), key, fetched)
      ensures r.Some? && r.value.expiration > now + 60 * SECOND ==> ClaimAction(entries, key, now) == Serve(r.value)
      ensures r.Some? ==> key in entries && entries[key].creds == r.value
    {
      var action := Claim(key, now);
      if action.Serve? {
        return Some(action.creds);
      }
      Complete(key, fetched);
      return fetched;
    }
  }

  // ---- Keys.

  /** A scope free of the separator and the subject are recovered from the key, whatever the subject is. */
  lemma ScopedKeyInjective(scope1: string, subject1: string, scope2: string, subject2: string)
    requires UNIT_SEPARATOR !in scope1 && UNIT_SEPARATOR !in scope2
    ensures ScopedKey(scope1, subject1) == ScopedKey(scope2, subject2) <==> scope1 == scope2 && subject1 == subject2
  {
    FreeOfChar(scope1, UNIT_SEPARATOR);
    FreeOfChar(scope2, UNIT_SEPARATOR);
    SplitOnceAfterFree(scope1, [UNIT_SEPARATOR], subject1);
    SplitOnceAfterFree(scope2, [UNIT_SEPARATOR], subject2);
  }

  /** Two scopes can share a key exactly when one continues the other after a separator. */
  lemma ScopesCollideExactly(scope1: string, scope2: string)
    requires scope1 != scope2
    ensures (exists subject1, subject2 :: ScopedKey(scope1, subject1) == ScopedKey(scope2, subject2))
            <==> scope1 + [UNIT_SEPARATOR] <= scope2 || scope2 + [UNIT_SEPARATOR] <= scope1
  {
    if subject1, subject2 :| ScopedKey(scope1, subject1) == ScopedKey(scope2, subject2) {
      CollidingScopes(scope1, subject1, scope2, subject2);
    }
    if scope1 + [UNIT_SEPARATOR] <= scope2 {
      ContinuedScope(scope1, scope2);
    }
    if scope2 + [UNIT_SEPARATOR] <= scope1 {
      ContinuedScope(scope2, scope1);
    }
  }

  lemma CollidingScopes(scope1: string, subject1: string, scope2: string, subject2: string)
    requires scope1 != scope2 && ScopedKey(scope1, subject1) == ScopedKey(scope2, subject2)
    ensures scope1 + [UNIT_SEPARATOR] <= scope2 || scope2 + [UNIT_SEPARATOR] <= scope1
  {
    var key := ScopedKey(scope1, subject1);
    assert key[..|scope1| + 1] == scope1 + [UNIT_SEPARATOR] && key[..|scope1|] == scope1;
    assert key[..|scope2| + 1] == scope2 + [UNIT_SEPARATOR] && key[..|scope2|] == scope2;
    if |scope1| < |scope2| {
      assert key[..|scope2|][..|scope1| + 1] == key[..|scope1| + 1];
    } else if |scope2| < |scope1| {
      assert key[..|scope1|][..|scope2| + 1] == key[..|scope2| + 1];
    }
  }

  lemma ContinuedScope(short: string, long: string)
    requires short + [UNIT_SEPARATOR] <= long
    ensures ScopedKey(long, "") == ScopedKey(short, long[|short| + 1..] + [UNIT_SEPARATOR])
  {
    var rest := long[|short| + 1..];
    assert long == short + [UNIT_SEPARATOR] + rest;
    assert ScopedKey(long, "") == (short + [UNIT_SEPARATOR] + rest) + [UNIT_SEPARATOR];
  }
}

/** All runs of the cache: callers claim, then complete, fail or vanish, in any order. */
module CacheRuns {
  import opened Text
  import opened CredentialCache

  /** The shared map, the callers told to fetch and not yet back, the clock, and every credential a fetch returned. */
  datatype State = State(entries: Entries, fetching: multiset<string>, clock: int, minted: set<(string, Credentials)>)

  datatype Event =
    | Claimed(key: string, now: int, action: Action)
    | FetchOk(key: string, creds: Credentials)
    | FetchErr(key: string)
    | Vanished(key: string)

  const INITIAL: State := State(map[], multiset{}, 0, {})

  predicate Enabled(s: State, e: Event) {
    match e
    case Claimed(key, now, action) => s.clock <= now && action == ClaimAction(s.entries, key, now)
    case FetchOk(key, _) => key in s.fetching
    case FetchErr(key) => key in s.fetching
    case Vanished(key) => key in s.fetching
  }

  function Next(s: State, e: Event): State {
    match e
    case Claimed(key, now, action) =>
      s.(entries := AfterClaim(s.entries, key, now), clock := now,
         fetching := if action.Fetch? then s.fetching + multiset{key} else s.fetching)
    case FetchOk(key, creds) =>
      s.(entries := AfterFetch(s.entries, key, Some(creds)), fetching := s.fetching - multiset{key},
         minted := s.minted + {(key, creds)})
    case FetchErr(key) =>
      s.(entries := AfterFetch(s.entries, key, None), fetching := s.fetching - multiset{key})
    case Vanished(key) =>
      s.(fetching := s.fetching - multiset{key})
  }

  predicate IsRun(s: State, es: seq<Event>)
    decreases |es|
  {
    es == [] || (Enabled(s, es[0]) && IsRun(Next(s, es[0]), es[1..]))
  }

  function EndOf(s: State, es: seq<Event>): State
    decreases |es|
  {
    if es == [] then s else EndOf(Next(s, es[0]), es[1..])
  }

  function FetchClaims(es: seq<Event>, key: string): nat {
    if es == [] then 0
    else (if es[0].Claimed? && es[0].key == key && es[0].action.Fetch? then 1 else 0) + FetchClaims(es[1..], key)
  }

  function Failures(es: seq<Event>, key: string): nat {
    if es == [] then 0
    else (if es[0] == FetchErr(key) then 1 else 0) + Failures(es[1..], key)
  }

  predicate Stores(e: Event, key: string) {
    e.FetchOk? && e.key == key
  }

  /** Claims are never in the future. */
  ghost predicate ClockAhead(s: State) {
    forall k :: k in s.entries && s.entries[k].renewingSince.Some? ==> s.entries[k].renewingSince.value <= s.clock
  }

  // ---- Invariants of every run.

  ghost predicate Provenance(s: State) {
    forall k :: k in s.entries ==> (k, s.entries[k].creds) in s.minted
  }

  ghost predicate Inv(s: State) {
    ClockAhead(s) && Provenance(s)
  }

  lemma {:induction false} StepKeepsInv(s: State, e: Event)
    requires Inv(s) && Enabled(s, e)
    ensures Inv(Next(s, e)) && s.clock <= Next(s, e).clock && s.minted <= Next(s, e).minted
  {
  }

  lemma {:induction false} RunKeepsInv(s: State, es: seq<Event>)
    requires Inv(s) && IsRun(s, es)
    ensures Inv(EndOf(s, es)) && s.clock <= EndOf(s, es).clock && s.minted <= EndOf(s, es).minted
    decreases |es|
  {
    if es != [] {
      StepKeepsInv(s, es[0]);
      RunKeepsInv(Next(s, es[0]), es[1..]);
    }
  }

  /** Whatever a run serves was fetched for that very key and has more than five seconds left. */
  lemma {:induction false} ServedIsMintedAndFresh(es: seq<Event>, key: string, now: int, creds: Credentials)
    requires IsRun(INITIAL, es) && Enabled(EndOf(INITIAL, es), Claimed(key, now, Serve(creds)))
    ensures (key, creds) in EndOf(INITIAL, es).minted
    ensures creds.expiration > now + 5 * SECOND
  {
    RunKeepsInv(INITIAL, es);
  }

  /** A credential is minted for a key only by a caller that was told to fetch that key. */
  lemma {:induction false} MintedByClaimants(s: State, es: seq<Event>, key: string)
    requires IsRun(s, es)
    ensures s.fetching[key] + FetchClaims(es, key) >= Count(es, key) + EndOf(s, es).fetching[key]
    ensures forall c :: (key, c) in EndOf(s, es).minted ==> (key, c) in s.minted || FetchOk(key, c) in es
    decreases |es|
  {
    if es != [] {
      MintedByClaimants(Next(s, es[0]), es[1..], key);
    }
  }

  function Count(es: seq<Event>, key: string): nat {
    if es == [] then 0 else (if Stores(es[0], key) then 1 else 0) + Count(es[1..], key)
  }

  /** A step on one key leaves every other entry as it is. */
  lemma StepIsLocal(s: State, e: Event, other: string)
    requires other != e.key
    ensures other in Next(s, e).entries <==> other in s.entries
    ensures other in s.entries ==> Next(s, e).entries[other] == s.entries[other]
  {
  }

  // ---- What is stored is what is served.

  ghost predicate NoStore(es: seq<Event>, key: string) {
    forall i :: 0 <= i < |es| ==> !Stores(es[i], key)
  }

  ghost predicate NoClaim(es: seq<Event>, key: string) {
    forall i :: 0 <= i < |es| ==> !(es[i].Claimed? && es[i].key == key)
  }

  lemma {:induction false} StepKeepsCredential(s: State, e: Event, key: string)
    requires Enabled(s, e) && !Stores(e, key) && key in s.entries
    ensures key in Next(s, e).entries && Next(s, e).entries[key].creds == s.entries[key].creds
    ensures !(e.Claimed? && e.key == key) && s.entries[key].renewingSince.None? ==> Next(s, e).entries[key].renewingSince.None?
  {
  }

  lemma TailOfRun(es: seq<Event>, key: string)
    requires es != [] && NoStore(es, key)
    ensures !Stores(es[0], key) && NoStore(es[1..], key)
    ensures NoClaim(es, key) ==> !(es[0].Claimed? && es[0].key == key) && NoClaim(es[1..], key)
  {
    assert forall i :: 0 <= i < |es[1..]| ==> es[1..][i] == es[i + 1];
  }

  /** Without a store the credential stays, and without a claim nobody holds one. */
  lemma {:induction false} StaysCached(s: State, es: seq<Event>, key: string)
    requires IsRun(s, es) && NoStore(es, key) && key in s.entries
    ensures key in EndOf(s, es).entries && EndOf(s, es).entries[key].creds == s.entries[key].creds
    ensures NoClaim(es, key) && s.entries[key].renewingSince.None? ==> EndOf(s, es).entries[key].renewingSince.None?
    decreases |es|
  {
    if es != [] {
      TailOfRun(es, key);
      StepKeepsCredential(s, es[0], key);
      StaysCached(Next(s, es[0]), es[1..], key);
    }
  }

  /**
    Once a fetch has come back for a key, and until the next one does, every caller is served
    that very credential while it has more than sixty seconds left; with less, the first caller
    to ask is told to renew it.
   */
  lemma {:induction false} FetchedIsServed(s: State, key: string, creds: Credentials, es: seq<Event>, now: int, action: Action)
    requires Enabled(s, FetchOk(key, creds)) && IsRun(Next(s, FetchOk(key, creds)), es) && NoStore(es, key)
    requires Enabled(EndOf(Next(s, FetchOk(key, creds)), es), Claimed(key, now, action))
    ensures creds.expiration > now + 60 * SECOND ==> action == Serve(creds)
    ensures creds.expiration <= now + 60 * SECOND && NoClaim(es, key) ==> action == Fetch
    ensures action.Serve? ==> action.creds == creds
  {
    StaysCached(Next(s, FetchOk(key, creds)), es, key);
  }

  /** After a failed fetch the old credential is still there, and a caller who finds it due fetches at once. */
  lemma {:induction false} FailureReleases(s: State, key: string, es: seq<Event>, now: int, action: Action)
    requires Enabled(s, FetchErr(key)) && IsRun(Next(s, FetchErr(key)), es) && NoStore(es, key) && key in s.entries
    requires Enabled(EndOf(Next(s, FetchErr(key)), es), Claimed(key, now, action))
    ensures s.entries[key].creds.expiration > now + 60 * SECOND ==> action == Serve(s.entries[key].creds)
    ensures s.entries[key].creds.expiration <= now + 60 * SECOND && NoClaim(es, key) ==> action == Fetch
    ensures action.Serve? ==> action.creds == s.entries[key].creds
  {
    StaysCached(Next(s, FetchErr(key)), es, key);
  }

  /** The first caller for a key fetches, and so does every other until one comes back. */
  lemma {:induction false} UnknownIsFetched(es: seq<Event>, key: string, now: int, action: Action)
    requires IsRun(INITIAL, es) && NoStore(es, key) && Enabled(EndOf(INITIAL, es), Claimed(key, now, action))
    ensures action == Fetch
  {
    StaysUnknown(INITIAL, es, key);
  }

  lemma {:induction false} StaysUnknown(s: State, es: seq<Event>, key: string)
    requires IsRun(s, es) && NoStore(es, key) && key !in s.entries
    ensures key !in EndOf(s, es).entries
    decreases |es|
  {
    if es != [] {
      TailOfRun(es, key);
      StaysUnknown(Next(s, es[0]), es[1..], key);
    }
  }

  // ---- The renewal bound.

  /** The cached credential stays, and every claim on its key comes while it has more than five seconds left. */
  ghost predicate StaysUsable(es: seq<Event>, key: string, expiration: int) {
    forall i :: 0 <= i < |es| ==>
      !Stores(es[i], key) && (es[i].Claimed? && es[i].key == key ==> expiration > es[i].now + MIN_SERVE)
  }

  function Later(a: int, b: int): int {
    if a < b then b else a
  }

  /** How many more claims can be told to fetch while nothing fails: the first from `from` on, the next 30 s later. */
  function Budget(from: int, expiration: int): nat {
    if from >= expiration - MIN_SERVE then 0
    else if from + CLAIM_TIMEOUT >= expiration - MIN_SERVE then 1
    else 2
  }

  function Remaining(e: Entry, clock: int): nat {
    var open := Later(clock, e.creds.expiration - REFRESH_LEAD);
    if e.renewingSince.None? then Budget(open, e.creds.expiration)
    else Budget(Later(open, e.renewingSince.value + CLAIM_TIMEOUT), e.creds.expiration)
  }

  lemma {:induction false} FetchesWithinBudget(s: State, es: seq<Event>, key: string)
    requires IsRun(s, es) && ClockAhead(s) && key in s.entries
    requires StaysUsable(es, key, s.entries[key].creds.expiration)
    ensures FetchClaims(es, key) <= Remaining(s.entries[key], s.clock) + Failures(es, key)
    decreases |es|
  {
    if es != [] {
      var e, s' := es[0], Next(s, es[0]);
      StaysUsableTail(es, key, s.entries[key].creds.expiration);
      StepSpendsBudget(s, e, key);
      FetchesWithinBudget(s', es[1..], key);
    }
  }

  lemma StaysUsableTail(es: seq<Event>, key: string, expiration: int)
    requires es != [] && StaysUsable(es, key, expiration)
    ensures StaysUsable(es[1..], key, expiration)
    ensures !Stores(es[0], key) && (es[0].Claimed? && es[0].key == key ==> expiration > es[0].now + MIN_SERVE)
  {
    forall i | 0 <= i < |es[1..]|
      ensures es[1..][i] == es[i + 1]
    {
    }
  }

  /** One step: a claim told to fetch spends one, a failure gives one back, nothing else adds. */
  lemma {:induction false} StepSpendsBudget(s: State, e: Event, key: string)
    requires Enabled(s, e) && ClockAhead(s) && key in s.entries && !Stores(e, key)
    requires e.Claimed? && e.key == key ==> s.entries[key].creds.expiration > e.now + MIN_SERVE
    ensures ClockAhead(Next(s, e)) && key in Next(s, e).entries
    ensures Next(s, e).entries[key].creds == s.entries[key].creds
    ensures Remaining(Next(s, e).entries[key], Next(s, e).clock)
              + (if e.Claimed? && e.key == key && e.action.Fetch? then 1 else 0)
            <= Remaining(s.entries[key], s.clock) + (if e == FetchErr(key) then 1 else 0)
  {
  }

  /** At most two renewals per credential, and one more for every failed fetch. */
  lemma {:induction false} RenewalBound(s: State, es: seq<Event>, key: string)
    requires IsRun(s, es) && ClockAhead(s) && key in s.entries
    requires StaysUsable(es, key, s.entries[key].creds.expiration)
    ensures FetchClaims(es, key) <= 2 + Failures(es, key)
  {
    FetchesWithinBudget(s, es, key);
  }

  /** The bound is met: every number of failures is answered by that many fetches and two more. */
  lemma {:induction false} RenewalBoundTight(s: State, key: string, failures: nat)
    requires key in s.entries && s.entries[key].renewingSince == None
    requires s.clock <= s.entries[key].creds.expiration - REFRESH_LEAD
    ensures var x := s.entries[key].creds.expiration;
            var es := Busiest(key, x, failures);
            && IsRun(s, es) && StaysUsable(es, key, x)
            && FetchClaims(es, key) == 2 + failures && Failures(es, key) == failures
    decreases failures
  {
    var x := s.entries[key].creds.expiration;
    var first := Claimed(key, x - REFRESH_LEAD, Fetch);
    if failures == 0 {
      BusiestEnd(s, key);
    } else {
      var back := Next(Next(s, first), FetchErr(key));
      RenewalBoundTight(back, key, failures - 1);
      BusiestStep(s, key, Busiest(key, x, failures - 1));
    }
  }

  /** Two unanswered claims, 30 s apart. */
  lemma {:induction false} BusiestEnd(s: State, key: string)
    requires key in s.entries && s.entries[key].renewingSince == None
    requires s.clock <= s.entries[key].creds.expiration - REFRESH_LEAD
    ensures var x := s.entries[key].creds.expiration;
            var es := Busiest(key, x, 0);
            IsRun(s, es) && StaysUsable(es, key, x) && FetchClaims(es, key) == 2 && Failures(es, key) == 0
  {
    var x := s.entries[key].creds.expiration;
    var first, second := Claimed(key, x - REFRESH_LEAD, Fetch), Claimed(key, x - CLAIM_TIMEOUT, Fetch);
    BusiestCons(s, key, x, first, [second]);
    BusiestCons(Next(s, first), key, x, second, []);
    assert [first, second] == [first] + [second] && [second] == [second] + [];
  }

  /** A claim that fails at once, before anything else. */
  lemma {:induction false} BusiestStep(s: State, key: string, rest: seq<Event>)
    requires key in s.entries && s.entries[key].renewingSince == None
    requires s.clock <= s.entries[key].creds.expiration - REFRESH_LEAD
    requires var x := s.entries[key].creds.expiration;
             IsRun(Next(Next(s, Claimed(key, x - REFRESH_LEAD, Fetch)), FetchErr(key)), rest) && StaysUsable(rest, key, x)
    ensures var x := s.entries[key].creds.expiration;
            var es := [Claimed(key, x - REFRESH_LEAD, Fetch), FetchErr(key)] + rest;
            && IsRun(s, es) && StaysUsable(es, key, x)
            && FetchClaims(es, key) == 1 + FetchClaims(rest, key) && Failures(es, key) == 1 + Failures(rest, key)
  {
    var x := s.entries[key].creds.expiration;
    var first := Claimed(key, x - REFRESH_LEAD, Fetch);
    BusiestCons(Next(s, first), key, x, FetchErr(key), rest);
    BusiestCons(s, key, x, first, [FetchErr(key)] + rest);
    assert [first] + ([FetchErr(key)] + rest) == [first, FetchErr(key)] + rest;
  }

  lemma {:induction false} BusiestCons(s: State, key: string, expiration: int, e: Event, rest: seq<Event>)
    ensures IsRun(s, [e] + rest) <==> Enabled(s, e) && IsRun(Next(s, e), rest)
    ensures FetchClaims([e] + rest, key)
         == (if e.Claimed? && e.key == key && e.action.Fetch? then 1 else 0) + FetchClaims(rest, key)
    ensures Failures([e] + rest, key) == (if e == FetchErr(key) then 1 else 0) + Failures(rest, key)
    ensures StaysUsable(rest, key, expiration) && !Stores(e, key)
            && (e.Claimed? && e.key == key ==> expiration > e.now + MIN_SERVE)
            ==> StaysUsable([e] + rest, key, expiration)
  {
    assert ([e] + rest)[1..] == rest;
  }

  function Busiest(key: string, expiration: int, failures: nat): (es: seq<Event>)
    ensures |es| >= 2
  {
    var first := Claimed(key, expiration - REFRESH_LEAD, Fetch);
    if failures == 0 then [first, Claimed(key, expiration - CLAIM_TIMEOUT, Fetch)]
    else [first, FetchErr(key)] + Busiest(key, expiration, failures - 1)
  }

  // ---- Spacing of claims, and how long a vanished caller is in the way.

  ghost predicate NoRelease(es: seq<Event>, key: string) {
    forall i :: 0 <= i < |es| ==> !Stores(es[i], key) && es[i] != FetchErr(key)
  }

  /** While nothing is released, the claim on a key only moves forward. */
  lemma {:induction false} ClaimMovesForward(s: State, es: seq<Event>, key: string, at: int)
    requires IsRun(s, es) && NoRelease(es, key) && key in s.entries && at <= s.clock
    requires s.entries[key].renewingSince.Some? && s.entries[key].renewingSince.value >= at
    ensures key in EndOf(s, es).entries && EndOf(s, es).entries[key].creds == s.entries[key].creds
    ensures EndOf(s, es).entries[key].renewingSince.Some? && EndOf(s, es).entries[key].renewingSince.value >= at
    ensures EndOf(s, es).clock >= s.clock
    decreases |es|
  {
    if es != [] {
      assert forall i :: 0 <= i < |es[1..]| ==> es[1..][i] == es[i + 1];
      ClaimMovesForward(Next(s, es[0]), es[1..], key, at);
    }
  }

  /** Two callers told to renew the same usable credential with no release in between are 30 s apart, inside its last 60 s. */
  lemma {:induction false} RenewalsAreSpaced(s: State, mid: seq<Event>, key: string, t1: int, t2: int)
    requires key in s.entries && Enabled(s, Claimed(key, t1, Fetch))
    requires var s1 := Next(s, Claimed(key, t1, Fetch));
             IsRun(s1, mid) && NoRelease(mid, key) && Enabled(EndOf(s1, mid), Claimed(key, t2, Fetch))
    requires s.entries[key].creds.expiration > t2 + MIN_SERVE
    ensures t1 + 30 * SECOND <= t2
    ensures s.entries[key].creds.expiration - 60 * SECOND <= t1
    ensures t2 - t1 < 55 * SECOND
  {
    ClaimMovesForward(Next(s, Claimed(key, t1, Fetch)), mid, key, t1);
  }

  /** No event of the run concerns the key but callers being served. */
  ghost predicate OnlyServed(es: seq<Event>, key: string) {
    forall i :: 0 <= i < |es| ==>
      es[i].key == key ==> es[i].Vanished? || (es[i].Claimed? && es[i].action.Serve?)
  }

  lemma OnlyServedTail(es: seq<Event>, key: string)
    requires es != [] && OnlyServed(es, key)
    ensures OnlyServed(es[1..], key)
    ensures es[0].key == key ==> es[0].Vanished? || (es[0].Claimed? && es[0].action.Serve?)
  {
    forall i | 0 <= i < |es[1..]|
      ensures es[1..][i] == es[i + 1]
    {
    }
  }

  lemma {:induction false} ServedStepLeavesEntry(s: State, e: Event, key: string)
    requires Enabled(s, e) && key in s.entries
    requires e.key == key ==> e.Vanished? || (e.Claimed? && e.action.Serve?)
    ensures key in Next(s, e).entries && Next(s, e).entries[key] == s.entries[key]
  {
    if e.key != key {
      StepIsLocal(s, e, key);
    }
  }

  lemma {:induction false} ServingLeavesEntry(s: State, es: seq<Event>, key: string)
    requires IsRun(s, es) && OnlyServed(es, key) && key in s.entries
    ensures key in EndOf(s, es).entries && EndOf(s, es).entries[key] == s.entries[key]
    decreases |es|
  {
    if es != [] {
      OnlyServedTail(es, key);
      ServedStepLeavesEntry(s, es[0], key);
      ServingLeavesEntry(Next(s, es[0]), es[1..], key);
    }
  }

  /** After a claimant vanishes, a caller due to renew is held back only within 30 s of that claim. */
  lemma {:induction false} VanishedClaimBlocksBriefly(s: State, es: seq<Event>, key: string, t: int, now: int)
    requires key in s.entries && Enabled(s, Claimed(key, t, Fetch))
    requires var s1 := Next(s, Claimed(key, t, Fetch));
             IsRun(s1, es) && OnlyServed(es, key) && EndOf(s1, es).clock <= now
    requires s.entries[key].creds.expiration <= now + 60 * SECOND
    ensures ClaimAction(EndOf(Next(s, Claimed(key, t, Fetch)), es).entries, key, now).Fetch?
            <==> now >= t + 30 * SECOND || s.entries[key].creds.expiration <= now + 5 * SECOND
  {
    ServingLeavesEntry(Next(s, Claimed(key, t, Fetch)), es, key);
  }
}
