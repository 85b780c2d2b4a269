/** `{claim}` templates in access scopes: a loop that rewrites the first closed placeholder until none is left. */
module ScopeTemplates {
  import opened Text
  import opened Types

  datatype Claim = StringClaim(text: string) | OtherClaim

  type Claims = map<string, Claim>

  predicate Resolves(claims: Claims, name: string) {
    name in claims && claims[name].StringClaim?
  }

  // ---- The loop, one rewriting at a time.

  datatype Progress = Finished(outcome: Result<string, ProxyError>) | Rewritten(text: string)

  /** The first closed placeholder: from the first `{` to the first `}` after it. */
  function FirstPlaceholder(t: string): (r: Option<(nat, nat)>)
    ensures r.Some? ==> r.value.0 < r.value.1 < |t|
  {
    FindChar(t, '{');
    match Find(t, "{")
    case None => None
    case Some(start) =>
      FindChar(t[start..], '}');
      match Find(t[start..], "}")
      case None => None
      case Some(e) =>
        Some((start, start + e))
  }

  lemma {:induction false} PlaceholderSpec(t: string)
    requires FirstPlaceholder(t).Some?
    ensures var (start, end) := FirstPlaceholder(t).value;
            && t[start] == '{' && t[end] == '}'
            && '{' !in t[..start] && '}' !in t[start + 1..end]
  {
    FindChar(t, '{');
    var start := Find(t, "{").value;
    FindChar(t[start..], '}');
    var e := Find(t[start..], "}").value;
    assert t[start..][..e][1..] == t[start + 1..start + e];
  }

  function Step(t: string, claims: Claims): Progress {
    match FirstPlaceholder(t)
    case None => Finished(Ok(t))
    case Some((start, end)) => RewriteAt(t, start, end, claims)
  }

  function RewriteAt(t: string, start: nat, end: nat, claims: Claims): Progress
    requires start < end < |t|
  {
    var name := t[start + 1..end];
    if !Resolves(claims, name) then Finished(Err(InvalidOidcToken(name)))
    else Rewritten(t[..start] + claims[name].text + t[end + 1..])
  }

  /** The loop on `t` ends after exactly `n` rewritings with this outcome. */
  ghost predicate EndsIn(t: string, claims: Claims, n: nat, outcome: Result<string, ProxyError>)
    decreases n
  {
    match Step(t, claims)
    case Finished(r) => n == 0 && outcome == r
    case Rewritten(t') => n > 0 && EndsIn(t', claims, n - 1, outcome)
  }

  ghost predicate Yields(t: string, claims: Claims, outcome: Result<string, ProxyError>) {
    exists n: nat :: EndsIn(t, claims, n, outcome)
  }

  ghost predicate Terminates(t: string, claims: Claims) {
    exists outcome :: Yields(t, claims, outcome)
  }

  // ---- What a template means: all placeholders replaced at once, left to right.

  datatype Piece = Literal(text: string) | Placeholder(name: string)

  function Parse(t: string): seq<Piece>
    decreases |t|
  {
    match FirstPlaceholder(t)
    case None => [Literal(t)]
    case Some((start, end)) =>
      [Literal(t[..start]), Placeholder(t[start + 1..end])] + Parse(t[end + 1..])
  }

  function Render(pieces: seq<Piece>): string {
    if pieces == [] then ""
    else (if pieces[0].Literal? then pieces[0].text else "{" + pieces[0].name + "}") + Render(pieces[1..])
  }

  /** The first placeholder without a string claim. */
  function FirstUnresolved(pieces: seq<Piece>, claims: Claims): Option<string> {
    if pieces == [] then None
    else if pieces[0].Placeholder? && !Resolves(claims, pieces[0].name) then Some(pieces[0].name)
    else FirstUnresolved(pieces[1..], claims)
  }

  function Fill(pieces: seq<Piece>, claims: Claims): string {
    if pieces == [] then ""
    else (if pieces[0].Literal? then pieces[0].text
          else if Resolves(claims, pieces[0].name) then claims[pieces[0].name].text else "")
         + Fill(pieces[1..], claims)
  }

  function Simultaneous(t: string, claims: Claims): Result<string, ProxyError> {
    match FirstUnresolved(Parse(t), claims)
    case Some(name) => Err(InvalidOidcToken(name))
    case None => Ok(Fill(Parse(t), claims))
  }

  // ---- The method.

  /** The body of the loop: rewrite the first closed placeholder, or stop. */
  method RewriteFirst(text: string, claims: Claims) returns (p: Progress)
    ensures p == Step(text, claims)
  {
    match FirstPlaceholder(text) {
      case None => p := Finished(Ok(text));
      case Some((start, end)) =>
        var key := text[start + 1..end];
        if !Resolves(claims, key) {
          return Finished(Err(InvalidOidcToken(key)));
        }
        p := Rewritten(text[..start] + claims[key].text + text[end + 1..]);
    }
  }

  /**
    The loop, watched for a number of rounds: its outcome if it ends within them. Without
    braces in claims as many rounds as the template has characters, and one, are enough.
   */
  method ResolveTemplate(template: string, claims: Claims, rounds: nat) returns (r: Option<Result<string, ProxyError>>)
    ensures r.Some? ==> exists n: nat :: n < rounds && EndsIn(template, claims, n, r.value)
    ensures r.None? ==> forall n: nat, outcome :: EndsIn(template, claims, n, outcome) ==> n >= rounds
    ensures r.Some? ==> Yields(template, claims, r.value)
    ensures r.Some? && r.value.Ok? ==> Step(r.value.value, claims) == Finished(r.value)
    ensures r.Some? && NoBracesInClaims(claims) ==> r.value == Simultaneous(template, claims)
    ensures NoPlaceholderInClaims(claims) && rounds > |template| ==> r.Some?
  {
    var result := template;
    for i := 0 to rounds
      invariant After(template, claims, i) == Some(result)
    {
      var p := RewriteFirst(result, claims);
      match p {
        case Finished(done) =>
          AfterEnds(template, claims, i, done);
          OutcomeMeans(template, claims, i, done);
          return Some(done);
        case Rewritten(text) =>
          AfterNext(template, claims, i);
          result := text;
      }
    }
    AfterRunsOn(template, claims, rounds);
    return None;
  }

  /** The text after so many rewritings, if there are as many. */
  function After(t: string, claims: Claims, i: nat): Option<string>
    decreases i
  {
    if i == 0 then Some(t)
    else
      match Step(t, claims)
      case Finished(_) => None
      case Rewritten(t') => After(t', claims, i - 1)
  }

  lemma {:induction false} AfterNext(t: string, claims: Claims, i: nat)
    requires After(t, claims, i).Some? && Step(After(t, claims, i).value, claims).Rewritten?
    ensures After(t, claims, i + 1) == Some(Step(After(t, claims, i).value, claims).text)
    decreases i
  {
    if i > 0 {
      AfterNext(Step(t, claims).text, claims, i - 1);
    }
  }

  lemma {:induction false} AfterEnds(t: string, claims: Claims, i: nat, outcome: Result<string, ProxyError>)
    requires After(t, claims, i).Some? && Step(After(t, claims, i).value, claims) == Finished(outcome)
    ensures EndsIn(t, claims, i, outcome)
    decreases i
  {
    if i > 0 {
      AfterEnds(Step(t, claims).text, claims, i - 1, outcome);
    }
  }

  lemma {:induction false} NoEarlierEnd(t: string, claims: Claims, i: nat, n: nat, outcome: Result<string, ProxyError>)
    requires After(t, claims, i).Some? && EndsIn(t, claims, n, outcome)
    ensures n >= i
    decreases i
  {
    if i > 0 {
      NoEarlierEnd(Step(t, claims).text, claims, i - 1, n - 1, outcome);
    }
  }

  /** A run still going after so many rewritings ends in no fewer; it is none that settles in time. */
  lemma {:induction false} AfterRunsOn(t: string, claims: Claims, rounds: nat)
    requires After(t, claims, rounds).Some?
    ensures forall n: nat, outcome :: EndsIn(t, claims, n, outcome) ==> n >= rounds
    ensures NoPlaceholderInClaims(claims) ==> rounds <= |t|
  {
    forall n: nat, outcome | EndsIn(t, claims, n, outcome)
      ensures n >= rounds
    {
      NoEarlierEnd(t, claims, rounds, n, outcome);
    }
    SettlesInTime(t, claims);
  }

  // ---- The loop has one outcome, and a successful one holds no closed placeholder.

  lemma {:induction false} EndsInUnique(t: string, claims: Claims, n1: nat, r1: Result<string, ProxyError>,
                                        n2: nat, r2: Result<string, ProxyError>)
    requires EndsIn(t, claims, n1, r1) && EndsIn(t, claims, n2, r2)
    ensures n1 == n2 && r1 == r2
    decreases n1
  {
    if Step(t, claims).Rewritten? {
      EndsInUnique(Step(t, claims).text, claims, n1 - 1, r1, n2 - 1, r2);
    }
  }

  lemma {:induction false} YieldsUnique(t: string, claims: Claims, r1: Result<string, ProxyError>, r2: Result<string, ProxyError>)
    requires Yields(t, claims, r1) && Yields(t, claims, r2)
    ensures r1 == r2
  {
    var n1: nat :| EndsIn(t, claims, n1, r1);
    var n2: nat :| EndsIn(t, claims, n2, r2);
    EndsInUnique(t, claims, n1, r1, n2, r2);
  }

  lemma {:induction false} YieldsSettles(t: string, claims: Claims, n: nat, outcome: Result<string, ProxyError>)
    requires EndsIn(t, claims, n, outcome)
    ensures outcome.Ok? ==> Step(outcome.value, claims) == Finished(outcome)
    decreases n
  {
    if Step(t, claims).Rewritten? {
      YieldsSettles(Step(t, claims).text, claims, n - 1, outcome);
    }
  }

  /** What is known of the outcome of a run. */
  lemma {:induction false} OutcomeMeans(t: string, claims: Claims, n: nat, outcome: Result<string, ProxyError>)
    requires EndsIn(t, claims, n, outcome)
    ensures Yields(t, claims, outcome)
    ensures outcome.Ok? ==> Step(outcome.value, claims) == Finished(outcome)
    ensures NoBracesInClaims(claims) ==> outcome == Simultaneous(t, claims)
  {
    YieldsSettles(t, claims, n, outcome);
    if NoBracesInClaims(claims) {
      YieldsSimultaneous(t, claims);
      YieldsUnique(t, claims, outcome, Simultaneous(t, claims));
    }
  }

  // ---- Parsing is faithful, and errors name the first unresolved placeholder.

  lemma {:induction false} RenderParse(t: string)
    ensures Render(Parse(t)) == t
    decreases |t|
  {
    var r := FirstPlaceholder(t);
    if r.None? {
      assert Parse(t) == [Literal(t)] && Render([]) == "";
    } else {
      var (start, end) := r.value;
      PlaceholderSpec(t);
      RenderParse(t[end + 1..]);
      RenderTwo(t[..start], t[start + 1..end], Parse(t[end + 1..]));
      CutAt(t, start, end);
    }
  }

  lemma {:induction false} CutAt(t: string, start: nat, end: nat)
    requires start < end < |t| && t[start] == '{' && t[end] == '}'
    ensures t[..start] + (("{" + t[start + 1..end] + "}") + t[end + 1..]) == t
  {
    var mid := "{" + t[start + 1..end] + "}";
    assert mid == t[start..end + 1];
    assert mid + t[end + 1..] == t[start..];
  }

  lemma {:induction false} LiteralOnly(t: string, claims: Claims)
    ensures FirstUnresolved([Literal(t)], claims) == None && Fill([Literal(t)], claims) == t
  {
    assert FirstUnresolved([], claims) == None && Fill([], claims) == "";
  }

  lemma {:induction false} RenderTwo(lit: string, name: string, rest: seq<Piece>)
    ensures Render([Literal(lit), Placeholder(name)] + rest) == lit + (("{" + name + "}") + Render(rest))
  {
    var pieces := [Literal(lit), Placeholder(name)] + rest;
    assert pieces[1..] == [Placeholder(name)] + rest && pieces[1..][1..] == rest;
  }

  lemma {:induction false} FillTwo(lit: string, name: string, rest: seq<Piece>, claims: Claims)
    ensures var pieces := [Literal(lit), Placeholder(name)] + rest;
            && (Resolves(claims, name) ==>
                && FirstUnresolved(pieces, claims) == FirstUnresolved(rest, claims)
                && Fill(pieces, claims) == lit + (claims[name].text + Fill(rest, claims)))
            && (!Resolves(claims, name) ==> FirstUnresolved(pieces, claims) == Some(name))
  {
    var pieces := [Literal(lit), Placeholder(name)] + rest;
    assert pieces[1..] == [Placeholder(name)] + rest && pieces[1..][1..] == rest;
  }

  lemma {:induction false} UnresolvedExactly(pieces: seq<Piece>, claims: Claims)
    ensures FirstUnresolved(pieces, claims).Some?
            <==> exists p :: p in pieces && p.Placeholder? && !Resolves(claims, p.name)
  {
    if pieces != [] {
      UnresolvedExactly(pieces[1..], claims);
      assert forall p :: p in pieces <==> p == pieces[0] || p in pieces[1..];
    }
  }

  /** The template is refused exactly when one of its closed placeholders has no string claim. */
  lemma {:induction false} RefusedExactly(t: string, claims: Claims)
    requires NoBracesInClaims(claims)
    ensures exists r :: Yields(t, claims, r)
                        && (r.Err? <==> exists p :: p in Parse(t) && p.Placeholder? && !Resolves(claims, p.name))
  {
    YieldsSimultaneous(t, claims);
    UnresolvedExactly(Parse(t), claims);
  }

  // ---- When the loop agrees with the meaning.

  /** No string claim that a placeholder can name holds an opening brace. */
  ghost predicate NoBracesInClaims(claims: Claims) {
    forall k :: k in claims && claims[k].StringClaim? && '}' !in k ==> '{' !in claims[k].text
  }

  lemma {:induction false} FindPastHead(head: string, t: string, c: char)
    requires c !in head
    ensures Find(head + t, [c]) == match Find(t, [c]) case None => None case Some(i) => Some(|head| + i)
  {
    if head == "" {
      assert head + t == t;
    } else {
      assert (head + t)[1..] == head[1..] + t;
      assert (head + t)[0] == head[0];
      FindPastHead(head[1..], t, c);
    }
  }

  /** One step on a text whose head is already settled. */
  lemma {:induction false} StepPastHead(head: string, t: string, claims: Claims)
    requires '{' !in head
    ensures PastHead(head, t, Step(t, claims), Step(head + t, claims))
  {
    PlaceholderPastHead(head, t);
    var r := FirstPlaceholder(t);
    if r.Some? {
      RewritePastHead(head, t, r.value.0, r.value.1, claims);
    }
  }

  ghost predicate PastHead(head: string, t: string, here: Progress, there: Progress) {
    match here
    case Finished(Ok(x)) => x == t && there == Finished(Ok(head + t))
    case Finished(Err(e)) => there == here
    case Rewritten(t') => there == Rewritten(head + t')
  }

  lemma RewritePastHead(head: string, t: string, start: nat, end: nat, claims: Claims)
    requires start < end < |t|
    ensures PastHead(head, t, RewriteAt(t, start, end, claims), RewriteAt(head + t, |head| + start, |head| + end, claims))
  {
    var name := t[start + 1..end];
    if Resolves(claims, name) {
      SplicePastHead(head, t, start, end, claims[name].text);
    } else {
      SplicePastHead(head, t, start, end, "");
    }
  }

  lemma SplicePastHead(head: string, t: string, start: nat, end: nat, v: string)
    requires start < end < |t|
    ensures (head + t)[|head| + start + 1..|head| + end] == t[start + 1..end]
    ensures (head + t)[..|head| + start] + v + (head + t)[|head| + end + 1..] == head + (t[..start] + v + t[end + 1..])
  {
    assert (head + t)[..|head| + start] == head + t[..start];
    assert (head + t)[|head| + end + 1..] == t[end + 1..];
  }

  lemma {:induction false} PlaceholderPastHead(head: string, t: string)
    requires '{' !in head
    ensures FirstPlaceholder(head + t)
         == match FirstPlaceholder(t) case None => None case Some((i, j)) => Some((|head| + i, |head| + j))
  {
    FindPastHead(head, t, '{');
    var start := Find(t, "{");
    if start.Some? {
      assert (head + t)[|head| + start.value..] == t[start.value..];
    }
  }

  function PrefixOk(head: string, r: Result<string, ProxyError>): Result<string, ProxyError> {
    match r
    case Ok(x) => Ok(head + x)
    case Err(e) => Err(e)
  }

  lemma {:induction false} YieldsPastHead(head: string, t: string, claims: Claims)
    requires '{' !in head && NoBracesInClaims(claims)
    ensures Yields(head + t, claims, PrefixOk(head, Simultaneous(t, claims)))
    decreases |t|
  {
    if Step(t, claims).Rewritten? {
      var (start, end) := FirstPlaceholder(t).value;
      var lit, v, rest := t[..start], claims[t[start + 1..end]].text, t[end + 1..];
      PlaceholderSpec(t);
      YieldsPastHead(head + (lit + v), rest, claims);
      YieldsPeel(head, lit + v, t, rest, claims);
    } else {
      YieldsAtOnce(head, t, claims);
    }
  }

  lemma {:induction false} YieldsAtOnce(head: string, t: string, claims: Claims)
    requires '{' !in head && Step(t, claims).Finished?
    ensures Yields(head + t, claims, PrefixOk(head, Simultaneous(t, claims)))
  {
    StepPastHead(head, t, claims);
    if FirstPlaceholder(t).None? {
      LiteralOnly(t, claims);
    } else {
      SimultaneousPeel(t, claims);
    }
    assert EndsIn(head + t, claims, 0, PrefixOk(head, Simultaneous(t, claims)));
  }

  lemma {:induction false} YieldsPeel(head: string, settled: string, t: string, rest: string, claims: Claims)
    requires '{' !in head && Step(t, claims).Rewritten?
    requires var (start, end) := FirstPlaceholder(t).value;
             settled == t[..start] + claims[t[start + 1..end]].text && rest == t[end + 1..]
    requires Yields(head + settled + rest, claims, PrefixOk(head + settled, Simultaneous(rest, claims)))
    ensures Yields(head + t, claims, PrefixOk(head, Simultaneous(t, claims)))
  {
    StepPastHead(head, t, claims);
    SimultaneousPeel(t, claims);
    PrefixOkAssoc(head, settled, Simultaneous(rest, claims));
    assert head + (settled + rest) == head + settled + rest;
    YieldsAfterStep(head + t, head + settled + rest, claims, PrefixOk(head + settled, Simultaneous(rest, claims)));
  }

  lemma {:induction false} YieldsAfterStep(t: string, t': string, claims: Claims, r: Result<string, ProxyError>)
    requires Step(t, claims) == Rewritten(t') && Yields(t', claims, r)
    ensures Yields(t, claims, r)
  {
    var n: nat :| EndsIn(t', claims, n, r);
    assert EndsIn(t, claims, n + 1, r);
  }

  lemma PrefixOkAssoc(a: string, b: string, r: Result<string, ProxyError>)
    ensures PrefixOk(a, PrefixOk(b, r)) == PrefixOk(a + b, r)
  {
    if r.Ok? {
      assert a + (b + r.value) == (a + b) + r.value;
    }
  }

  /** Substituting a template is substituting its first placeholder and then the rest. */
  lemma {:induction false} SimultaneousPeel(t: string, claims: Claims)
    requires FirstPlaceholder(t).Some?
    ensures var (start, end) := FirstPlaceholder(t).value;
            var name := t[start + 1..end];
            Simultaneous(t, claims)
            == if !Resolves(claims, name) then Err(InvalidOidcToken(name))
               else PrefixOk(t[..start] + claims[name].text, Simultaneous(t[end + 1..], claims))
  {
    var (start, end) := FirstPlaceholder(t).value;
    var lit, name, rest := t[..start], t[start + 1..end], t[end + 1..];
    FillTwo(lit, name, Parse(rest), claims);
    if Resolves(claims, name) {
      assert lit + (claims[name].text + Fill(Parse(rest), claims)) == lit + claims[name].text + Fill(Parse(rest), claims);
    }
  }

  /** The loop ends and computes the simultaneous substitution. */
  lemma {:induction false} YieldsSimultaneous(t: string, claims: Claims)
    requires NoBracesInClaims(claims)
    ensures Yields(t, claims, Simultaneous(t, claims))
  {
    YieldsPastHead("", t, claims);
    assert "" + t == t;
    if Simultaneous(t, claims).Ok? {
      assert "" + Simultaneous(t, claims).value == Simultaneous(t, claims).value;
    }
  }

  /** With a brace in the claim `k`, the template `{k}}` is not substituted simultaneously. */
  lemma {:induction false} BraceIsReexpanded(k: string, claims: Claims)
    requires Resolves(claims, k) && '}' !in k && '{' in claims[k].text
    ensures !Yields("{" + k + "}}", claims, Simultaneous("{" + k + "}}", claims))
  {
    var t := "{" + k + "}}";
    var v := claims[k].text;
    ParseOne(k, "}", claims);
    var x := v + "}";
    assert t == "{" + k + "}" + "}";
    assert Simultaneous(t, claims) == Ok(x);
    ClosedPlaceholder(v, claims);
    if Yields(t, claims, Ok(x)) {
      var n: nat :| EndsIn(t, claims, n, Ok(x));
      YieldsSettles(t, claims, n, Ok(x));
    }
  }

  lemma {:induction false} ClosedPlaceholder(v: string, claims: Claims)
    requires '{' in v
    ensures Step(v + "}", claims) != Finished(Ok(v + "}"))
  {
    var x := v + "}";
    FindChar(x, '{');
    var s := Find(x, "{").value;
    assert x[|x| - 1] == '}' && s < |x| - 1;
    FindChar(x[s..], '}');
    assert x[s..][|x| - 1 - s] == '}';
  }

  lemma {:induction false} FirstOfOne(k: string, rest: string, t: string)
    requires '}' !in k && t == "{" + k + "}" + rest
    ensures FirstPlaceholder(t) == Some((0, |k| + 1))
    ensures t[1..|k| + 1] == k && t[..0] == "" && t[|k| + 2..] == rest
  {
    assert Find(t, "{") == Some(0);
    assert t[0..] == ("{" + k) + ("}" + rest);
    FindPastHead("{" + k, "}" + rest, '}');
    assert Find("}" + rest, "}") == Some(0);
  }

  lemma {:induction false} ParseOne(k: string, rest: string, claims: Claims)
    requires '}' !in k && Resolves(claims, k) && '{' !in rest
    ensures var t := "{" + k + "}" + rest;
            && Simultaneous(t, claims) == Ok(claims[k].text + rest)
            && Step(t, claims) == Rewritten(claims[k].text + rest)
  {
    var t := "{" + k + "}" + rest;
    FirstOfOne(k, rest, t);
    FindChar(rest, '{');
    FillTwo("", k, [Literal(rest)], claims);
    assert Parse(t) == [Literal(""), Placeholder(k)] + [Literal(rest)];
    LiteralOnly(rest, claims);
    assert "" + claims[k].text + rest == claims[k].text + rest;
    assert "" + (claims[k].text + rest) == claims[k].text + rest;
  }

  /** Every template is substituted simultaneously exactly when no claim smuggles in a brace. */
  lemma {:induction false} SimultaneousExactly(claims: Claims)
    ensures (forall t :: Yields(t, claims, Simultaneous(t, claims))) <==> NoBracesInClaims(claims)
  {
    if NoBracesInClaims(claims) {
      forall t
        ensures Yields(t, claims, Simultaneous(t, claims))
      {
        YieldsSimultaneous(t, claims);
      }
    } else {
      var k :| k in claims && claims[k].StringClaim? && '}' !in k && '{' in claims[k].text;
      BraceIsReexpanded(k, claims);
    }
  }

  /** A claim that names itself is expanded for ever. */
  lemma {:induction false} SelfReferenceDiverges(k: string, claims: Claims, n: nat, outcome: Result<string, ProxyError>)
    requires '}' !in k && Resolves(claims, k) && claims[k].text == "{" + k + "}"
    ensures !EndsIn("{" + k + "}", claims, n, outcome)
    decreases n
  {
    var t := "{" + k + "}";
    ParseOne(k, "", claims);
    assert t + "" == t && claims[k].text + "" == t;
    if n > 0 {
      SelfReferenceDiverges(k, claims, n - 1, outcome);
    }
  }

  // ---- When the loop ends.

  /** No string claim that a placeholder can name holds a closed placeholder. */
  ghost predicate NoPlaceholderInClaims(claims: Claims) {
    forall k :: Resolves(claims, k) && '}' !in k ==> FirstPlaceholder(claims[k].text).None?
  }

  /** Every string claim that a placeholder can name ends as a template. */
  ghost predicate ClaimsTerminate(claims: Claims) {
    forall k :: Resolves(claims, k) && '}' !in k ==> Terminates(claims[k].text, claims)
  }

  lemma {:induction false} FindInHead(head: string, t: string, c: char)
    requires c in head
    ensures Find(head + t, [c]) == Find(head, [c])
  {
    assert (head + t)[0] == head[0] && (head + t)[1..] == head[1..] + t;
    assert [c] <= head <==> head[0] == c;
    assert [c] <= head + t <==> head[0] == c;
    if head[0] != c {
      FindInHead(head[1..], t, c);
    }
  }

  /** A closed placeholder stays the first one whatever follows; without one, the first ends in what follows. */
  lemma {:induction false} PlaceholderBeforeRest(v: string, rest: string)
    ensures FirstPlaceholder(v).Some? ==> FirstPlaceholder(v + rest) == FirstPlaceholder(v)
    ensures FirstPlaceholder(v).None? && FirstPlaceholder(v + rest).Some? ==> FirstPlaceholder(v + rest).value.1 >= |v|
  {
    FindChar(v, '{');
    if '{' in v {
      FindInHead(v, rest, '{');
      var s := Find(v, "{").value;
      var tail := v[s..];
      assert (v + rest)[s..] == tail + rest;
      FindChar(tail, '}');
      if '}' in tail {
        FindInHead(tail, rest, '}');
      } else {
        FindPastHead(tail, rest, '}');
      }
    } else {
      FindPastHead(v, rest, '{');
    }
  }

  /** The step that closes a placeholder with what follows a settled text. */
  lemma {:induction false} ClosingStep(v: string, rest: string, claims: Claims)
    returns (head: string, k: string, rest': string)
    requires FirstPlaceholder(v).None? && Step(v + rest, claims).Rewritten?
    ensures Resolves(claims, k) && '}' !in k && '{' !in head && |rest'| < |rest|
    ensures Step(v + rest, claims) == Rewritten((head + claims[k].text) + rest')
  {
    PlaceholderBeforeRest(v, rest);
    PlaceholderSpec(v + rest);
    var (start, end) := FirstPlaceholder(v + rest).value;
    head, k, rest' := (v + rest)[..start], (v + rest)[start + 1..end], (v + rest)[end + 1..];
  }

  /** After a settled text, the loop ends within as many rewritings as characters follow. */
  lemma {:induction false} SettledEnds(v: string, rest: string, claims: Claims) returns (n: nat, outcome: Result<string, ProxyError>)
    requires FirstPlaceholder(v).None? && NoPlaceholderInClaims(claims)
    ensures n <= |rest| && EndsIn(v + rest, claims, n, outcome)
    decreases |rest|
  {
    match Step(v + rest, claims)
    case Finished(done) =>
      n, outcome := 0, done;
    case Rewritten(next) =>
      var head, k, rest' := ClosingStep(v, rest, claims);
      PlaceholderPastHead(head, claims[k].text);
      n, outcome := SettledEnds(head + claims[k].text, rest', claims);
      n := n + 1;
  }

  /** If no claim holds a closed placeholder, every template ends, within as many rewritings as it has characters. */
  lemma {:induction false} SettlesInTime(t: string, claims: Claims)
    ensures NoBracesInClaims(claims) ==> NoPlaceholderInClaims(claims)
    ensures NoPlaceholderInClaims(claims) ==> exists n: nat, outcome :: n <= |t| && EndsIn(t, claims, n, outcome)
  {
    forall k | Resolves(claims, k) && '{' !in claims[k].text
      ensures FirstPlaceholder(claims[k].text).None?
    {
      FindChar(claims[k].text, '{');
    }
    if NoPlaceholderInClaims(claims) {
      FindChar("", '{');
      var n, outcome := SettledEnds("", t, claims);
      assert "" + t == t;
    }
  }

  lemma {:induction false} EndsPastHead(head: string, v: string, claims: Claims, n: nat, outcome: Result<string, ProxyError>)
    requires '{' !in head && EndsIn(v, claims, n, outcome)
    ensures EndsIn(head + v, claims, n, PrefixOk(head, outcome))
    decreases n
  {
    StepPastHead(head, v, claims);
    if Step(v, claims).Rewritten? {
      EndsPastHead(head, Step(v, claims).text, claims, n - 1, outcome);
    }
  }

  /** What the loop does to a text, it does to it before anything else. */
  lemma {:induction false} StepBeforeRest(v: string, rest: string, claims: Claims)
    requires FirstPlaceholder(v).Some?
    ensures match Step(v, claims)
            case Finished(r) => Step(v + rest, claims) == Finished(r)
            case Rewritten(v') => Step(v + rest, claims) == Rewritten(v' + rest)
  {
    PlaceholderBeforeRest(v, rest);
    var (start, end) := FirstPlaceholder(v).value;
    assert (v + rest)[..start] == v[..start] && (v + rest)[start + 1..end] == v[start + 1..end];
    assert (v + rest)[end + 1..] == v[end + 1..] + rest;
    SpliceAssoc(v[..start], v[end + 1..], rest, v[start + 1..end], claims);
  }

  lemma SpliceAssoc(head: string, tail: string, rest: string, k: string, claims: Claims)
    ensures Resolves(claims, k) ==> head + claims[k].text + (tail + rest) == (head + claims[k].text + tail) + rest
  {
  }

  /** If every claim ends as a template, a text that ends, ends before any other. */
  lemma {:induction false} EndsBeforeRest(v: string, n: nat, outcome: Result<string, ProxyError>, rest: string, claims: Claims)
    requires ClaimsTerminate(claims) && EndsIn(v, claims, n, outcome)
    ensures Terminates(v + rest, claims)
    decreases |rest|, n
  {
    if FirstPlaceholder(v).Some? {
      StepBeforeRest(v, rest, claims);
      match Step(v, claims)
      case Finished(r) => EndsAtOnce(v + rest, claims);
      case Rewritten(v') =>
        EndsBeforeRest(v', n - 1, outcome, rest, claims);
        TerminatesAfterStep(v + rest, claims);
    } else if Step(v + rest, claims).Rewritten? {
      var head, k, rest' := ClosingStep(v, rest, claims);
      var o :| Yields(claims[k].text, claims, o);
      var m: nat :| EndsIn(claims[k].text, claims, m, o);
      EndsPastHead(head, claims[k].text, claims, m, o);
      EndsBeforeRest(head + claims[k].text, m, PrefixOk(head, o), rest', claims);
      TerminatesAfterStep(v + rest, claims);
    } else {
      EndsAtOnce(v + rest, claims);
    }
  }

  lemma {:induction false} EndsAtOnce(t: string, claims: Claims)
    requires Step(t, claims).Finished?
    ensures Terminates(t, claims)
  {
    assert EndsIn(t, claims, 0, Step(t, claims).outcome);
    assert Yields(t, claims, Step(t, claims).outcome);
  }

  lemma {:induction false} TerminatesAfterStep(t: string, claims: Claims)
    requires Step(t, claims).Rewritten? && Terminates(Step(t, claims).text, claims)
    ensures Terminates(t, claims)
  {
    var outcome :| Yields(Step(t, claims).text, claims, outcome);
    YieldsAfterStep(t, Step(t, claims).text, claims, outcome);
  }

  /** Every template ends exactly when every nameable string claim, taken as a template, does. */
  lemma {:induction false} TerminationExactly(claims: Claims)
    ensures (forall t :: Terminates(t, claims)) <==> ClaimsTerminate(claims)
    ensures NoPlaceholderInClaims(claims) ==> ClaimsTerminate(claims)
  {
    if ClaimsTerminate(claims) {
      forall t
        ensures Terminates(t, claims)
      {
        FindChar("", '{');
        assert EndsIn("", claims, 0, Ok(""));
        EndsBeforeRest("", 0, Ok(""), t, claims);
        assert "" + t == t;
      }
    }
    if NoPlaceholderInClaims(claims) {
      forall k | Resolves(claims, k) && '}' !in k
        ensures Terminates(claims[k].text, claims)
      {
        EndsAtOnce(claims[k].text, claims);
      }
    }
  }
}
