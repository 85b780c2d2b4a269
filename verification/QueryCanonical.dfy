/** The canonical query string of Signature Version 4: parameters as `name=value`, sorted as whole strings. */
module QueryCanonical {
  import opened Text
  import opened Ordering
  import Query

  function CanonicalPart(p: string): string {
    if '=' in p then p else p + "="
  }

  function PartsOf(segs: seq<string>): seq<string> {
    if segs == [] then []
    else (if segs[0] == "" then [] else [CanonicalPart(segs[0])]) + PartsOf(segs[1..])
  }

  /** The parameters of a query: its non-empty segments, bare flags given a `=`. */
  function CanonicalParts(query: string): seq<string> {
    PartsOf(Split(query, "&"))
  }

  function Canonical(query: string): string {
    Join(Sort(CanonicalParts(query)), "&")
  }

  method CanonicalizeQueryString(query: string) returns (r: string)
    ensures r == Canonical(query)
  {
    if query == "" {
      EmptyQuery();
      return "";
    }
    var segs := Split(query, "&");
    var parts: seq<string> := [];
    for i := 0 to |segs|
      invariant parts + PartsOf(segs[i..]) == CanonicalParts(query)
    {
      PartsFrom(segs, i);
      if segs[i] != "" {
        parts := parts + [CanonicalPart(segs[i])];
      }
    }
    assert parts == CanonicalParts(query);
    return Join(Sort(parts), "&");
  }

  lemma {:induction false} PartsFrom(segs: seq<string>, i: nat)
    requires i < |segs|
    ensures PartsOf(segs[i..]) == (if segs[i] == "" then [] else [CanonicalPart(segs[i])]) + PartsOf(segs[i + 1..])
  {
    assert segs[i..][0] == segs[i] && segs[i..][1..] == segs[i + 1..];
  }

  lemma EmptyQuery()
    ensures CanonicalParts("") == [] && Canonical("") == ""
  {
    SplitSingle("", "&");
    assert [""][1..] == [];
  }

  lemma {:induction false} PartsShape(segs: seq<string>)
    requires forall i :: 0 <= i < |segs| ==> '&' !in segs[i]
    ensures forall p :: p in PartsOf(segs) ==> p != "" && '=' in p && '&' !in p && FreeOf(p, "&")
  {
    if segs != [] {
      PartsShape(segs[1..]);
      FreeOfChar(CanonicalPart(segs[0]), '&');
    }
  }

  lemma {:induction false} CanonicalShape(query: string)
    ensures forall p :: p in CanonicalParts(query) ==> p != "" && '=' in p && '&' !in p && FreeOf(p, "&")
    ensures forall p :: p in Sort(CanonicalParts(query)) ==> p != "" && '=' in p && '&' !in p && FreeOf(p, "&")
  {
    SplitCharParts(query, '&');
    PartsShape(Split(query, "&"));
    forall p | p in Sort(CanonicalParts(query))
      ensures p in CanonicalParts(query)
    {
      assert p in multiset(Sort(CanonicalParts(query)));
    }
  }

  lemma {:induction false} PartsOfParts(segs: seq<string>)
    requires forall i :: 0 <= i < |segs| ==> segs[i] != "" && '=' in segs[i]
    ensures PartsOf(segs) == segs
  {
    if segs != [] {
      PartsOfParts(segs[1..]);
      assert segs == [segs[0]] + segs[1..];
    }
  }

  /** Reading the canonical query back gives the sorted parameters. */
  lemma {:induction false} CanonicalReadsBack(query: string)
    ensures CanonicalParts(Canonical(query)) == Sort(CanonicalParts(query))
  {
    var sorted := Sort(CanonicalParts(query));
    CanonicalShape(query);
    if sorted == [] {
      EmptyQuery();
    } else {
      SplitJoin(sorted, "&");
      assert forall i :: 0 <= i < |sorted| ==> sorted[i] in sorted;
      PartsOfParts(sorted);
    }
  }

  /** Sorted, and each parameter kept as often as it was given. */
  lemma {:induction false} CanonicalKeepsParameters(query: string)
    ensures Sorted(CanonicalParts(Canonical(query)))
    ensures multiset(CanonicalParts(Canonical(query))) == multiset(CanonicalParts(query))
  {
    CanonicalReadsBack(query);
    SortSorts(CanonicalParts(query));
  }

  lemma {:induction false} CanonicalIdempotent(query: string)
    ensures Canonical(Canonical(query)) == Canonical(query)
  {
    CanonicalReadsBack(query);
    SortSorts(CanonicalParts(query));
    SortCanonical(Sort(CanonicalParts(query)), CanonicalParts(query));
  }

  /** Two queries have the same canonical form exactly when they carry the same parameters, in whatever order. */
  lemma {:induction false} CanonicalDecidesParameters(q1: string, q2: string)
    ensures Canonical(q1) == Canonical(q2) <==> multiset(CanonicalParts(q1)) == multiset(CanonicalParts(q2))
  {
    if multiset(CanonicalParts(q1)) == multiset(CanonicalParts(q2)) {
      SortCanonical(CanonicalParts(q1), CanonicalParts(q2));
    }
    CanonicalReadsBack(q1);
    CanonicalReadsBack(q2);
  }

  // ---- Against the order the standard asks for: by name, then by value.

  function NameOf(p: string): string {
    match SplitOnce(p, "=")
    case Some((n, _)) => n
    case None => p
  }

  function ValueOf(p: string): string {
    match SplitOnce(p, "=")
    case Some((_, v)) => v
    case None => ""
  }

  predicate PairLess(p: string, q: string) {
    Less(NameOf(p), NameOf(q)) || (NameOf(p) == NameOf(q) && Less(ValueOf(p), ValueOf(q)))
  }

  /** One name continues the other with a character below `=`. */
  predicate Conflict(n1: string, n2: string) {
    (n1 < n2 && n2[|n1|] < '=') || (n2 < n1 && n1[|n2|] < '=')
  }

  lemma {:induction false} NamedParts(p: string)
    requires '=' in p
    ensures p == NameOf(p) + "=" + ValueOf(p) && '=' !in NameOf(p)
  {
    FindChar(p, '=');
  }

  lemma {:induction false} OrderOfNames(n1: string, v1: string, n2: string, v2: string)
    requires '=' !in n1 && '=' !in n2
    ensures Less(n1 + "=" + v1, n2 + "=" + v2)
            <==> if n1 == n2 then Less(v1, v2)
                 else if Conflict(n1, n2) then Less(n2, n1) else Less(n1, n2)
    decreases |n1|
  {
    var a, b := n1 + "=" + v1, n2 + "=" + v2;
    if n1 == "" || n2 == "" {
      assert n1 == "" ==> a[0] == '=' && a[1..] == v1;
      assert n2 == "" ==> b[0] == '=' && b[1..] == v2;
      assert n1 != "" ==> a[0] == n1[0] && n1[0] in n1;
      assert n2 != "" ==> b[0] == n2[0] && n2[0] in n2;
    } else {
      assert a[0] == n1[0] && a[1..] == n1[1..] + "=" + v1;
      assert b[0] == n2[0] && b[1..] == n2[1..] + "=" + v2;
      assert n1 == [n1[0]] + n1[1..] && n2 == [n2[0]] + n2[1..];
      if n1[0] == n2[0] {
        OrderOfNames(n1[1..], v1, n2[1..], v2);
        ConflictTail(n1, n2);
      }
    }
  }

  lemma {:induction false} ConflictTail(n1: string, n2: string)
    requires n1 != "" && n2 != "" && n1[0] == n2[0]
    ensures Conflict(n1[1..], n2[1..]) <==> Conflict(n1, n2)
  {
    assert n1 == [n1[0]] + n1[1..] && n2 == [n2[0]] + n2[1..];
    PrefixTail(n1, n2);
    PrefixTail(n2, n1);
  }

  lemma {:induction false} PrefixTail(a: string, b: string)
    requires a != "" && b != "" && a[0] == b[0]
    ensures a[1..] < b[1..] <==> a < b
  {
    assert a == [a[0]] + a[1..] && b == [b[0]] + b[1..];
    if a < b {
      assert b[1..][..|a[1..]|] == b[..|a|][1..];
    }
    if a[1..] < b[1..] {
      assert b[..|a|] == [b[0]] + b[1..][..|a[1..]|];
    }
  }

  /** Comparing two parameters as strings is comparing name then value exactly when their names do not conflict. */
  lemma {:induction false} StringOrderIsPairOrderExactly(p: string, q: string)
    requires '=' in p && '=' in q
    ensures (Less(p, q) <==> PairLess(p, q)) <==> !Conflict(NameOf(p), NameOf(q))
  {
    NamedParts(p);
    NamedParts(q);
    OrderOfNames(NameOf(p), ValueOf(p), NameOf(q), ValueOf(q));
    LessTotal(NameOf(p), NameOf(q));
  }

  ghost predicate PairSorted(ps: seq<string>) {
    forall i, j :: 0 <= i < j < |ps| ==> ps[i] == ps[j] || PairLess(ps[i], ps[j])
  }

  ghost predicate NoConflicts(ps: seq<string>) {
    forall i, j :: 0 <= i < |ps| && 0 <= j < |ps| ==> !Conflict(NameOf(ps[i]), NameOf(ps[j]))
  }

  /** The canonical query is in the order of the standard exactly when no two of its names conflict. */
  lemma {:induction false} CanonicalOrderExactly(query: string)
    ensures PairSorted(Sort(CanonicalParts(query))) <==> NoConflicts(Sort(CanonicalParts(query)))
  {
    var ps := Sort(CanonicalParts(query));
    SortSorts(CanonicalParts(query));
    CanonicalShape(query);
    forall i, j | 0 <= i < j < |ps|
      ensures (ps[i] == ps[j] || PairLess(ps[i], ps[j])) <==> !Conflict(NameOf(ps[i]), NameOf(ps[j]))
    {
      assert ps[i] in ps && ps[j] in ps;
      StringOrderIsPairOrderExactly(ps[i], ps[j]);
      LessTotal(ps[i], ps[j]);
      assert LessEq(ps[i], ps[j]);
    }
    if PairSorted(ps) {
      forall i, j | 0 <= i < |ps| && 0 <= j < |ps|
        ensures !Conflict(NameOf(ps[i]), NameOf(ps[j]))
      {
        if j < i {
          assert !Conflict(NameOf(ps[j]), NameOf(ps[i]));
        }
      }
    }
  }

  // ---- What the canonical query says to a parser.

  lemma {:induction false} PartReadsAlike(p: string)
    requires p != ""
    ensures Query.SegmentPair(CanonicalPart(p)) == Query.SegmentPair(p) && CanonicalPart(p) != ""
  {
    if '=' !in p {
      FreeOfChar(p, '=');
      FindNoneOfFree(p, "=");
      SplitOnceAfterFree(p, "=", "");
      assert p + "=" + "" == p + "=";
      Query.FormDecodePlain("");
    }
  }

  lemma {:induction false} PartsReadAlike(segs: seq<string>)
    ensures Query.SegmentPairs(PartsOf(segs)) == Query.SegmentPairs(segs)
    ensures AllNamed(PartsOf(segs))
  {
    if segs != [] {
      PartsReadAlike(segs[1..]);
      if segs[0] != "" {
        PartReadsAlike(segs[0]);
        assert ([CanonicalPart(segs[0])] + PartsOf(segs[1..]))[1..] == PartsOf(segs[1..]);
      } else {
        assert [] + PartsOf(segs[1..]) == PartsOf(segs[1..]);
      }
    }
  }

  lemma {:induction false} ReadsCons(k: string, ks: seq<string>)
    requires k != ""
    ensures Query.SegmentPairs([k] + ks) == [Query.SegmentPair(k)] + Query.SegmentPairs(ks)
  {
    assert ([k] + ks)[1..] == ks;
  }

  ghost predicate AllNamed(ks: seq<string>) {
    forall i :: 0 <= i < |ks| ==> ks[i] != ""
  }

  lemma {:induction false} InsertReads(k: string, ks: seq<string>)
    requires k != "" && AllNamed(ks)
    ensures multiset(Query.SegmentPairs(InsertSorted(k, ks))) == multiset{Query.SegmentPair(k)} + multiset(Query.SegmentPairs(ks))
  {
    if ks == [] || !Less(ks[0], k) {
      ReadsCons(k, ks);
      assert ks == [] ==> [k] + ks == [k];
    } else {
      InsertReads(k, ks[1..]);
      ReadsCons(ks[0], InsertSorted(k, ks[1..]));
      ReadsCons(ks[0], ks[1..]);
      assert ks == [ks[0]] + ks[1..];
    }
  }

  lemma {:induction false} SortReads(ks: seq<string>)
    requires AllNamed(ks)
    ensures multiset(Query.SegmentPairs(Sort(ks))) == multiset(Query.SegmentPairs(ks)) && AllNamed(Sort(ks))
  {
    forall i | 0 <= i < |Sort(ks)|
      ensures Sort(ks)[i] != ""
    {
      assert Sort(ks)[i] in multiset(Sort(ks));
      assert Sort(ks)[i] in ks;
    }
    if ks != [] {
      SortReads(ks[1..]);
      InsertReads(ks[0], Sort(ks[1..]));
      ReadsCons(ks[0], ks[1..]);
      assert ks == [ks[0]] + ks[1..];
    }
  }

  /** A form parser reads the same parameters in the canonical query as in the query, each as often. */
  lemma {:induction false} CanonicalParses(query: string)
    ensures multiset(Query.Parse(Canonical(query))) == multiset(Query.Parse(query))
  {
    var parts := CanonicalParts(query);
    CanonicalShape(query);
    PartsReadAlike(Split(query, "&"));
    SortReads(parts);
    if Sort(parts) == [] {
      SplitSingle("", "&");
      assert Query.SegmentPairs([""][1..]) == [];
      assert Query.SegmentPairs([""]) == [];
    } else {
      SplitJoin(Sort(parts), "&");
    }
  }
}
