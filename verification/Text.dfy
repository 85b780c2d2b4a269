/**
  The string operations the gateway is written with: searching, splitting, joining,
  stripping and trimming. A string is a sequence of Unicode scalar values, as in Rust.
 */
module Text {

  datatype Option<+T> = None | Some(value: T)

  datatype Result<+T, +E> = Ok(value: T) | Err(error: E)

  /** `p` occurs in `s` at position `i`. */
  predicate OccursAt(s: string, p: string, i: nat) {
    i + |p| <= |s| && s[i..i + |p|] == p
  }

  /** The leftmost occurrence of `p` in `s`; `FindSpec` says so. */
  function Find(s: string, p: string): (r: Option<nat>)
    ensures r.Some? ==> r.value + |p| <= |s|
  {
    if p <= s then Some(0)
    else if s == [] then None
    else
      var r := Find(s[1..], p);
      if r.Some? then Some(r.value + 1) else None
  }

  ghost predicate IsFirstOccurrence(s: string, p: string, i: nat) {
    OccursAt(s, p, i) && forall j: nat :: j < i ==> !OccursAt(s, p, j)
  }

  lemma {:induction false} FindSpec(s: string, p: string)
    ensures Find(s, p).Some? ==> IsFirstOccurrence(s, p, Find(s, p).value)
    ensures Find(s, p).None? ==> forall j: nat :: !OccursAt(s, p, j)
  {
    if !(p <= s) && s != [] {
      FindSpec(s[1..], p);
      OccursInTail(s, p);
    }
  }

  /** Whatever occurs first is what `Find` returns. */
  lemma {:induction false} FindIs(s: string, p: string, i: nat)
    requires IsFirstOccurrence(s, p, i)
    ensures Find(s, p) == Some(i)
  {
    FindSpec(s, p);
  }

  lemma {:induction false} OccursInTail(s: string, p: string)
    requires s != [] && !(p <= s)
    ensures forall j: nat :: OccursAt(s, p, j) <==> j > 0 && OccursAt(s[1..], p, j - 1)
  {
    forall j: nat
      ensures OccursAt(s, p, j) <==> j > 0 && OccursAt(s[1..], p, j - 1)
    {
      if j > 0 && j + |p| <= |s| {
        assert s[1..][j - 1..j - 1 + |p|] == s[j..j + |p|];
      }
    }
  }

  lemma ConcatCancels(p: string, a: string, b: string)
    ensures p + a == p + b <==> a == b
  {
    assert (p + a)[|p|..] == a && (p + b)[|p|..] == b;
  }

  predicate EndsWith(s: string, p: string) {
    |p| <= |s| && s[|s| - |p|..] == p
  }

  function StripPrefix(s: string, p: string): Option<string> {
    if p <= s then Some(s[|p|..]) else None
  }

  /** `strip_prefix(p).unwrap_or(s)`. */
  function StripPrefixOrSelf(s: string, p: string): string {
    if p <= s then s[|p|..] else s
  }

  function SplitOnce(s: string, sep: string): Option<(string, string)> {
    match Find(s, sep)
    case None => None
    case Some(i) => Some((s[..i], s[i + |sep|..]))
  }

  function Split(s: string, sep: string): (parts: seq<string>)
    requires sep != []
    ensures parts != []
    decreases |s|
  {
    match Find(s, sep)
    case None => [s]
    case Some(i) => [s[..i]] + Split(s[i + |sep|..], sep)
  }

  function Join(parts: seq<string>, sep: string): string {
    if parts == [] then []
    else if |parts| == 1 then parts[0]
    else parts[0] + sep + Join(parts[1..], sep)
  }

  function TrimEnd(s: string, c: char): (r: string)
    ensures r <= s
    ensures r == [] || r[|r| - 1] != c
    ensures forall i :: |r| <= i < |s| ==> s[i] == c
  {
    if s != [] && s[|s| - 1] == c then TrimEnd(s[..|s| - 1], c) else s
  }

  function TrimStart(s: string, c: char): (r: string)
    ensures |r| <= |s| && r == s[|s| - |r|..]
    ensures r == [] || r[0] != c
  {
    if s != [] && s[0] == c then TrimStart(s[1..], c) else s
  }

  /** No occurrence of `sep` starts inside `p` when `p` is followed by `sep`. */
  ghost predicate FreeOf(p: string, sep: string) {
    forall i: nat :: i < |p| ==> !OccursAt(p + sep, sep, i)
  }

  lemma {:induction false} FreeOfChar(p: string, c: char)
    ensures FreeOf(p, [c]) <==> c !in p
  {
    if c in p {
      var i :| 0 <= i < |p| && p[i] == c;
      assert OccursAt(p + [c], [c], i);
    }
    forall i: nat | i < |p| && OccursAt(p + [c], [c], i)
      ensures c in p
    {
      assert (p + [c])[i..i + 1][0] == p[i];
    }
  }

  /** Whether the separator starts inside `p` does not depend on what follows it. */
  lemma {:induction false} OccursBeforeRest(p: string, sep: string, rest: string)
    requires sep != []
    ensures forall i: nat :: i < |p| ==> (OccursAt(p + sep + rest, sep, i) <==> OccursAt(p + sep, sep, i))
    ensures forall i: nat :: OccursAt(p, sep, i) ==> i < |p| && OccursAt(p + sep, sep, i)
  {
    forall i: nat | i < |p|
      ensures OccursAt(p + sep + rest, sep, i) <==> OccursAt(p + sep, sep, i)
    {
      assert (p + sep + rest)[i..i + |sep|] == (p + sep)[i..i + |sep|];
    }
    forall i: nat | OccursAt(p, sep, i)
      ensures i < |p| && OccursAt(p + sep, sep, i)
    {
      assert p[i..i + |sep|] == (p + sep)[i..i + |sep|];
    }
  }

  /** The part before the first separator is what `Find` delimits. */
  lemma {:induction false} FindAfterFree(p: string, sep: string, rest: string)
    requires sep != [] && FreeOf(p, sep)
    ensures Find(p + sep + rest, sep) == Some(|p|)
  {
    var s := p + sep + rest;
    assert OccursAt(s, sep, |p|);
    OccursBeforeRest(p, sep, rest);
    FindIs(s, sep, |p|);
  }

  lemma {:induction false} SplitOnceAfterFree(p: string, sep: string, rest: string)
    requires sep != [] && FreeOf(p, sep)
    ensures SplitOnce(p + sep + rest, sep) == Some((p, rest))
  {
    FindAfterFree(p, sep, rest);
    assert (p + sep + rest)[..|p|] == p;
    assert (p + sep + rest)[|p| + |sep|..] == rest;
  }

  lemma {:induction false} FindNoneOfFree(p: string, sep: string)
    requires sep != [] && FreeOf(p, sep)
    ensures Find(p, sep) == None
  {
    OccursBeforeRest(p, sep, []);
    FindSpec(p, sep);
  }

  /** Splitting undoes joining on parts that do not contain the separator. */
  lemma {:induction false} SplitJoin(parts: seq<string>, sep: string)
    requires sep != [] && parts != []
    requires forall p :: p in parts ==> FreeOf(p, sep)
    ensures Split(Join(parts, sep), sep) == parts
  {
    if |parts| == 1 {
      FindNoneOfFree(parts[0], sep);
    } else {
      var rest := Join(parts[1..], sep);
      FindAfterFree(parts[0], sep, rest);
      var s := parts[0] + sep + rest;
      assert s[..|parts[0]|] == parts[0];
      assert s[|parts[0]| + |sep|..] == rest;
      SplitJoin(parts[1..], sep);
      assert parts == [parts[0]] + parts[1..];
    }
  }

  /** Joining undoes splitting on every string. */
  lemma {:induction false} JoinSplit(s: string, sep: string)
    requires sep != []
    ensures Join(Split(s, sep), sep) == s
    decreases |s|
  {
    FindSpec(s, sep);
    var r := Find(s, sep);
    if r.Some? {
      var i := r.value;
      var tail := s[i + |sep|..];
      JoinSplit(tail, sep);
      assert s == s[..i] + s[i..i + |sep|] + tail;
      assert ([s[..i]] + Split(tail, sep))[1..] == Split(tail, sep);
    }
  }

  lemma {:induction false} OccursInHead(s: string, sep: string, i: nat, j: nat)
    requires i <= |s| && OccursAt(s[..i], sep, j)
    ensures OccursAt(s, sep, j) && j + |sep| <= i
  {
    assert s[..i][j..j + |sep|] == s[j..j + |sep|];
  }

  lemma {:induction false} HeadHasNone(s: string, sep: string)
    requires sep != [] && Find(s, sep).Some?
    ensures Find(s[..Find(s, sep).value], sep) == None
  {
    var i := Find(s, sep).value;
    FindSpec(s, sep);
    FindSpec(s[..i], sep);
    if Find(s[..i], sep).Some? {
      OccursInHead(s, sep, i, Find(s[..i], sep).value);
    }
  }

  /** No part of a split contains the separator. */
  lemma {:induction false} SplitPartsFree(s: string, sep: string)
    requires sep != []
    ensures forall p :: p in Split(s, sep) ==> Find(p, sep) == None
    decreases |s|
  {
    var r := Find(s, sep);
    if r.Some? {
      SplitPartsFree(s[r.value + |sep|..], sep);
      HeadHasNone(s, sep);
    }
  }

  /** Finding one character. */
  lemma {:induction false} FindChar(s: string, c: char)
    ensures Find(s, [c]).Some? <==> c in s
    ensures Find(s, [c]).Some? ==> s[Find(s, [c]).value] == c && c !in s[..Find(s, [c]).value]
  {
    FindSpec(s, [c]);
    if c in s {
      var i :| 0 <= i < |s| && s[i] == c;
      assert OccursAt(s, [c], i);
    }
    if Find(s, [c]).Some? {
      var i := Find(s, [c]).value;
      assert s[i..i + 1][0] == s[i];
      forall j: nat | j < i
        ensures s[j] == c ==> OccursAt(s, [c], j)
      {
      }
    }
  }

  /** What splitting on one character yields, for callers that only need membership. */
  lemma {:induction false} SplitCharParts(s: string, c: char)
    ensures forall p :: p in Split(s, [c]) ==> c !in p && FreeOf(p, [c])
    ensures Join(Split(s, [c]), [c]) == s
  {
    SplitPartsFree(s, [c]);
    JoinSplit(s, [c]);
    forall p | p in Split(s, [c])
      ensures c !in p && FreeOf(p, [c])
    {
      FindChar(p, c);
      FreeOfChar(p, c);
    }
  }

  /** Splitting a concatenation around a free head peels the head off. */
  lemma {:induction false} SplitHead(p: string, sep: string, rest: string)
    requires sep != [] && FreeOf(p, sep)
    ensures Split(p + sep + rest, sep) == [p] + Split(rest, sep)
  {
    FindAfterFree(p, sep, rest);
    var s := p + sep + rest;
    assert s[..|p|] == p;
    assert s[|p| + |sep|..] == rest;
  }

  lemma {:induction false} SplitSingle(p: string, sep: string)
    requires sep != [] && FreeOf(p, sep)
    ensures Split(p, sep) == [p]
  {
    FindNoneOfFree(p, sep);
  }

  /** Trimming is exact: what is left plus a run of the trimmed character is the original. */
  lemma {:induction false} TrimEndOfTrimmed(s: string, c: char)
    requires s == [] || s[|s| - 1] != c
    ensures TrimEnd(s, c) == s
    ensures TrimEnd(s + [c], c) == s
  {
    assert (s + [c])[..|s|] == s;
  }

  lemma {:induction false} TrimStartOfTrimmed(s: string, c: char)
    requires s == [] || s[0] != c
    ensures TrimStart(s, c) == s
    ensures TrimStart([c] + s, c) == s
  {
    assert ([c] + s)[1..] == s;
  }
}
