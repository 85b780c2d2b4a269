/** Subject conditions: the glob matcher with `*` wildcards. */
module SubjectGlob {
  import opened Text

  // ---- What a glob means, character by character.

  predicate Matches(s: string, p: string)
    decreases |p|, |s|
  {
    if p == "" then s == ""
    else if p[0] == '*' then Matches(s, p[1..]) || (s != "" && Matches(s[1..], p))
    else s != "" && s[0] == p[0] && Matches(s[1..], p[1..])
  }

  // ---- What it means for the literal pieces between the stars.

  /** The text made of the pieces with the gaps between them. */
  function Interleave(pieces: seq<string>, gaps: seq<string>): string
    requires |pieces| == |gaps| + 1
  {
    if gaps == [] then pieces[0]
    else pieces[0] + gaps[0] + Interleave(pieces[1..], gaps[1..])
  }

  ghost predicate SplitsAs(s: string, pieces: seq<string>) {
    exists gaps: seq<string> :: |pieces| == |gaps| + 1 && s == Interleave(pieces, gaps)
  }

  /** `s` starts with the first piece and the rest follows after some gap. */
  predicate Anchored(s: string, pieces: seq<string>)
    requires pieces != []
    decreases |pieces|, |s|, 0
  {
    if |pieces| == 1 then s == pieces[0]
    else pieces[0] <= s && Floating(s[|pieces[0]|..], pieces[1..])
  }

  /** After some gap, `s` is anchored. */
  predicate Floating(s: string, pieces: seq<string>)
    requires pieces != []
    decreases |pieces|, |s|, 1
  {
    Anchored(s, pieces) || (s != "" && Floating(s[1..], pieces))
  }

  // ---- The matcher.

  /** Whether the subject matches the pattern; stars are tried leftmost first, without backtracking. */
  method SubjectMatches(subject: string, pattern: string) returns (r: bool)
    ensures r <==> Matches(subject, pattern)
    ensures r <==> SplitsAs(subject, Split(pattern, "*"))
  {
    PiecesDecide(subject, pattern);
    if pattern == "*" {
      StarMatchesAll(subject);
      return true;
    }
    var parts := Split(pattern, "*");
    if |parts| == 1 {
      JoinSplit(pattern, "*");
      return subject == pattern;
    }
    r := PiecesMatch(subject, parts);
  }

  /** The part of the matcher after the pattern is split. */
  method PiecesMatch(subject: string, parts: seq<string>) returns (r: bool)
    requires |parts| >= 2
    ensures r <==> Anchored(subject, parts)
  {
    var remaining := subject;
    if parts[0] != "" {
      if !(parts[0] <= remaining) {
        return false;
      }
      remaining := remaining[|parts[0]|..];
    }
    assert remaining == subject[|parts[0]|..];
    for i := 1 to |parts| - 1
      invariant Anchored(subject, parts) <==> Floating(remaining, parts[i..])
    {
      LeftmostStep(remaining, parts, i);
      if parts[i] == "" {
        continue;
      }
      match Find(remaining, parts[i]) {
        case Some(idx) => remaining := remaining[idx + |parts[i]|..];
        case None => return false;
      }
    }
    var last := parts[|parts| - 1];
    assert parts[|parts| - 1..] == [last];
    LastIsSuffix(remaining, last);
    if last != "" {
      return EndsWith(remaining, last);
    }
    return true;
  }

  predicate MatchesAny(subject: string, conditions: seq<string>) {
    exists i :: 0 <= i < |conditions| && Matches(subject, conditions[i])
  }

  /** `subject_allowed`: no conditions allow nobody. */
  method SubjectAllowed(subject: string, conditions: seq<string>) returns (r: bool)
    ensures r <==> MatchesAny(subject, conditions)
  {
    for i := 0 to |conditions|
      invariant forall j :: 0 <= j < i ==> !Matches(subject, conditions[j])
    {
      var m := SubjectMatches(subject, conditions[i]);
      if m {
        return true;
      }
    }
    return false;
  }

  // ---- Leftmost occurrences suffice.

  lemma {:induction false} FloatingMonotone(s: string, pieces: seq<string>, i: nat)
    requires pieces != [] && i <= |s| && Floating(s[i..], pieces)
    ensures Floating(s, pieces)
  {
    if i > 0 {
      assert s[i..] == s[1..][i - 1..];
      FloatingMonotone(s[1..], pieces, i - 1);
    } else {
      assert s[0..] == s;
    }
  }

  /** The exchange argument: if the rest follows any occurrence of a piece, it follows the first. */
  lemma {:induction false} LeftmostSuffices(s: string, pieces: seq<string>)
    requires |pieces| >= 2
    ensures Find(s, pieces[0]).None? ==> !Floating(s, pieces)
    ensures Find(s, pieces[0]).Some? ==>
              (Floating(s, pieces) <==> Floating(s[Find(s, pieces[0]).value + |pieces[0]|..], pieces[1..]))
    decreases |s|
  {
    var p := pieces[0];
    if s != "" {
      LeftmostSuffices(s[1..], pieces);
      var r := Find(s[1..], p);
      if r.Some? {
        var later := s[1..][r.value + |p|..];
        assert later == s[r.value + 1 + |p|..];
        if p <= s && Floating(later, pieces[1..]) {
          assert later == s[|p|..][r.value + 1..];
          FloatingMonotone(s[|p|..], pieces[1..], r.value + 1);
        }
      }
    }
  }

  lemma {:induction false} LeftmostStep(s: string, parts: seq<string>, i: nat)
    requires i + 1 < |parts|
    ensures Find(s, parts[i]).None? ==> !Floating(s, parts[i..])
    ensures Find(s, parts[i]).Some? ==>
              (Floating(s, parts[i..]) <==> Floating(s[Find(s, parts[i]).value + |parts[i]|..], parts[i + 1..]))
    ensures parts[i] == "" ==> (Floating(s, parts[i..]) <==> Floating(s, parts[i + 1..]))
  {
    assert parts[i..][0] == parts[i] && parts[i..][1..] == parts[i + 1..];
    LeftmostSuffices(s, parts[i..]);
    if parts[i] == "" {
      assert Find(s, "") == Some(0) && s[0..] == s;
    }
  }

  lemma {:induction false} LastIsSuffix(s: string, last: string)
    ensures Floating(s, [last]) <==> EndsWith(s, last)
  {
    if s != "" {
      LastIsSuffix(s[1..], last);
      if |last| < |s| {
        assert s[1..][|s[1..]| - |last|..] == s[|s| - |last|..];
      }
    }
  }

  // ---- The three readings agree.

  lemma {:induction false} StarMatchesAll(s: string)
    ensures Matches(s, "*")
  {
    if s != "" {
      StarMatchesAll(s[1..]);
    } else {
      assert "*"[1..] == "";
    }
  }

  lemma {:induction false} GapBefore(s: string, pieces: seq<string>) returns (k: nat)
    requires pieces != [] && Floating(s, pieces)
    ensures k <= |s| && Anchored(s[k..], pieces)
    decreases |s|
  {
    if Anchored(s, pieces) {
      k := 0;
      assert s[0..] == s;
    } else {
      k := GapBefore(s[1..], pieces);
      assert s[1..][k..] == s[k + 1..];
      k := k + 1;
    }
  }

  lemma {:induction false} AnchoredIsSplit(s: string, pieces: seq<string>)
    requires pieces != []
    ensures Anchored(s, pieces) <==> SplitsAs(s, pieces)
    decreases |pieces|
  {
    if |pieces| == 1 {
      assert Interleave(pieces, []) == pieces[0];
    } else {
      if Anchored(s, pieces) {
        var tail := s[|pieces[0]|..];
        var k := GapBefore(tail, pieces[1..]);
        AnchoredIsSplit(tail[k..], pieces[1..]);
        var gaps: seq<string> :| |pieces[1..]| == |gaps| + 1 && tail[k..] == Interleave(pieces[1..], gaps);
        var gaps' := [tail[..k]] + gaps;
        assert gaps'[1..] == gaps;
        assert s == pieces[0] + tail[..k] + tail[k..];
        assert s == Interleave(pieces, gaps');
      }
      if SplitsAs(s, pieces) {
        var gaps: seq<string> :| |pieces| == |gaps| + 1 && s == Interleave(pieces, gaps);
        var rest := Interleave(pieces[1..], gaps[1..]);
        assert s == pieces[0] + gaps[0] + rest;
        var tail := s[|pieces[0]|..];
        assert tail[|gaps[0]|..] == rest;
        AnchoredIsSplit(rest, pieces[1..]);
        FloatingMonotone(tail, pieces[1..], |gaps[0]|);
      }
    }
  }

  /** A literal head is matched character by character. */
  lemma {:induction false} LiteralHead(s: string, lit: string, p: string)
    requires '*' !in lit
    ensures Matches(s, lit + p) <==> lit <= s && Matches(s[|lit|..], p)
    decreases |lit|
  {
    if lit == "" {
      assert lit + p == p && s[0..] == s;
    } else {
      assert (lit + p)[1..] == lit[1..] + p;
      if s != "" && s[0] == lit[0] {
        LiteralHead(s[1..], lit[1..], p);
        assert lit <= s <==> lit[1..] <= s[1..] by {
          assert lit == [lit[0]] + lit[1..] && s == [s[0]] + s[1..];
        }
        if lit <= s {
          assert s[1..][|lit[1..]|..] == s[|lit|..];
        }
      }
    }
  }

  lemma {:induction false} MatchesIsAnchored(s: string, pieces: seq<string>)
    requires pieces != [] && forall i :: 0 <= i < |pieces| ==> '*' !in pieces[i]
    ensures Matches(s, Join(pieces, "*")) <==> Anchored(s, pieces)
    decreases |pieces|, |s|, 0
  {
    var lit := pieces[0];
    if |pieces| == 1 {
      LiteralHead(s, lit, "");
      assert lit + "" == lit;
      if lit <= s {
        assert s[|lit|..] == "" <==> s == lit;
      }
    } else {
      var p := Join(pieces[1..], "*");
      assert Join(pieces, "*") == lit + ("*" + p);
      LiteralHead(s, lit, "*" + p);
      if lit <= s {
        StarIsFloating(s[|lit|..], pieces[1..]);
      }
    }
  }

  lemma {:induction false} StarIsFloating(s: string, pieces: seq<string>)
    requires pieces != [] && forall i :: 0 <= i < |pieces| ==> '*' !in pieces[i]
    ensures Matches(s, "*" + Join(pieces, "*")) <==> Floating(s, pieces)
    decreases |pieces|, |s|, 1
  {
    var q := "*" + Join(pieces, "*");
    assert q[1..] == Join(pieces, "*");
    MatchesIsAnchored(s, pieces);
    if s != "" {
      StarIsFloating(s[1..], pieces);
    }
  }

  lemma {:induction false} PiecesDecide(s: string, pattern: string)
    ensures Matches(s, pattern) <==> Anchored(s, Split(pattern, "*"))
    ensures Matches(s, pattern) <==> SplitsAs(s, Split(pattern, "*"))
  {
    SplitCharParts(pattern, '*');
    MatchesIsAnchored(s, Split(pattern, "*"));
    AnchoredIsSplit(s, Split(pattern, "*"));
  }
}
