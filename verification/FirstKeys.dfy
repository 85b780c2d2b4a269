/** The first key a listing shows after an offset, and when two offsets select the same keys. */
module FirstKeys {
  import opened Text
  import opened Ordering
  import opened Keys
  import opened PrefixView

  // ---- The least path above a text.

  /** The least path that is greater than `lo`: a degenerate segment is left behind as a whole. */
  function NextPath(lo: string): string
    decreases |lo|
  {
    match SplitOnce(lo, "/")
    case None => lo + ['\0']
    case Some((segment, rest)) =>
      if DegenerateSegment(segment) then segment + "0" else segment + "/" + NextPath(rest)
  }

  lemma {:induction false} LessSelf(a: string, b: string)
    requires b != ""
    ensures Less(a, a + b)
  {
    PrefixIsLess(a, a + b);
  }

  /** Nothing lies between a text and the text followed by the least character. */
  lemma {:induction false} Successor(lo: string, k: string)
    requires Less(lo, k)
    ensures LessEq(lo + ['\0'], k)
  {
    if lo == "" {
      assert (lo + ['\0'])[1..] == "";
      assert k == [k[0]] + k[1..];
    } else if lo[0] == k[0] {
      Successor(lo[1..], k[1..]);
      assert (lo + ['\0'])[1..] == lo[1..] + ['\0'];
      assert lo + ['\0'] == [lo[0]] + (lo[1..] + ['\0']) && k == [k[0]] + k[1..];
    }
  }

  /** A text above something with the prefix `p`, itself without it, is above everything with it. */
  lemma {:induction false} Beyond(p: string, a: string, k: string, b: string)
    requires Less(p + a, k) && !(p <= k)
    ensures Less(p + b, k)
  {
    if p != "" && k[0] == p[0] {
      assert (p + a)[1..] == p[1..] + a && (p + b)[1..] == p[1..] + b;
      assert p == [p[0]] + p[1..] && k == [k[0]] + k[1..];
      Beyond(p[1..], a, k[1..], b);
    }
  }

  /** Of two texts with the prefix `p` one lies between anything with it and what comes next. */
  lemma {:induction false} SlashThenZero(d: string, a: string, k: string)
    requires Less(d + "/" + a, k) && Less(k, d + "0")
    ensures d + "/" <= k
  {
    if d == "" {
      assert d + "/" + a == "/" + a && d + "0" == "0";
      assert "0"[1..] == "";
      assert k == [k[0]] + k[1..];
    } else {
      assert (d + "/" + a)[0] == d[0] && (d + "0")[0] == d[0];
      assert (d + "/" + a)[1..] == d[1..] + "/" + a && (d + "0")[1..] == d[1..] + "0";
      SlashThenZero(d[1..], a, k[1..]);
      assert k == [k[0]] + k[1..] && d == [d[0]] + d[1..];
    }
  }

  lemma {:induction false} SingleIsPath(s: string)
    requires '/' !in s && !DegenerateSegment(s)
    ensures IsPath(s)
  {
    FreeOfChar(s, '/');
    SplitSingle(s, "/");
    assert s[|s| - 1] in s;
  }

  lemma {:induction false} DegenerateIsNoPath(d: string, y: string)
    requires '/' !in d && DegenerateSegment(d)
    ensures !IsPath(d + "/" + y)
  {
    FreeOfChar(d, '/');
    SplitSingle(d, "/");
    assert d in Split(d, "/");
    if y == "" {
      assert Unslashed(d + "/" + y) == d;
    } else {
      UnslashedTail(d, y);
      CleanPathConcat(d, Unslashed(y));
    }
  }

  lemma {:induction false} UnslashedTail(d: string, y: string)
    requires y != ""
    ensures Unslashed(d + "/" + y) == d + "/" + Unslashed(y)
  {
    assert (d + "/" + y)[|d + "/" + y| - 1] == y[|y| - 1];
    assert EndsWith(y, "/") ==> (d + "/" + y)[..|d + "/" + y| - 1] == d + "/" + y[..|y| - 1];
  }

  /** Under a proper segment, the paths are those of what follows. */
  lemma {:induction false} PathUnder(d: string, y: string)
    requires CleanPath(d) && y != ""
    ensures IsPath(d + "/" + y) <==> IsPath(y)
  {
    UnslashedTail(d, y);
    CleanPathConcat(d, Unslashed(y));
  }

  lemma {:induction false} SegmentIsClean(d: string)
    requires '/' !in d && !DegenerateSegment(d)
    ensures CleanPath(d)
  {
    FreeOfChar(d, '/');
    SplitSingle(d, "/");
  }

  lemma {:induction false} SplitAtSlash(lo: string)
    ensures SplitOnce(lo, "/").None? ==> '/' !in lo
    ensures SplitOnce(lo, "/").Some? ==>
              var (d, rest) := SplitOnce(lo, "/").value; '/' !in d && lo == d + "/" + rest
  {
    FindChar(lo, '/');
  }

  lemma {:induction false} NextPathIsPath(lo: string)
    ensures IsPath(NextPath(lo)) && Less(lo, NextPath(lo)) && NextPath(lo) != ""
    decreases |lo|
  {
    SplitAtSlash(lo);
    match SplitOnce(lo, "/")
    case None =>
      assert (lo + ['\0'])[|lo|] == '\0';
      SingleIsPath(lo + ['\0']);
      LessSelf(lo, ['\0']);
    case Some((d, rest)) =>
      if DegenerateSegment(d) {
        assert (d + "0")[|d|] == '0';
        SingleIsPath(d + "0");
        assert "/" + rest != "" && ("/" + rest)[0] < '0';
        LessCommonPrefix(d, "/" + rest, "0");
        assert d + ("/" + rest) == lo;
      } else {
        NextPathIsPath(rest);
        SegmentIsClean(d);
        PathUnder(d, NextPath(rest));
        LessCommonPrefix(d + "/", rest, NextPath(rest));
      }
  }

  /** Every greater path is at least that one. */
  lemma {:induction false} NextPathIsLeast(lo: string, k: string)
    requires IsPath(k) && Less(lo, k)
    ensures LessEq(NextPath(lo), k)
    decreases |lo|
  {
    SplitAtSlash(lo);
    match SplitOnce(lo, "/")
    case None => Successor(lo, k);
    case Some((d, rest)) =>
      LessTotal(k, d + "0");
      if DegenerateSegment(d) {
        if Less(k, d + "0") {
          SlashThenZero(d, rest, k);
          assert k == d + "/" + k[|d| + 1..];
          DegenerateIsNoPath(d, k[|d| + 1..]);
        }
      } else if d + "/" <= k {
        var y := k[|d| + 1..];
        assert k == d + "/" + y;
        LessCommonPrefix(d + "/", rest, y);
        SegmentIsClean(d);
        PathUnder(d, y);
        NextPathIsLeast(rest, y);
        LessCommonPrefix(d + "/", NextPath(rest), y);
      } else {
        Beyond(d + "/", rest, k, NextPath(rest));
      }
  }

  /** What follows a path directly is that path and the least character. */
  lemma {:induction false} NextOfPath(k: string)
    requires IsPath(k)
    ensures NextPath(k) == k + ['\0']
    decreases |k|
  {
    SplitAtSlash(k);
    match SplitOnce(k, "/")
    case None =>
    case Some((d, rest)) =>
      if DegenerateSegment(d) {
        DegenerateIsNoPath(d, rest);
      } else if rest != "" {
        SegmentIsClean(d);
        PathUnder(d, rest);
        NextOfPath(rest);
        assert d + "/" + (rest + ['\0']) == k + ['\0'];
      } else {
        assert NextPath("") == "" + ['\0'] by {
          SplitAtSlash("");
        }
        assert d + "/" + ("" + ['\0']) == k + ['\0'];
      }
  }

  // ---- The first key of a listing.

  /** Which keys an offset lets through. */
  datatype Bound = Every | After(key: string) | Nothing

  predicate Past(b: Bound, k: string) {
    match b
    case Every => true
    case After(o) => Less(o, k)
    case Nothing => false
  }

  function AtLeast(s: string): string {
    if IsPath(s) then s else NextPath(s)
  }

  /** The first path under `rest` that the offset lets through. */
  function FirstListed(b: Bound, rest: string): Option<string> {
    match b
    case Nothing => None
    case Every => if rest <= AtLeast(rest) then Some(AtLeast(rest)) else None
    case After(o) =>
      var n := if Less(o, rest) then AtLeast(rest) else NextPath(o);
      if rest <= n then Some(n) else None
  }

  /** A text above `rest` that does not continue it is above all that do. */
  lemma {:induction false} AboveAll(rest: string, n: string, k: string)
    requires Less(rest, n) && !(rest <= n) && rest <= k
    ensures Less(k, n)
  {
    assert rest + "" == rest && k == rest + k[|rest|..];
    Beyond(rest, "", n, k[|rest|..]);
  }

  lemma {:induction false} PrefixIsAtMost(rest: string, k: string)
    requires rest <= k
    ensures LessEq(rest, k)
  {
    if rest != k {
      PrefixIsLess(rest, k);
    }
  }

  /** With everything let through: the least path under `rest`. */
  lemma {:induction false} FirstOfAll(rest: string, k: string)
    requires IsPath(k) && rest <= k
    ensures rest <= AtLeast(rest) && LessEq(AtLeast(rest), k)
  {
    PrefixIsAtMost(rest, k);
    if !IsPath(rest) {
      NextPathIsPath(rest);
      NextPathIsLeast(rest, k);
      LessTotal(k, NextPath(rest));
      if !(rest <= NextPath(rest)) {
        AboveAll(rest, NextPath(rest), k);
      }
    }
  }

  lemma {:induction false} AtLeastIsPath(rest: string)
    ensures IsPath(AtLeast(rest)) && LessEq(rest, AtLeast(rest))
  {
    NextPathIsPath(rest);
  }

  /** A path is let through exactly when it is not below the first one. */
  lemma {:induction false} FirstListedDecides(b: Bound, rest: string, k: string)
    requires IsPath(k) && rest <= k
    ensures Past(b, k) <==> FirstListed(b, rest).Some? && LessEq(FirstListed(b, rest).value, k)
  {
    FirstOfAll(rest, k);
    PrefixIsAtMost(rest, k);
    if b.After? {
      if Less(b.key, rest) {
        if rest != k {
          LessTransitive(b.key, rest, k);
        }
      } else {
        AfterDecides(b.key, rest, k);
      }
    }
  }

  lemma {:induction false} AfterDecides(o: string, rest: string, k: string)
    requires IsPath(k) && rest <= k && !Less(o, rest)
    ensures Less(o, k) <==> rest <= NextPath(o) && LessEq(NextPath(o), k)
  {
    var n := NextPath(o);
    NextPathIsPath(o);
    if Less(o, k) {
      NextPathIsLeast(o, k);
      LessTotal(k, n);
      LessTotal(o, rest);
      if rest != o {
        LessTransitive(rest, o, n);
      }
      if !(rest <= n) {
        AboveAll(rest, n, k);
      }
    } else if n != k && Less(n, k) {
      LessTransitive(o, n, k);
    }
  }

  lemma {:induction false} FirstListedIsListed(b: Bound, rest: string)
    requires FirstListed(b, rest).Some?
    ensures var f := FirstListed(b, rest).value; IsPath(f) && rest <= f && Past(b, f)
  {
    AtLeastIsPath(rest);
    if b.After? {
      NextPathIsPath(b.key);
      if Less(b.key, rest) && rest != AtLeast(rest) {
        LessTransitive(b.key, rest, AtLeast(rest));
      }
    }
  }

  /** Two offsets select the same keys under a prefix exactly when the first key is the same. */
  lemma {:induction false} SameKeysExactly(b1: Bound, b2: Bound, rest: string)
    ensures (forall k :: IsPath(k) && rest <= k ==> (Past(b1, k) <==> Past(b2, k)))
            <==> FirstListed(b1, rest) == FirstListed(b2, rest)
  {
    var f1, f2 := FirstListed(b1, rest), FirstListed(b2, rest);
    forall k | IsPath(k) && rest <= k
      ensures Past(b1, k) <==> f1.Some? && LessEq(f1.value, k)
      ensures Past(b2, k) <==> f2.Some? && LessEq(f2.value, k)
    {
      FirstListedDecides(b1, rest, k);
      FirstListedDecides(b2, rest, k);
    }
    if f1.Some? {
      FirstListedIsListed(b1, rest);
    }
    if f2.Some? {
      FirstListedIsListed(b2, rest);
    }
    if f1.Some? && f2.Some? {
      LessTotal(f1.value, f2.value);
    }
  }

  // ---- The same offset seen from under a folder.

  /** What the offset lets through of the keys under `q`, in terms of what follows `q`. */
  function Shifted(q: string, b: Bound): Bound {
    match b
    case Every => Every
    case Nothing => Nothing
    case After(o) => if q <= o then After(o[|q|..]) else if Less(o, q) then Every else Nothing
  }

  lemma {:induction false} ShiftedPast(q: string, b: Bound, k: string)
    ensures Past(b, q + k) <==> Past(Shifted(q, b), k)
  {
    if b.After? {
      var o := b.key;
      if q <= o {
        assert o == q + o[|q|..];
        LessCommonPrefix(q, o[|q|..], k);
      } else {
        LessTotal(o, q);
        LessTotal(o, q + k);
        assert q <= q + k;
        PrefixIsAtMost(q, q + k);
        if Less(o, q) {
          if q != q + k {
            LessTransitive(o, q, q + k);
          }
        } else {
          AboveAll(q, o, q + k);
        }
      }
    }
  }

  /** An offset at a key under `q` never selects the same keys under `q` as above it. */
  lemma {:induction false} ResumingDiffers(q: string, k: string, rest: string)
    requires q != "" && IsPath(k) && IsPath(q + k) && rest <= k
    ensures FirstListed(After(q + k), rest) != FirstListed(Shifted(q, After(q + k)), rest)
  {
    assert (q + k)[|q|..] == k;
    var b := After(q + k);
    SameKeysExactly(b, Shifted(q, b), rest);
    LessTotal(k, q + k);
    LessTotal(k, k);
    if Less(q + k, k) {
      assert Past(b, k) && !Past(Shifted(q, b), k);
    } else {
      var n := NextPath(k);
      NextOfPath(k);
      NextPathIsPath(k);
      assert |q + k| > |k|;
      NextPathIsLeast(k, q + k);
      LessTotal(q + k, n);
      assert Past(Shifted(q, b), n) && !Past(b, n);
    }
  }
}
