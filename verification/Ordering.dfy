/**
  The order of strings (code point by code point, which is also the order of their UTF-8
  bytes), and the sorted sequences it defines.
 */
module Ordering {

  predicate Less(a: string, b: string) {
    b != [] && (a == [] || a[0] < b[0] || (a[0] == b[0] && Less(a[1..], b[1..])))
  }

  predicate LessEq(a: string, b: string) {
    a == b || Less(a, b)
  }

  lemma {:induction false} LessTotal(a: string, b: string)
    ensures Less(a, b) || a == b || Less(b, a)
    ensures !(Less(a, b) && Less(b, a))
    ensures Less(a, b) ==> a != b
  {
    if a != [] && b != [] && a[0] == b[0] {
      LessTotal(a[1..], b[1..]);
      assert a == [a[0]] + a[1..] && b == [b[0]] + b[1..];
    }
  }

  lemma {:induction false} LessTransitive(a: string, b: string, c: string)
    requires Less(a, b) && Less(b, c)
    ensures Less(a, c)
  {
    if a != [] && a[0] == b[0] && b[0] == c[0] {
      LessTransitive(a[1..], b[1..], c[1..]);
    }
  }

  /** Prefixing both sides with the same text changes nothing. */
  lemma {:induction false} LessCommonPrefix(p: string, a: string, b: string)
    ensures Less(p + a, p + b) <==> Less(a, b)
  {
    if p == [] {
      assert p + a == a && p + b == b;
    } else {
      LessCommonPrefix(p[1..], a, b);
      assert (p + a)[1..] == p[1..] + a && (p + b)[1..] == p[1..] + b;
    }
  }

  lemma {:induction false} PrefixIsLess(a: string, b: string)
    requires a <= b && a != b
    ensures Less(a, b)
  {
    if a != [] {
      PrefixIsLess(a[1..], b[1..]);
    }
  }

  // ---- Strictly sorted sequences: the enumeration of a set of keys.

  ghost predicate StrictlySorted(ks: seq<string>) {
    forall i, j :: 0 <= i < j < |ks| ==> Less(ks[i], ks[j])
  }

  ghost predicate Enumerates(ks: seq<string>, keys: set<string>) {
    StrictlySorted(ks) && forall k :: k in ks <==> k in keys
  }

  ghost predicate IsLeast(k: string, keys: set<string>) {
    k in keys && forall x :: x in keys ==> LessEq(k, x)
  }

  lemma {:induction false} LeastExists(keys: set<string>)
    requires keys != {}
    ensures exists k :: IsLeast(k, keys)
  {
    var x :| x in keys;
    var rest := keys - {x};
    if rest == {} {
      assert keys == {x};
      assert IsLeast(x, keys);
    } else {
      LeastExists(rest);
      var y :| IsLeast(y, rest);
      LessTotal(x, y);
      if Less(x, y) {
        forall z | z in keys
          ensures LessEq(x, z)
        {
          if z != x {
            assert z in rest;
            LessEqTransitive(x, y, z);
          }
        }
        assert IsLeast(x, keys);
      } else {
        forall z | z in keys
          ensures LessEq(y, z)
        {
          if z != x {
            assert z in rest;
          }
        }
        assert IsLeast(y, keys);
      }
    }
  }

  /** The keys of a set in ascending order. */
  ghost function SortedKeys(keys: set<string>): (ks: seq<string>) {
    if keys == {} then []
    else
      LeastExists(keys);
      var k :| IsLeast(k, keys);
      [k] + SortedKeys(keys - {k})
  }

  lemma {:induction false} SortedKeysEnumerates(keys: set<string>)
    ensures Enumerates(SortedKeys(keys), keys)
  {
    if keys != {} {
      LeastExists(keys);
      var ks := SortedKeys(keys);
      var k := ks[0];
      assert IsLeast(k, keys) && ks[1..] == SortedKeys(keys - {k});
      SortedKeysEnumerates(keys - {k});
      forall i, j | 0 <= i < j < |ks|
        ensures Less(ks[i], ks[j])
      {
        if i == 0 {
          assert ks[j] == ks[1..][j - 1];
          assert ks[1..][j - 1] in keys - {k};
        } else {
          assert ks[i] == ks[1..][i - 1] && ks[j] == ks[1..][j - 1];
        }
      }
      forall x
        ensures x in ks <==> x in keys
      {
        assert x in ks <==> x == k || x in ks[1..];
      }
    }
  }

  lemma {:induction false} EmptyEnumeration(a: seq<string>, keys: set<string>)
    requires Enumerates(a, keys)
    ensures a == [] <==> keys == {}
  {
    if a != [] {
      assert a[0] in a;
    }
  }

  /** There is only one enumeration. */
  lemma {:induction false} EnumerationUnique(a: seq<string>, b: seq<string>, keys: set<string>)
    requires Enumerates(a, keys) && Enumerates(b, keys)
    ensures a == b
  {
    EmptyEnumeration(a, keys);
    EmptyEnumeration(b, keys);
    if a != [] {
      assert a[0] in keys && a[0] in b;
      assert b[0] in keys && b[0] in a;
      FirstIsLeast(a, keys);
      FirstIsLeast(b, keys);
      LessTotal(a[0], b[0]);
      TailEnumerates(a, keys);
      TailEnumerates(b, keys);
      EnumerationUnique(a[1..], b[1..], keys - {a[0]});
      assert a == [a[0]] + a[1..] && b == [b[0]] + b[1..];
    }
  }

  lemma {:induction false} FirstIsLeast(a: seq<string>, keys: set<string>)
    requires Enumerates(a, keys) && a != []
    ensures IsLeast(a[0], keys)
  {
    forall x | x in keys
      ensures LessEq(a[0], x)
    {
      assert x in a;
    }
    assert a[0] in a;
  }

  lemma {:induction false} TailEnumerates(a: seq<string>, keys: set<string>)
    requires Enumerates(a, keys) && a != []
    ensures Enumerates(a[1..], keys - {a[0]})
  {
    forall k
      ensures k in a[1..] <==> k in keys - {a[0]}
    {
      if k in a[1..] {
        var i :| 0 <= i < |a| - 1 && a[1..][i] == k;
        assert Less(a[0], a[i + 1]);
        LessTotal(a[0], k);
        assert k in a;
      }
      if k in keys - {a[0]} {
        assert k in a;
        var i :| 0 <= i < |a| && a[i] == k;
        assert a[1..][i - 1] == k;
      }
    }
    forall i, j | 0 <= i < j < |a[1..]|
      ensures Less(a[1..][i], a[1..][j])
    {
      assert a[1..][i] == a[i + 1] && a[1..][j] == a[j + 1];
    }
  }

  lemma {:induction false} SortedKeysUnique(a: seq<string>, keys: set<string>)
    requires Enumerates(a, keys)
    ensures a == SortedKeys(keys)
  {
    SortedKeysEnumerates(keys);
    EnumerationUnique(a, SortedKeys(keys), keys);
  }

  // ---- Sorting with repetitions: the library sort.

  ghost predicate Sorted(ks: seq<string>) {
    forall i, j :: 0 <= i < j < |ks| ==> LessEq(ks[i], ks[j])
  }

  function InsertSorted(k: string, ks: seq<string>): (r: seq<string>)
    ensures multiset(r) == multiset{k} + multiset(ks)
  {
    if ks == [] then [k]
    else
      assert ks == [ks[0]] + ks[1..];
      if Less(ks[0], k) then [ks[0]] + InsertSorted(k, ks[1..]) else [k] + ks
  }

  function Sort(ks: seq<string>): (r: seq<string>)
    ensures multiset(r) == multiset(ks)
  {
    if ks == [] then []
    else
      assert ks == [ks[0]] + ks[1..];
      InsertSorted(ks[0], Sort(ks[1..]))
  }

  lemma {:induction false} LessEqTransitive(a: string, b: string, c: string)
    requires LessEq(a, b) && LessEq(b, c)
    ensures LessEq(a, c)
  {
    if a != b && b != c {
      LessTransitive(a, b, c);
    }
  }

  lemma {:induction false} InsertKeepsSorted(k: string, ks: seq<string>)
    requires Sorted(ks)
    ensures Sorted(InsertSorted(k, ks))
  {
    if ks != [] {
      var r := InsertSorted(k, ks);
      LessTotal(ks[0], k);
      if Less(ks[0], k) {
        InsertKeepsSorted(k, ks[1..]);
        forall j | 0 < j < |r|
          ensures LessEq(r[0], r[j])
        {
          assert r[j] in multiset(r[1..]);
          assert r[j] == k || r[j] in ks[1..];
        }
      } else {
        forall j | 0 < j < |r|
          ensures LessEq(r[0], r[j])
        {
          if j > 1 {
            LessEqTransitive(k, ks[0], ks[j - 1]);
          }
        }
      }
    }
  }

  lemma {:induction false} SortSorts(ks: seq<string>)
    ensures Sorted(Sort(ks))
  {
    if ks != [] {
      SortSorts(ks[1..]);
      InsertKeepsSorted(ks[0], Sort(ks[1..]));
    }
  }

  lemma {:induction false} HeadIsLeast(a: seq<string>, k: string)
    requires Sorted(a) && a != [] && k in multiset(a)
    ensures LessEq(a[0], k)
  {
    assert k in a;
  }

  lemma {:induction false} TailMultiset(a: seq<string>)
    requires a != []
    ensures multiset(a[1..]) == multiset(a) - multiset{a[0]}
  {
    assert a == [a[0]] + a[1..];
  }

  /** A sorted sequence is determined by the multiset of its elements. */
  lemma {:induction false} SortedUnique(a: seq<string>, b: seq<string>)
    requires Sorted(a) && Sorted(b) && multiset(a) == multiset(b)
    ensures a == b
  {
    assert |a| == |multiset(a)| && |b| == |multiset(b)|;
    if a != [] {
      assert a[0] in multiset(a) && b[0] in multiset(b);
      HeadIsLeast(a, b[0]);
      HeadIsLeast(b, a[0]);
      LessTotal(a[0], b[0]);
      TailMultiset(a);
      TailMultiset(b);
      SortedUnique(a[1..], b[1..]);
      assert a == [a[0]] + a[1..] && b == [b[0]] + b[1..];
    }
  }

  /** Sorting depends on the elements only, and sorted input is left alone. */
  lemma {:induction false} SortCanonical(a: seq<string>, b: seq<string>)
    requires multiset(a) == multiset(b)
    ensures Sort(a) == Sort(b)
    ensures Sorted(a) ==> Sort(a) == a
  {
    SortSorts(a);
    SortSorts(b);
    SortedUnique(Sort(a), Sort(b));
    if Sorted(a) {
      SortedUnique(Sort(a), a);
    }
  }
}
