/** Python's ordering of `str` values (code point by code point) and `sorted`
    applied to a set of strings. */
module Lexicographic {

  /** `a < b` on Python strings: the first differing code point decides, and a
      proper prefix comes first. */
  predicate Less(a: string, b: string)
    decreases |a|
  {
    if a == [] then b != []
    else b != [] && (a[0] < b[0] || (a[0] == b[0] && Less(a[1..], b[1..])))
  }

  lemma {:induction false} LessIrreflexive(a: string)
    ensures !Less(a, a)
    decreases |a|
  {
    if a != [] {
      LessIrreflexive(a[1..]);
    }
  }

  lemma {:induction false} LessAsymmetric(a: string, b: string)
    ensures Less(a, b) ==> !Less(b, a)
    decreases |a|
  {
    if a != [] && b != [] && a[0] == b[0] {
      LessAsymmetric(a[1..], b[1..]);
    }
  }

  lemma {:induction false} LessTransitive(a: string, b: string, c: string)
    requires Less(a, b) && Less(b, c)
    ensures Less(a, c)
    decreases |a|
  {
    if a != [] && a[0] == b[0] && b[0] == c[0] {
      LessTransitive(a[1..], b[1..], c[1..]);
    }
  }

  /** Any two different strings are ordered one way or the other. */
  lemma {:induction false} LessTotal(a: string, b: string)
    requires a != b
    ensures Less(a, b) || Less(b, a)
    decreases |a|
  {
    if a != [] && b != [] && a[0] == b[0] {
      assert a == [a[0]] + a[1..] && b == [b[0]] + b[1..];
      LessTotal(a[1..], b[1..]);
    }
  }

  /** Strictly ascending, hence also free of duplicates. */
  ghost predicate Ascending(r: seq<string>) {
    forall i, j :: 0 <= i < j < |r| ==> Less(r[i], r[j])
  }

  predicate IsMinimum(m: string, s: set<string>) {
    m in s && forall x :: x in s && x != m ==> Less(m, x)
  }

  lemma {:induction false} MinimumExists(s: set<string>)
    requires s != {}
    ensures exists m :: IsMinimum(m, s)
    decreases |s|
  {
    var x :| x in s;
    if s != {x} {
      MinimumExists(s - {x});
      var m :| IsMinimum(m, s - {x});
      if Less(x, m) {
        forall y | y in s && y != x ensures Less(x, y) {
          if y != m { LessTransitive(x, m, y); }
        }
        assert IsMinimum(x, s);
      } else {
        LessTotal(x, m);
        assert IsMinimum(m, s);
      }
    } else {
      assert IsMinimum(x, s);
    }
  }

  lemma MinimumUnique(s: set<string>, m1: string, m2: string)
    requires IsMinimum(m1, s) && IsMinimum(m2, s)
    ensures m1 == m2
  {
    if m1 != m2 {
      LessAsymmetric(m1, m2);
    }
  }

  /** The least element of a non-empty set. */
  function MinOf(s: set<string>): (m: string)
    requires s != {}
    ensures m in s
    ensures forall x :: x in s && x != m ==> Less(m, x)
  {
    MinimumExists(s);
    forall m1, m2 | IsMinimum(m1, s) && IsMinimum(m2, s) ensures m1 == m2 {
      MinimumUnique(s, m1, m2);
    }
    var m :| IsMinimum(m, s); m
  }

  /** `sorted(s)` for a set `s` of strings: its elements, each once, in
      ascending order. */
  function Sorted(s: set<string>): (r: seq<string>)
    ensures Ascending(r)
    ensures forall x :: x in r <==> x in s
    ensures |r| == |s|
    decreases |s|
  {
    if s == {} then []
    else
      var m := MinOf(s);
      var rest := Sorted(s - {m});
      assert forall j :: 0 <= j < |rest| ==> rest[j] in s - {m};
      [m] + rest
  }

  /** A set has exactly one ascending listing, so `Sorted` is Python's
      `sorted` whatever algorithm computes it. */
  lemma {:induction false} AscendingListingUnique(r1: seq<string>, r2: seq<string>)
    requires Ascending(r1) && Ascending(r2)
    requires forall x :: x in r1 <==> x in r2
    ensures r1 == r2
    decreases |r1|
  {
    assert r1 == [] <==> r2 == [] by {
      if r1 != [] { assert r1[0] in r2; }
      if r2 != [] { assert r2[0] in r1; }
    }
    if r1 != [] {
      if r1[0] != r2[0] {
        assert r2[0] in r2 && r1[0] in r1;
        var k1 :| 0 <= k1 < |r1| && r1[k1] == r2[0];
        var k2 :| 0 <= k2 < |r2| && r2[k2] == r1[0];
        assert k1 != 0 && k2 != 0;
        LessAsymmetric(r1[0], r2[0]);
        assert false;
      }
      forall x ensures x in r1[1..] <==> x in r2[1..] {
        LessIrreflexive(x);
        if x in r1[1..] {
          var k :| 1 <= k < |r1| && r1[k] == x;
          assert x in r2;
          var k' :| 0 <= k' < |r2| && r2[k'] == x;
          assert k' != 0;
        }
        if x in r2[1..] {
          var k :| 1 <= k < |r2| && r2[k] == x;
          assert x in r1;
          var k' :| 0 <= k' < |r1| && r1[k'] == x;
          assert k' != 0;
        }
      }
      AscendingListingUnique(r1[1..], r2[1..]);
      assert r1 == [r1[0]] + r1[1..] && r2 == [r2[0]] + r2[1..];
    }
  }
}
