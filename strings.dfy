/** The Python `str` operations the record normaliser applies to a raw
    attachment path: `lower`, `endswith`, `count` and `replace(pat, '')`. */
module Strings {

  /** The literal that marks a path stored relative to the managed directory. */
  const Marker: string := "attachments:"

  /** Lower-casing of one character, restricted to ASCII letters: no other
      character lower-cases to one of '.', 'p', 'd', 'f'. */
  function LowerChar(c: char): char {
    if 'A' <= c <= 'Z' then (c as int + 32) as char else c
  }

  /** `s.lower()`: same length, no upper-case ASCII letter left, and every
      character that is not one unchanged. */
  function Lower(s: string): (r: string)
    ensures |r| == |s|
    ensures forall i :: 0 <= i < |r| ==> !('A' <= r[i] <= 'Z')
    ensures forall i :: 0 <= i < |r| && !('A' <= s[i] <= 'Z') ==> r[i] == s[i]
  {
    seq(|s|, i requires 0 <= i < |s| => LowerChar(s[i]))
  }

  predicate EndsWith(s: string, suffix: string) {
    |suffix| <= |s| && s[|s| - |suffix|..] == suffix
  }

  /** `s.lower().endswith('.pdf')`: a case-insensitive look at the last four
      characters. */
  predicate HasPdfSuffix(s: string)
    ensures HasPdfSuffix(s) <==>
      |s| >= 4 && s[|s| - 4] == '.' && s[|s| - 3] in "pP" &&
      s[|s| - 2] in "dD" && s[|s| - 1] in "fF"
  {
    assert |s| >= 4 ==> (Lower(s)[|s| - 4..] ==
      [LowerChar(s[|s| - 4]), LowerChar(s[|s| - 3]), LowerChar(s[|s| - 2]), LowerChar(s[|s| - 1])]);
    EndsWith(Lower(s), ".pdf")
  }

  /** Two strings that agree on their last four characters agree on the test. */
  lemma PdfSuffixDependsOnLastFour(s: string, t: string)
    requires |s| >= 4 && |t| >= 4 && s[|s| - 4..] == t[|t| - 4..]
    ensures HasPdfSuffix(s) <==> HasPdfSuffix(t)
  {
    assert s[|s| - 4..][0] == t[|t| - 4..][0];
    assert s[|s| - 4..][1] == t[|t| - 4..][1];
    assert s[|s| - 4..][2] == t[|t| - 4..][2];
    assert s[|s| - 4..][3] == t[|t| - 4..][3];
  }

  lemma EndsWithTransitive(s: string, t: string, u: string)
    requires EndsWith(s, t) && EndsWith(t, u)
    ensures EndsWith(s, u)
  {
    assert s[|s| - |u|..] == s[|s| - |t|..][|t| - |u|..];
  }

  /** A string ending in ".pdf" passes the case-insensitive test. */
  lemma EndsWithPdf(s: string)
    requires EndsWith(s, ".pdf")
    ensures HasPdfSuffix(s)
  {
    assert s[|s| - 4..][0] == '.' && s[|s| - 4..][1] == 'p';
    assert s[|s| - 4..][2] == 'd' && s[|s| - 4..][3] == 'f';
  }

  predicate OccursAt(s: string, pat: string, i: nat) {
    i + |pat| <= |s| && s[i..i + |pat|] == pat
  }

  /** `pat in s`, as a scan: `pat` starts here or further on. */
  predicate Occurs(s: string, pat: string)
    decreases |s|
  {
    |pat| <= |s| && (s[..|pat|] == pat || (s != [] && Occurs(s[1..], pat)))
  }

  /** An occurrence in the tail is an occurrence one place further on. */
  lemma OccursAtTail(s: string, pat: string, i: nat)
    requires s != [] && OccursAt(s[1..], pat, i)
    ensures OccursAt(s, pat, i + 1)
  {
    assert s[1..][i..i + |pat|] == s[i + 1..i + 1 + |pat|];
  }

  /** The scan agrees with the direct definition: `pat in s` iff `pat` starts
      at some position of `s`. */
  lemma {:induction false} OccursIffSomePosition(s: string, pat: string)
    ensures Occurs(s, pat) <==> exists i: nat :: OccursAt(s, pat, i)
    decreases |s|
  {
    if |pat| <= |s| && s[..|pat|] == pat {
      assert OccursAt(s, pat, 0);
    } else if |pat| <= |s| && s != [] {
      OccursIffSomePosition(s[1..], pat);
      if i: nat :| OccursAt(s, pat, i) {
        assert i != 0;
        assert s[1..][i - 1..i - 1 + |pat|] == s[i..i + |pat|];
        assert OccursAt(s[1..], pat, i - 1);
      }
      if i: nat :| OccursAt(s[1..], pat, i) {
        OccursAtTail(s, pat, i);
      }
    }
  }

  /** `s.count(pat)`: occurrences found scanning left to right, without
      overlap; it is positive exactly when `pat` occurs in `s`. */
  function Count(s: string, pat: string): (r: nat)
    requires pat != []
    ensures r > 0 <==> Occurs(s, pat)
    decreases |s|
  {
    if |s| < |pat| then 0
    else if s[..|pat|] == pat then 1 + Count(s[|pat|..], pat)
    else Count(s[1..], pat)
  }

  /** `s.replace(pat, '')`: every occurrence found by the same scan is
      dropped. The result is never longer, and it differs from `s` exactly
      when `pat` occurs in `s`. */
  function RemoveAll(s: string, pat: string): (r: string)
    requires pat != []
    ensures |r| <= |s|
    ensures r == s <==> !Occurs(s, pat)
    decreases |s|
  {
    if |s| < |pat| then s
    else if s[..|pat|] == pat then RemoveAll(s[|pat|..], pat)
    else
      assert s == [s[0]] + s[1..];
      [s[0]] + RemoveAll(s[1..], pat)
  }

  /** A string without the last character of `pat` holds no occurrence. */
  lemma {:induction false} NoOccurrenceWithoutLastChar(s: string, pat: string)
    requires pat != [] && pat[|pat| - 1] !in s
    ensures !Occurs(s, pat)
    decreases |s|
  {
    if |pat| <= |s| {
      assert s[..|pat|] != pat by {
        assert s[..|pat|][|pat| - 1] == s[|pat| - 1];
      }
      assert pat[|pat| - 1] !in s[1..] by {
        assert forall c :: c in s[1..] ==> c in s;
      }
      NoOccurrenceWithoutLastChar(s[1..], pat);
    }
  }

  /** Each counted occurrence shortens the result by the length of `pat`. */
  lemma {:induction false} RemoveAllLength(s: string, pat: string)
    requires pat != []
    ensures |RemoveAll(s, pat)| == |s| - |pat| * Count(s, pat)
    decreases |s|
  {
    if |s| < |pat| {
      assert Count(s, pat) == 0 && RemoveAll(s, pat) == s;
    } else if s[..|pat|] == pat {
      var t := s[|pat|..];
      var c := Count(t, pat);
      var n := |RemoveAll(t, pat)|;
      assert n == |t| - |pat| * c by {
        RemoveAllLength(t, pat);
      }
      assert RemoveAll(s, pat) == RemoveAll(t, pat) && Count(s, pat) == 1 + c;
      MultiplyOneMore(|pat|, c);
    } else {
      var t := s[1..];
      assert |RemoveAll(t, pat)| == |t| - |pat| * Count(t, pat) by {
        RemoveAllLength(t, pat);
      }
      assert RemoveAll(s, pat) == [s[0]] + RemoveAll(t, pat) && Count(s, pat) == Count(t, pat);
    }
  }

  lemma MultiplyOneMore(m: int, c: int)
    ensures m * (1 + c) == m + m * c
  {
  }

  /** The last `n` characters survive the removal when they do not contain the
      last character of `pat`: no occurrence can end among them. */
  lemma {:induction false} RemoveAllKeepsSuffix(s: string, pat: string, n: nat)
    requires pat != [] && n <= |s|
    requires pat[|pat| - 1] !in s[|s| - n..]
    ensures EndsWith(RemoveAll(s, pat), s[|s| - n..])
    decreases |s|
  {
    if n == |s| {
      NoOccurrenceWithoutLastChar(s, pat);
    } else if |s| < |pat| {
    } else if s[..|pat|] == pat {
      var t := s[|pat|..];
      assert t[|t| - n..] == s[|s| - n..];
      assert EndsWith(RemoveAll(t, pat), s[|s| - n..]) by {
        RemoveAllKeepsSuffix(t, pat, n);
      }
      assert RemoveAll(s, pat) == RemoveAll(t, pat);
    } else {
      var t := s[1..];
      assert t[|t| - n..] == s[|s| - n..];
      var r := RemoveAll(t, pat);
      assert EndsWith(r, s[|s| - n..]) by {
        RemoveAllKeepsSuffix(t, pat, n);
      }
      assert RemoveAll(s, pat) == [s[0]] + r;
      assert ([s[0]] + r)[|[s[0]] + r| - n..] == r[|r| - n..];
    }
  }

  /** Removing the marker keeps a `.pdf` suffix: the marker ends in ':', which
      is none of the suffix's characters. */
  lemma RemoveMarkerKeepsPdfSuffix(s: string)
    requires HasPdfSuffix(s)
    ensures HasPdfSuffix(RemoveAll(s, Marker))
  {
    var t := s[|s| - 4..];
    assert t == [s[|s| - 4], s[|s| - 3], s[|s| - 2], s[|s| - 1]];
    assert Marker[|Marker| - 1] == ':';
    RemoveAllKeepsSuffix(s, Marker, 4);
    var r := RemoveAll(s, Marker);
    PdfSuffixDependsOnLastFour(s, r);
  }

  /** A marker-prefixed relative path loses exactly its marker. */
  lemma RemoveLeadingMarker(rel: string)
    requires !Occurs(rel, Marker)
    ensures RemoveAll(Marker + rel, Marker) == rel
  {
    assert (Marker + rel)[..|Marker|] == Marker;
    assert (Marker + rel)[|Marker|..] == rel;
  }

  /** No occurrence among the first `n` positions of `s` means none among the
      first `n - 1` positions of its tail. */
  lemma NoOccurrenceInTail(s: string, pat: string, n: nat)
    requires 0 < n <= |s|
    requires forall i: nat :: i < n ==> !OccursAt(s, pat, i)
    ensures forall i: nat :: i < n - 1 ==> !OccursAt(s[1..], pat, i)
  {
    forall i: nat | i < n - 1 ensures !OccursAt(s[1..], pat, i) {
      if OccursAt(s[1..], pat, i) {
        OccursAtTail(s, pat, i);
      }
    }
  }

  /** When no occurrence starts among the first `n` characters, they are
      copied through unchanged. */
  lemma {:induction false} RemoveAllSkipsPrefix(s: string, pat: string, n: nat)
    requires pat != [] && n <= |s|
    requires forall i: nat :: i < n ==> !OccursAt(s, pat, i)
    ensures RemoveAll(s, pat) == s[..n] + RemoveAll(s[n..], pat)
    decreases n
  {
    if n == 0 {
      assert s[0..] == s;
    } else if |s| < |pat| {
      assert RemoveAll(s[n..], pat) == s[n..] by {
        assert |s[n..]| < |pat|;
      }
      assert s[..n] + s[n..] == s;
    } else {
      var t := s[1..];
      var rest := RemoveAll(s[n..], pat);
      assert RemoveAll(s, pat) == [s[0]] + RemoveAll(t, pat) by {
        assert !OccursAt(s, pat, 0);
      }
      assert RemoveAll(t, pat) == t[..n - 1] + rest by {
        NoOccurrenceInTail(s, pat, n);
        RemoveAllSkipsPrefix(t, pat, n - 1);
        assert t[n - 1..] == s[n..];
      }
      assert [s[0]] + t[..n - 1] == s[..n];
      Regroup(s[0], t[..n - 1], rest, s[..n]);
    }
  }

  lemma Regroup(c: char, u: string, v: string, w: string)
    requires [c] + u == w
    ensures [c] + (u + v) == w + v
  {
  }

  /** In "attachm" + "attachments:" + "ents:" + "a.pdf" the marker does not
      start in the first seven characters. */
  lemma NoMarkerInFirstSeven(s: string)
    requires s == Marker[..7] + Marker + Marker[7..] + "a.pdf"
    ensures forall i: nat :: i < 7 ==> !OccursAt(s, Marker, i)
  {
    forall i: nat | i < 7 ensures !OccursAt(s, Marker, i) {
      if i == 0 { assert s[7] != Marker[7]; }
      else if i <= 2 { assert s[i] != Marker[0]; }
      else { assert s[i + 1] != Marker[1]; }
    }
  }

  /** `replace` is not idempotent: removing the marker from
      "attachmattachments:ents:a.pdf" joins the two pieces around it into a
      new marker ... */
  lemma MarkerRemovalJoinsMarker(s: string)
    requires s == Marker[..7] + Marker + Marker[7..] + "a.pdf"
    ensures RemoveAll(s, Marker) == Marker + "a.pdf"
  {
    var t := Marker[7..] + "a.pdf";
    NoMarkerInFirstSeven(s);
    RemoveAllSkipsPrefix(s, Marker, 7);
    assert s == Marker[..7] + (Marker + t);
    assert s[7..] == Marker + t;
    StripLeadingMarker(t);
    assert Marker[..7] + Marker[7..] == Marker;
    assert s[..7] + t == Marker + "a.pdf";
  }

  /** ... which a second removal strips, changing the result again. */
  lemma SecondRemovalChanges(r: string)
    requires r == Marker + "a.pdf"
    ensures Occurs(r, Marker) && RemoveAll(r, Marker) == "a.pdf" != r
  {
    assert OccursAt(r, Marker, 0);
    StripLeadingMarker("a.pdf");
  }

  lemma StripLeadingMarker(t: string)
    requires |t| < |Marker|
    ensures RemoveAll(Marker + t, Marker) == t
  {
    assert (Marker + t)[..|Marker|] == Marker && (Marker + t)[|Marker|..] == t;
  }
}
