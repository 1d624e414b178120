/** The part of Python's `pathlib.PurePosixPath` the tool relies on: parsing a
    string into an anchor and components, `as_posix`, `relative_to` and the
    `/` operator. */
module PurePaths {
  import opened Strings

  datatype Option<T> = None | Some(value: T)

  /** A parsed path: its anchor ("" for a relative path, "/" or "//" for an
      absolute one) and its components. */
  datatype PurePath = PurePath(anchor: string, parts: seq<string>)

  /** `s.split('/')`: always at least one piece. */
  function Split(s: string): (r: seq<string>)
    ensures |r| >= 1
  {
    if s == [] then [[]]
    else
      var rest := Split(s[1..]);
      if s[0] == '/' then [[]] + rest else [[s[0]] + rest[0]] + rest[1..]
  }

  /** pathlib drops empty components and "." components. */
  function DropEmpty(xs: seq<string>): seq<string> {
    if xs == [] then []
    else (if xs[0] == "" || xs[0] == "." then [] else [xs[0]]) + DropEmpty(xs[1..])
  }

  /** The root of `posixpath.splitroot`: exactly two leading slashes are kept,
      one or three and more become a single one. */
  function RootOf(s: string): string {
    if |s| >= 1 && s[0] == '/' then
      if |s| >= 2 && s[1] == '/' && (|s| == 2 || s[2] != '/') then "//" else "/"
    else ""
  }

  /** `PurePosixPath(s)`: every parsed path has a valid anchor and components
      that are non-empty, not "." and free of '/'. */
  function Parse(s: string): (p: PurePath)
    ensures WellFormed(p)
  {
    var root := RootOf(s);
    SplitPiecesHaveNoSlash(s[|root|..]);
    DropEmptyWellFormed(Split(s[|root|..]));
    PurePath(root, DropEmpty(Split(s[|root|..])))
  }

  /** `'/'.join(parts)` */
  function Join(parts: seq<string>): string {
    if parts == [] then ""
    else if |parts| == 1 then parts[0]
    else parts[0] + "/" + Join(parts[1..])
  }

  /** `p.as_posix()`: the anchor, then the components joined by '/', or "."
      for the empty relative path. It begins with the anchor and ends with
      `p.name`. */
  function AsPosix(p: PurePath): (r: string)
    ensures |p.anchor| <= |r| && r[..|p.anchor|] == p.anchor
    ensures p.parts != [] ==> EndsWith(r, p.parts[|p.parts| - 1])
  {
    if p.anchor == "" && p.parts == [] then "."
    else
      var tail := Join(p.parts);
      assert p.parts != [] ==> EndsWith(p.anchor + tail, p.parts[|p.parts| - 1]) by {
        if p.parts != [] {
          JoinEndsWithLast(p.parts);
          var n := |p.parts[|p.parts| - 1]|;
          assert (p.anchor + tail)[|p.anchor + tail| - n..] == tail[|tail| - n..];
        }
      }
      p.anchor + tail
  }

  predicate WellFormedPart(x: string) {
    x != "" && x != "." && '/' !in x
  }

  /** What `Parse` can produce. */
  predicate WellFormed(p: PurePath) {
    && (p.anchor == "" || p.anchor == "/" || p.anchor == "//")
    && forall i :: 0 <= i < |p.parts| ==> WellFormedPart(p.parts[i])
  }

  /** `base / rel`: an anchored right-hand side replaces the base, a relative
      one adds its components below it; joining well-formed paths gives a
      well-formed path. */
  function JoinPath(base: PurePath, rel: PurePath): (r: PurePath)
    ensures rel.anchor != "" ==> r == rel
    ensures rel.anchor == "" ==> r.anchor == base.anchor && |r.parts| == |base.parts| + |rel.parts|
    ensures WellFormed(base) && WellFormed(rel) ==> WellFormed(r)
  {
    if rel.anchor != "" then rel
    else
      var r := PurePath(base.anchor, base.parts + rel.parts);
      assert WellFormed(base) && WellFormed(rel) ==> WellFormed(r) by {
        if WellFormed(base) && WellFormed(rel) {
          forall i | 0 <= i < |r.parts| ensures WellFormedPart(r.parts[i]) {
            if i < |base.parts| { assert r.parts[i] == base.parts[i]; }
            else { assert r.parts[i] == rel.parts[i - |base.parts|]; }
          }
        }
      }
      r
  }

  /** `p.relative_to(root)`: defined when `root` is `p` or one of its parents,
      i.e. same anchor and `root`'s components a prefix of `p`'s; `None`
      stands for the ValueError. A result is relative, joins back onto the
      root to give `p`, and is well formed when `p` is. */
  function RelativeTo(p: PurePath, root: PurePath): (r: Option<PurePath>)
    ensures r.Some? ==> r.value.anchor == "" && JoinPath(root, r.value) == p
    ensures r.Some? && WellFormed(p) ==> WellFormed(r.value)
  {
    if p.anchor == root.anchor && |root.parts| <= |p.parts| && p.parts[..|root.parts|] == root.parts
    then
      var rel := PurePath("", p.parts[|root.parts|..]);
      assert p.parts == root.parts + rel.parts;
      assert WellFormed(p) ==> WellFormed(rel) by {
        if WellFormed(p) {
          forall i | 0 <= i < |rel.parts| ensures WellFormedPart(rel.parts[i]) {
            assert rel.parts[i] == p.parts[|root.parts| + i];
          }
        }
      }
      Some(rel)
    else None
  }

  lemma {:induction false} SplitPiecesHaveNoSlash(s: string)
    ensures forall i :: 0 <= i < |Split(s)| ==> '/' !in Split(s)[i]
    decreases |s|
  {
    if s != [] {
      SplitPiecesHaveNoSlash(s[1..]);
    }
  }

  lemma {:induction false} DropEmptyWellFormed(xs: seq<string>)
    requires forall i :: 0 <= i < |xs| ==> '/' !in xs[i]
    ensures forall i :: 0 <= i < |DropEmpty(xs)| ==> WellFormedPart(DropEmpty(xs)[i])
  {
    if xs != [] {
      DropEmptyWellFormed(xs[1..]);
    }
  }

  lemma {:induction false} DropEmptyKeepsWellFormed(xs: seq<string>)
    requires forall i :: 0 <= i < |xs| ==> WellFormedPart(xs[i])
    ensures DropEmpty(xs) == xs
  {
    if xs != [] {
      DropEmptyKeepsWellFormed(xs[1..]);
    }
  }

  lemma {:induction false} SplitWithoutSlash(a: string)
    requires '/' !in a
    ensures Split(a) == [a]
    decreases |a|
  {
    if a != [] {
      SplitWithoutSlash(a[1..]);
      assert a == [a[0]] + a[1..];
    }
  }

  lemma {:induction false} SplitAtSlash(a: string, rest: string)
    requires '/' !in a
    ensures Split(a + "/" + rest) == [a] + Split(rest)
    decreases |a|
  {
    var s := a + "/" + rest;
    if a == [] {
      assert s[1..] == rest;
    } else {
      assert s[1..] == a[1..] + "/" + rest;
      SplitAtSlash(a[1..], rest);
      assert [a[0]] + a[1..] == a;
    }
  }

  /** `'/'.join` followed by `split('/')` gives the components back. */
  lemma {:induction false} SplitJoin(parts: seq<string>)
    requires |parts| >= 1
    requires forall i :: 0 <= i < |parts| ==> '/' !in parts[i]
    ensures Split(Join(parts)) == parts
    decreases |parts|
  {
    if |parts| == 1 {
      SplitWithoutSlash(parts[0]);
    } else {
      SplitJoin(parts[1..]);
      SplitAtSlash(parts[0], Join(parts[1..]));
    }
  }

  lemma JoinFirst(parts: seq<string>)
    requires |parts| >= 1
    ensures |parts[0]| <= |Join(parts)| && Join(parts)[..|parts[0]|] == parts[0]
  {
    if |parts| > 1 {
      assert Join(parts) == parts[0] + ("/" + Join(parts[1..]));
    }
  }

  /** `'/'.join(parts)` ends with the last component. */
  lemma {:induction false} JoinEndsWithLast(parts: seq<string>)
    requires |parts| >= 1
    ensures EndsWith(Join(parts), parts[|parts| - 1])
    decreases |parts|
  {
    if |parts| > 1 {
      JoinEndsWithLast(parts[1..]);
      var tail := Join(parts[1..]);
      var a := parts[0] + "/";
      var n := |parts[|parts| - 1]|;
      assert Join(parts) == a + tail;
      assert (a + tail)[|a + tail| - n..] == tail[|tail| - n..];
    }
  }

  /** Round trip: parsing the `as_posix` form of a well-formed path gives the
      path back. */
  lemma ParseAsPosix(p: PurePath)
    requires WellFormed(p)
    ensures Parse(AsPosix(p)) == p
  {
    var s := AsPosix(p);
    if p.anchor == "" && p.parts == [] {
      assert s == "." && RootOf(s) == "" && s[0..] == s;
      assert Split(".") == ["."] by {
        assert "."[1..] == [] && "."[0] == '.' && Split([]) == [[]];
        assert ['.'] + [] == ".";
      }
      assert DropEmpty(["."]) == [] by { assert ["."][1..] == []; }
      assert Parse(s) == PurePath("", DropEmpty(Split(".")));
    } else {
      var tail := Join(p.parts);
      assert s == p.anchor + tail;
      if p.parts != [] {
        JoinFirst(p.parts);
        assert tail != [] && tail[0] != '/' by {
          assert tail[0] == p.parts[0][0];
          assert WellFormedPart(p.parts[0]);
        }
        SplitJoin(p.parts);
        DropEmptyKeepsWellFormed(p.parts);
      } else {
        assert Split(tail) == [""];
      }
      assert RootOf(s) == p.anchor;
      assert s[|p.anchor|..] == tail;
      assert DropEmpty(Split(tail)) == p.parts;
    }
  }

  /** `Path(x).as_posix()` is idempotent: a string already in that form is a
      fixed point. */
  lemma CanonicalIdempotent(s: string)
    ensures AsPosix(Parse(AsPosix(Parse(s)))) == AsPosix(Parse(s))
  {
    ParseAsPosix(Parse(s));
  }

  /** `relative_to` fails exactly when no relative path joined onto the root
      gives `p`; a match on the leading characters alone is not enough. */
  lemma RelativeToFailsIffOutside(p: PurePath, root: PurePath)
    ensures RelativeTo(p, root).None? <==>
      forall r: PurePath :: r.anchor == "" ==> JoinPath(root, r) != p
  {
    if RelativeTo(p, root).None? {
      forall r: PurePath | r.anchor == "" ensures JoinPath(root, r) != p {
        assert JoinPath(root, r).parts[..|root.parts|] == root.parts;
      }
    }
  }

  /** Joining a relative path onto the root and taking it relative again gives
      the relative path back. */
  lemma JoinPathRelativeTo(root: PurePath, r: PurePath)
    requires r.anchor == ""
    ensures RelativeTo(JoinPath(root, r), root) == Some(r)
  {
    var p := JoinPath(root, r);
    assert p.parts[..|root.parts|] == root.parts;
    assert p.parts[|root.parts|..] == r.parts;
  }

  /** `/home/userX/a.pdf` is not under `/home/user`, although the string of
      the second begins the string of the first. */
  lemma StringPrefixIsNotEnough()
    ensures AsPosix(PurePath("/", ["home", "user"])) == "/home/user"
    ensures AsPosix(PurePath("/", ["home", "userX", "a.pdf"])) == "/home/userX/a.pdf"
    ensures RelativeTo(PurePath("/", ["home", "userX", "a.pdf"]), PurePath("/", ["home", "user"])) == None
  {
    var p := PurePath("/", ["home", "userX", "a.pdf"]);
    assert p.parts[..2] != ["home", "user"] by {
      assert p.parts[..2][1] == "userX";
      assert |"userX"| != |"user"|;
    }
  }
}
