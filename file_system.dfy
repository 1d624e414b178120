/** The file system as the cleanup sees it: which paths are regular files and
    which are directories, with removal that can fail, and
    `remove_empty_dirs` (zotfile_doctor.py:60-67). */
module FileSystem {
  import opened PurePaths

  /** `a` is a proper parent directory of `p`, component by component. */
  predicate IsAncestor(a: PurePath, p: PurePath) {
    a.anchor == p.anchor && |a.parts| < |p.parts| && p.parts[..|a.parts|] == a.parts
  }

  /** `p` is an entry directly inside directory `d`. */
  predicate IsChild(p: PurePath, d: PurePath) {
    IsAncestor(d, p) && |p.parts| == |d.parts| + 1
  }

  /** Directory `d` holds at least one entry. */
  predicate HasChildIn(files: set<PurePath>, dirs: set<PurePath>, d: PurePath) {
    exists e :: e in files + dirs && IsChild(e, d)
  }

  /** `parent / name` */
  function Child(parent: PurePath, name: string): (p: PurePath)
    ensures name != "" ==> IsChild(p, parent)
  {
    PurePath(parent.anchor, parent.parts + [name])
  }

  /** Removing an entry that is not inside `d` leaves `d` as full as it was. */
  lemma RemovingOtherEntryKeepsChild(files: set<PurePath>, dirs: set<PurePath>, d: PurePath, c: PurePath)
    requires HasChildIn(files, dirs, d) && !IsChild(c, d)
    ensures HasChildIn(files, dirs - {c}, d)
  {
    var e :| e in files + dirs && IsChild(e, d);
    assert e in files + (dirs - {c});
  }

  /** A directory that is empty stays empty when entries are removed. */
  lemma EmptyStaysEmpty(files: set<PurePath>, dirs: set<PurePath>, dirs': set<PurePath>, d: PurePath)
    requires dirs' <= dirs && !HasChildIn(files, dirs, d)
    ensures !HasChildIn(files, dirs', d)
  {
  }

  /** A volume: the paths of its regular files and of its directories. The
      entries in `pinned` cannot be removed (permissions, a busy mount). */
  class Volume {
    var files: set<PurePath>
    var dirs: set<PurePath>
    const pinned: set<PurePath>

    constructor (files: set<PurePath>, dirs: set<PurePath>, pinned: set<PurePath>)
      ensures this.files == files && this.dirs == dirs && this.pinned == pinned
    {
      this.files := files;
      this.dirs := dirs;
      this.pinned := pinned;
    }

    /** `p.unlink()`: succeeds, and removes the file, exactly when `p` is a
        regular file the process may remove; otherwise an OSError. */
    method Unlink(p: PurePath) returns (ok: bool)
      modifies this`files
      ensures ok <==> p in old(files) && p !in pinned
      ensures files == if ok then old(files) - {p} else old(files)
    {
      ok := p in files && p !in pinned;
      if ok {
        files := files - {p};
      }
    }

    /** `p.rmdir()`: succeeds, and removes the directory, exactly when `p` is
        an empty directory the process may remove; otherwise an OSError. */
    method Rmdir(p: PurePath) returns (ok: bool)
      modifies this`dirs
      ensures ok <==> p in old(dirs) && p !in pinned && !HasChildIn(files, old(dirs), p)
      ensures dirs == if ok then old(dirs) - {p} else old(dirs)
    {
      ok := p in dirs && p !in pinned && !HasChildIn(files, dirs, p);
      if ok {
        dirs := dirs - {p};
      }
    }
  }

  /** One triple of `os.walk(directory, topdown=False)`: a directory and the
      names of the subdirectories it held when it was listed. */
  datatype WalkStep = WalkStep(root: PurePath, subdirs: seq<string>)

  /** The `rmdir` targets of one step, in order: one per listed name, each
      directly inside the step's directory. */
  function Targets(step: WalkStep): (r: seq<PurePath>)
    ensures |r| == |step.subdirs|
    ensures forall i :: 0 <= i < |r| && step.subdirs[i] != "" ==> IsChild(r[i], step.root)
  {
    seq(|step.subdirs|, i requires 0 <= i < |step.subdirs| => Child(step.root, step.subdirs[i]))
  }

  /** Every `rmdir` target of the walk, in the order they are tried: a path
      is tried iff it is a target of some step. */
  function Attempts(walk: seq<WalkStep>): (r: seq<PurePath>)
    ensures forall d :: d in r <==> exists i :: 0 <= i < |walk| && d in Targets(walk[i])
  {
    if walk == [] then []
    else
      assert forall i :: 1 <= i < |walk| ==> walk[i] == walk[1..][i - 1];
      Targets(walk[0]) + Attempts(walk[1..])
  }

  /** Bottom-up order: a directory is tried only after everything below it. */
  ghost predicate BottomUp(attempts: seq<PurePath>) {
    forall i, j :: 0 <= i < j < |attempts| ==> !IsAncestor(attempts[i], attempts[j])
  }

  ghost predicate Pruned(files: set<PurePath>, dirs0: set<PurePath>, dirs: set<PurePath>,
                         pinned: set<PurePath>, tried: seq<PurePath>)
  {
    && dirs <= dirs0
    && (forall d :: d in dirs0 && d !in tried ==> d in dirs)
    && (forall d :: d in dirs0 && d !in dirs ==> d !in pinned && !HasChildIn(files, dirs, d))
    && (forall d :: d in tried && d in dirs ==> d in pinned || HasChildIn(files, dirs, d))
  }

  /** One `rmdir` attempt keeps the pruning invariant over the tried prefix. */
  lemma PrunedStep(files: set<PurePath>, dirs0: set<PurePath>, dirs: set<PurePath>, dirs': set<PurePath>,
                   pinned: set<PurePath>, tried: seq<PurePath>, c: PurePath, removed: bool)
    requires Pruned(files, dirs0, dirs, pinned, tried)
    requires forall d :: d in tried ==> !IsAncestor(d, c)
    requires removed <==> c in dirs && c !in pinned && !HasChildIn(files, dirs, c)
    requires dirs' == if removed then dirs - {c} else dirs
    ensures Pruned(files, dirs0, dirs', pinned, tried + [c])
  {
    forall d | d in tried + [c] && d in dirs' ensures d in pinned || HasChildIn(files, dirs', d) {
      if d != c && d !in pinned {
        assert d in tried;
        assert !IsChild(c, d);
        RemovingOtherEntryKeepsChild(files, dirs, d, c);
      }
    }
    forall d | d in dirs0 && d !in dirs' ensures d !in pinned && !HasChildIn(files, dirs', d) {
      EmptyStaysEmpty(files, dirs, dirs', d);
    }
  }

  /** In a bottom-up walk, nothing tried earlier lies above the next target. */
  lemma EarlierTriesAreNotAbove(tried: seq<PurePath>, d: PurePath, rest: seq<PurePath>, all: seq<PurePath>)
    requires tried + [d] + rest == all && BottomUp(all)
    ensures forall e :: e in tried ==> !IsAncestor(e, d)
  {
    forall e | e in tried ensures !IsAncestor(e, d) {
      var k :| 0 <= k < |tried| && tried[k] == e;
      assert all[k] == e && all[|tried|] == d;
    }
  }

  /** Once every listed directory has been tried, the walk's guarantees turn
      the invariant into the final state `remove_empty_dirs` promises. */
  lemma PrunedAll(files: set<PurePath>, dirs0: set<PurePath>, dirs: set<PurePath>,
                  pinned: set<PurePath>, all: seq<PurePath>, top: PurePath)
    requires Pruned(files, dirs0, dirs, pinned, all)
    requires forall d :: d in all ==> IsAncestor(top, d)
    requires forall d :: d in dirs0 && IsAncestor(top, d) ==> d in all
    ensures top in dirs0 ==> top in dirs
    ensures forall d :: d in dirs0 && !IsAncestor(top, d) ==> d in dirs
    ensures forall d :: d in dirs && IsAncestor(top, d) ==> d in pinned || HasChildIn(files, dirs, d)
  {
    assert !IsAncestor(top, top);
  }

  /** The inner loop of `remove_empty_dirs`: `rmdir` on each subdirectory of
      one walk step, failures ignored. `tried` is what the walk tried before,
      `rest` what it tries after. */
  method RmdirEach(vol: Volume, step: WalkStep, ghost dirs0: set<PurePath>,
                   ghost tried: seq<PurePath>, ghost rest: seq<PurePath>, ghost all: seq<PurePath>)
    returns (ghost tried': seq<PurePath>)
    requires tried + Targets(step) + rest == all && BottomUp(all)
    requires Pruned(vol.files, dirs0, vol.dirs, vol.pinned, tried)
    modifies vol`dirs
    ensures tried' == tried + Targets(step)
    ensures Pruned(vol.files, dirs0, vol.dirs, vol.pinned, tried')
  {
    tried' := tried;
    var j := 0;
    while j < |step.subdirs|
      invariant 0 <= j <= |step.subdirs|
      invariant tried' == tried + Targets(step)[..j]
      invariant Pruned(vol.files, dirs0, vol.dirs, vol.pinned, tried')
    {
      var d := Child(step.root, step.subdirs[j]);
      assert Targets(step)[..j + 1] == Targets(step)[..j] + [d];
      assert tried' + [d] + (Targets(step)[j + 1..] + rest) == all by {
        assert Targets(step) == Targets(step)[..j] + [d] + Targets(step)[j + 1..];
      }
      EarlierTriesAreNotAbove(tried', d, Targets(step)[j + 1..] + rest, all);
      ghost var before := vol.dirs;
      var removed := vol.Rmdir(d);
      PrunedStep(vol.files, dirs0, before, vol.dirs, vol.pinned, tried', d, removed);
      tried' := tried' + [d];
      j := j + 1;
    }
    assert Targets(step)[..j] == Targets(step);
  }

  /** `remove_empty_dirs(top)`: tries `rmdir` on every subdirectory the walk
      lists, deepest first, ignoring failures. Afterwards no directory below
      `top` is empty unless it is pinned, every removed directory was empty,
      no file is touched and `top` itself stays. */
  method RemoveEmptyDirs(vol: Volume, top: PurePath, walk: seq<WalkStep>)
    requires forall d :: d in Attempts(walk) ==> IsAncestor(top, d)
    requires forall d :: d in vol.dirs && IsAncestor(top, d) ==> d in Attempts(walk)
    requires BottomUp(Attempts(walk))
    modifies vol`dirs
    ensures vol.files == old(vol.files)
    ensures vol.dirs <= old(vol.dirs)
    ensures top in old(vol.dirs) ==> top in vol.dirs
    ensures forall d :: d in old(vol.dirs) && !IsAncestor(top, d) ==> d in vol.dirs
    ensures forall d :: d in old(vol.dirs) && d !in vol.dirs ==>
      d !in vol.pinned && !HasChildIn(vol.files, vol.dirs, d)
    ensures forall d :: d in vol.dirs && IsAncestor(top, d) ==>
      d in vol.pinned || HasChildIn(vol.files, vol.dirs, d)
  {
    ghost var all := Attempts(walk);
    ghost var tried: seq<PurePath> := [];
    var i := 0;
    while i < |walk|
      invariant 0 <= i <= |walk|
      invariant tried + Attempts(walk[i..]) == all
      invariant Pruned(vol.files, old(vol.dirs), vol.dirs, vol.pinned, tried)
    {
      assert walk[i..] == [walk[i]] + walk[i + 1..];
      tried := RmdirEach(vol, walk[i], old(vol.dirs), tried, Attempts(walk[i + 1..]), all);
      i := i + 1;
    }
    assert tried == all;
    PrunedAll(vol.files, old(vol.dirs), vol.dirs, vol.pinned, all, top);
  }
}
