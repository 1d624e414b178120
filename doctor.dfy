/** The reconciler (zotfile_doctor.py, `iter_dir` and `main`): the keys found
    on disk, the two differences with the database keys, the report, and the
    optional unlinking of the files only found on disk. */
module Doctor {
  import opened Strings
  import opened Lexicographic
  import opened PurePaths
  import opened Database
  import opened FileSystem

  /** `rglob('*.pdf')` matches any entry below the root, file or directory,
      whose name ends in ".pdf" (case-sensitively, as on POSIX); such an
      entry has a non-empty path relative to the root. */
  predicate Globbed(e: PurePath, root: PurePath)
    ensures Globbed(e, root) ==> RelativeTo(e, root).Some? && RelativeTo(e, root).value.parts != []
  {
    IsAncestor(root, e) && EndsWith(e.parts[|e.parts| - 1], ".pdf")
  }

  /** `unicodedata.normalize('NFD', path.relative_to(directory).as_posix())`.
      Under an NFD that behaves like the real one, a disk key is relative, in
      `as_posix` form and fixed by NFD. */
  function DirKey(e: PurePath, root: PurePath, nfd: string -> string): (k: string)
    requires IsAncestor(root, e)
    ensures PathPreserving(nfd) && WellFormed(e) ==>
      AsPosix(Parse(k)) == k && Parse(k).anchor == "" && nfd(k) == k
  {
    var rel := RelativeTo(e, root).value;
    assert WellFormed(e) ==> Parse(AsPosix(rel)) == rel by {
      if WellFormed(e) {
        ParseAsPosix(rel);
      }
    }
    nfd(AsPosix(rel))
  }

  /** `set(iter_dir(directory))` over the entries of a volume: a key is on
      disk iff some globbed entry has it as the NFD form of its path relative
      to the root; under an NFD that behaves like the real one and for
      well-formed entries, every disk key is relative and in `as_posix`
      form. */
  function DirKeys(entries: set<PurePath>, root: PurePath, nfd: string -> string): (r: set<string>)
    ensures forall k :: k in r <==>
      exists e :: e in entries && Globbed(e, root) && k == nfd(AsPosix(RelativeTo(e, root).value))
    ensures PathPreserving(nfd) && (forall x :: x in entries ==> WellFormed(x)) ==>
      forall k :: k in r ==> AsPosix(Parse(k)) == k && Parse(k).anchor == ""
  {
    set e | e in entries && Globbed(e, root) :: DirKey(e, root, nfd)
  }

  /** The two lists and two totals `main` prints. */
  datatype Report = Report(dbNotDir: seq<string>, dbTotal: nat, dirNotDb: seq<string>, dirTotal: nat)

  /** The report of `main`: the sorted differences and the sizes of the two
      sets. */
  function Reconcile(db: set<string>, dir: set<string>): (r: Report)
    ensures Ascending(r.dbNotDir) && Ascending(r.dirNotDb)
    ensures forall k :: k in r.dbNotDir <==> k in db && k !in dir
    ensures forall k :: k in r.dirNotDb <==> k in dir && k !in db
    ensures r.dbTotal == |db| && r.dirTotal == |dir|
    ensures |r.dbNotDir| <= r.dbTotal && |r.dirNotDb| <= r.dirTotal
  {
    SubsetSize(db - dir, db);
    SubsetSize(dir - db, dir);
    Report(Sorted(db - dir), |db|, Sorted(dir - db), |dir|)
  }

  lemma SubsetSize(a: set<string>, b: set<string>)
    requires a <= b
    ensures |a| <= |b|
  {
    assert b == a + (b - a);
  }

  /** The two lists never share a key, and what neither list holds is the
      intersection: `D - dbNotDir == D ∩ S == S - dirNotDb`. */
  lemma ReportPartitions(db: set<string>, dir: set<string>)
    ensures forall k :: !(k in Reconcile(db, dir).dbNotDir && k in Reconcile(db, dir).dirNotDb)
    ensures (set k | k in db && k !in Reconcile(db, dir).dbNotDir) == db * dir
    ensures (set k | k in dir && k !in Reconcile(db, dir).dirNotDb) == db * dir
    ensures |Reconcile(db, dir).dbNotDir| + |db * dir| == |db|
  {
    var r := Reconcile(db, dir);
    assert db == (db - dir) + db * dir;
    assert |db| == |db - dir| + |db * dir|;
  }

  /** `dbNotDir` is `sorted(db - dir)`: any ascending listing of that set is it. */
  lemma ReportListsAreSorted(db: set<string>, dir: set<string>, xs: seq<string>, ys: seq<string>)
    requires Ascending(xs) && (forall k :: k in xs <==> k in db && k !in dir)
    requires Ascending(ys) && (forall k :: k in ys <==> k in dir && k !in db)
    ensures Reconcile(db, dir).dbNotDir == xs
    ensures Reconcile(db, dir).dirNotDb == ys
  {
    AscendingListingUnique(Reconcile(db, dir).dbNotDir, xs);
    AscendingListingUnique(Reconcile(db, dir).dirNotDb, ys);
  }

  /** The line `main` prints for each unlink attempt. */
  datatype UnlinkEvent = Unlinked(file: string) | FailedToUnlink(file: string)

  /** `directory / file`: a relative key names the path below the directory
      whose `relative_to` is the parsed key; an absolute key names itself. */
  function Target(root: PurePath, key: string): (p: PurePath)
    ensures Parse(key).anchor == "" ==> RelativeTo(p, root) == Some(Parse(key))
    ensures Parse(key).anchor != "" ==> p == Parse(key)
  {
    assert Parse(key).anchor == "" ==> RelativeTo(JoinPath(root, Parse(key)), root) == Some(Parse(key)) by {
      if Parse(key).anchor == "" {
        JoinPathRelativeTo(root, Parse(key));
      }
    }
    JoinPath(root, Parse(key))
  }

  /** The unlink targets of `keys`, in order: one per key, each below the
      directory at the key's relative path, or the key itself when absolute. */
  function UnlinkTargets(root: PurePath, keys: seq<string>): (r: seq<PurePath>)
    ensures |r| == |keys|
    ensures forall i :: 0 <= i < |keys| && Parse(keys[i]).anchor == "" ==>
      RelativeTo(r[i], root) == Some(Parse(keys[i]))
    ensures forall i :: 0 <= i < |keys| && Parse(keys[i]).anchor != "" ==> r[i] == Parse(keys[i])
  {
    seq(|keys|, i requires 0 <= i < |keys| => Target(root, keys[i]))
  }

  /** The effect of unlinking `targets` (the targets of `keys`) in order: one
      event per key, an unlink succeeds iff its target is a removable file not
      already removed by an earlier key, and the files removed are exactly the
      removable targets. */
  ghost predicate UnlinkedExactly(before: set<PurePath>, after: set<PurePath>, pinned: set<PurePath>,
                                  keys: seq<string>, targets: seq<PurePath>, log: seq<UnlinkEvent>)
  {
    && |log| == |keys| == |targets|
    && (forall i :: 0 <= i < |keys| ==> log[i].file == keys[i])
    && (forall i :: 0 <= i < |targets| ==>
          (log[i].Unlinked? <==> targets[i] in before && targets[i] !in pinned && targets[i] !in targets[..i]))
    && after == before - (set t | t in targets && t !in pinned)
  }

  /** One more unlink attempt extends the record by one event. */
  lemma UnlinkedStep(before: set<PurePath>, after: set<PurePath>, after': set<PurePath>, pinned: set<PurePath>,
                     keys: seq<string>, targets: seq<PurePath>, log: seq<UnlinkEvent>,
                     k: string, p: PurePath, ok: bool)
    requires UnlinkedExactly(before, after, pinned, keys, targets, log)
    requires ok <==> p in after && p !in pinned
    requires after' == if ok then after - {p} else after
    ensures UnlinkedExactly(before, after', pinned, keys + [k], targets + [p],
                            log + [if ok then Unlinked(k) else FailedToUnlink(k)])
  {
    var targets' := targets + [p];
    assert targets'[..|targets|] == targets;
    assert (set t | t in targets' && t !in pinned) == (set t | t in targets && t !in pinned) + (if p in pinned then {} else {p});
  }

  /** The unlink loop of `main`: every key is tried, a failure is logged and
      the loop goes on. */
  method UnlinkEach(vol: Volume, root: PurePath, keys: seq<string>) returns (log: seq<UnlinkEvent>)
    modifies vol`files
    ensures UnlinkedExactly(old(vol.files), vol.files, vol.pinned, keys, UnlinkTargets(root, keys), log)
  {
    log := [];
    var i := 0;
    while i < |keys|
      invariant 0 <= i <= |keys|
      invariant UnlinkedExactly(old(vol.files), vol.files, vol.pinned, keys[..i], UnlinkTargets(root, keys)[..i], log)
    {
      ghost var before := vol.files;
      var p := Target(root, keys[i]);
      var ok := vol.Unlink(p);
      UnlinkedStep(old(vol.files), before, vol.files, vol.pinned, keys[..i], UnlinkTargets(root, keys)[..i], log, keys[i], p, ok);
      if ok {
        log := log + [Unlinked(keys[i])];
      } else {
        log := log + [FailedToUnlink(keys[i])];
      }
      assert keys[..i + 1] == keys[..i] + [keys[i]];
      assert UnlinkTargets(root, keys)[..i + 1] == UnlinkTargets(root, keys)[..i] + [p];
      i := i + 1;
    }
    assert keys[..i] == keys;
    assert UnlinkTargets(root, keys)[..i] == UnlinkTargets(root, keys);
  }

  /** How a run ends: the uncaught exception from `iter_db`, or the report and
      the unlink events. */
  datatype Run = Aborted | Finished(report: Report, unlinks: seq<UnlinkEvent>)

  /** `main(db, directory, clean=clean)`. The database rows, the volume and
      the NFD function stand for the SQLite file, the disk and `unicodedata`. */
  method DoctorMain(vol: Volume, rows: seq<Attachment>, directory: string, clean: bool, nfd: string -> string)
    returns (run: Run)
    modifies vol`files
    ensures run.Aborted? <==> DbKeys(rows, Parse(directory), nfd).None?
    ensures run.Aborted? ==> vol.files == old(vol.files)
    ensures run.Finished? ==>
      run.report == Reconcile(DbKeys(rows, Parse(directory), nfd).value, old(DirKeys(vol.files + vol.dirs, Parse(directory), nfd)))
    ensures run.Finished? && (!clean || run.report.dirNotDb == []) ==>
      vol.files == old(vol.files) && run.unlinks == []
    ensures run.Finished? && clean ==>
      UnlinkedExactly(old(vol.files), vol.files, vol.pinned, run.report.dirNotDb,
                      UnlinkTargets(Parse(directory), run.report.dirNotDb), run.unlinks)
  {
    var root := Parse(directory);
    var db := DbKeys(rows, root, nfd);
    if db.None? {
      return Aborted;
    }
    var dir := DirKeys(vol.files + vol.dirs, root, nfd);
    var report := Reconcile(db.value, dir);
    if !(clean && |report.dirNotDb| > 0) {
      return Finished(report, []);
    }
    var log := UnlinkEach(vol, root, report.dirNotDb);
    return Finished(report, log);
  }

  /** What real NFD does to paths: it is idempotent, and it maps a path in
      `as_posix` form to one in the same form with the same anchor (it never
      creates or removes a '/' or a "." component). */
  ghost predicate PathPreserving(nfd: string -> string) {
    forall x :: nfd(nfd(x)) == nfd(x) &&
      (AsPosix(Parse(x)) == x ==> AsPosix(Parse(nfd(x))) == nfd(x) && Parse(nfd(x)).anchor == Parse(x).anchor)
  }

  /** The components of a globbed entry below the root. */
  function RelPart(e: PurePath, root: PurePath): (rel: PurePath)
    requires IsAncestor(root, e)
    ensures rel.anchor == "" && rel.parts != [] && JoinPath(root, rel) == e
  {
    assert e.parts == root.parts + e.parts[|root.parts|..];
    PurePath("", e.parts[|root.parts|..])
  }

  /** The unlink target of a disk key that NFD leaves unchanged is the entry
      the key was read from. */
  lemma TargetIsEntryWhenNfdFixesName(e: PurePath, root: PurePath, nfd: string -> string)
    requires WellFormed(e) && IsAncestor(root, e)
    requires nfd(AsPosix(RelPart(e, root))) == AsPosix(RelPart(e, root))
    ensures Target(root, DirKey(e, root, nfd)) == e
  {
    var rel := RelPart(e, root);
    assert WellFormed(rel) by {
      forall i | 0 <= i < |rel.parts| ensures WellFormedPart(rel.parts[i]) {
        assert rel.parts[i] == e.parts[|root.parts| + i];
      }
    }
    ParseAsPosix(rel);
  }

  /** When NFD changes the relative path of an entry (a composed character in
      its name), `directory / file` names a different path from the entry: the
      unlink of that orphan fails or hits another file. */
  lemma TargetMissesEntryWhenNfdRenames(e: PurePath, root: PurePath, nfd: string -> string)
    requires PathPreserving(nfd) && WellFormed(e) && IsAncestor(root, e)
    requires nfd(AsPosix(RelPart(e, root))) != AsPosix(RelPart(e, root))
    ensures Target(root, DirKey(e, root, nfd)) != e
  {
  }

  /** The file an unlink aims at for a disk-only key is never a globbed entry
      whose key the database holds. */
  lemma UnlinkTargetIsUnrecorded(entries: set<PurePath>, root: PurePath, nfd: string -> string,
                                 db: set<string>, k: string, e: PurePath)
    requires PathPreserving(nfd) && forall x :: x in entries ==> WellFormed(x)
    requires k in DirKeys(entries, root, nfd) && k !in db
    requires Globbed(e, root) && DirKey(e, root, nfd) in db
    ensures Target(root, k) != e
  {
  }

  /** A file that no unlink target names survives the loop. */
  lemma UntargetedFileSurvives(before: set<PurePath>, after: set<PurePath>, pinned: set<PurePath>,
                               keys: seq<string>, targets: seq<PurePath>, log: seq<UnlinkEvent>, e: PurePath)
    requires UnlinkedExactly(before, after, pinned, keys, targets, log)
    requires e in before && forall i :: 0 <= i < |targets| ==> targets[i] != e
    ensures e in after
  {
    assert e !in (set t | t in targets && t !in pinned);
  }

  /** Cleaning never deletes a file whose own disk key the database holds:
      when every key unlinked is a disk key missing from the database (as
      every key of the dir-only list is, by `Reconcile`), each unlinked file
      is the target of such a key, and such a file is not. */
  lemma CleanSparesRecordedFiles(entries: set<PurePath>, root: PurePath, nfd: string -> string,
                                 db: set<string>, keys: seq<string>, before: set<PurePath>,
                                 after: set<PurePath>, pinned: set<PurePath>, log: seq<UnlinkEvent>,
                                 e: PurePath)
    requires PathPreserving(nfd) && forall x :: x in entries ==> WellFormed(x)
    requires forall k :: k in keys ==> k in DirKeys(entries, root, nfd) && k !in db
    requires UnlinkedExactly(before, after, pinned, keys, UnlinkTargets(root, keys), log)
    requires e in before && Globbed(e, root) && DirKey(e, root, nfd) in db
    ensures e in after
  {
    var targets := UnlinkTargets(root, keys);
    forall i | 0 <= i < |targets| ensures targets[i] != e {
      assert keys[i] in keys;
      UnlinkTargetIsUnrecorded(entries, root, nfd, db, keys[i], e);
    }
    UntargetedFileSurvives(before, after, pinned, keys, targets, log, e);
  }

  /** The relative path of a globbed entry, and the entry itself, pass the
      database side's `.pdf` test. */
  lemma GlobbedIsPdf(e: PurePath, root: PurePath)
    requires Globbed(e, root)
    ensures HasPdfSuffix(AsPosix(RelPart(e, root))) && HasPdfSuffix(AsPosix(e))
  {
    var rel := RelPart(e, root);
    var name := e.parts[|e.parts| - 1];
    assert rel.parts[|rel.parts| - 1] == name;
    EndsWithTransitive(AsPosix(rel), name, ".pdf");
    EndsWithTransitive(AsPosix(e), name, ".pdf");
    EndsWithPdf(AsPosix(rel));
    EndsWithPdf(AsPosix(e));
  }

  /** A file recorded by a selected row as "attachments:" followed by its
      path below the managed directory is in both sets and in neither list. */
  lemma RelativeRecordMatchesFile(rows: seq<Attachment>, i: int, entries: set<PurePath>,
                                  root: PurePath, nfd: string -> string, e: PurePath)
    requires PathPreserving(nfd)
    requires e in entries && Globbed(e, root) && WellFormed(e)
    requires 0 <= i < |rows| && Selected(rows[i])
    requires rows[i].path == Text(Marker + AsPosix(RelPart(e, root)))
    requires !Occurs(AsPosix(RelPart(e, root)), Marker)
    requires forall j :: 0 <= j < |rows| && Selected(rows[j]) ==> rows[j].path.Text? || rows[j].path.Blob?
    ensures DbKeys(rows, root, nfd).Some?
    ensures var k := DirKey(e, root, nfd);
      && k in DbKeys(rows, root, nfd).value && k in DirKeys(entries, root, nfd)
      && k !in Reconcile(DbKeys(rows, root, nfd).value, DirKeys(entries, root, nfd)).dbNotDir
      && k !in Reconcile(DbKeys(rows, root, nfd).value, DirKeys(entries, root, nfd)).dirNotDb
  {
    IterDbCompletes(rows, root, nfd);
    var x := AsPosix(RelPart(e, root));
    GlobbedIsPdf(e, root);
    MarkedRelativePath(x, root, nfd);
    assert nfd(x) in IterDb(rows, root, nfd).keys;
  }

  /** A file recorded by a selected row as its absolute path, under an
      absolute managed directory, is in both sets and in neither list. */
  lemma AbsoluteRecordMatchesFile(rows: seq<Attachment>, i: int, entries: set<PurePath>,
                                  root: PurePath, nfd: string -> string, e: PurePath)
    requires PathPreserving(nfd) && WellFormed(root) && root.anchor != ""
    requires e in entries && Globbed(e, root) && WellFormed(e)
    requires 0 <= i < |rows| && Selected(rows[i])
    requires rows[i].path == Text(AsPosix(e)) && !Occurs(AsPosix(e), Marker)
    requires forall j :: 0 <= j < |rows| && Selected(rows[j]) ==> rows[j].path.Text? || rows[j].path.Blob?
    ensures DbKeys(rows, root, nfd).Some?
    ensures var k := DirKey(e, root, nfd);
      && k in DbKeys(rows, root, nfd).value && k in DirKeys(entries, root, nfd)
      && k !in Reconcile(DbKeys(rows, root, nfd).value, DirKeys(entries, root, nfd)).dbNotDir
      && k !in Reconcile(DbKeys(rows, root, nfd).value, DirKeys(entries, root, nfd)).dirNotDb
  {
    IterDbCompletes(rows, root, nfd);
    var rel := RelPart(e, root);
    GlobbedIsPdf(e, root);
    assert WellFormed(rel) by {
      forall j | 0 <= j < |rel.parts| ensures WellFormedPart(rel.parts[j]) {
        assert rel.parts[j] == e.parts[|root.parts| + j];
      }
    }
    AbsolutePathUnderRoot(root, rel, nfd);
    assert nfd(AsPosix(rel)) in IterDb(rows, root, nfd).keys;
  }

  /** The key set of a single row recording "attachments:" followed by the
      absolute path of a globbed entry: that path, through NFD, still
      absolute. */
  lemma MarkedAbsoluteRecordKey(row: Attachment, root: PurePath, nfd: string -> string, e: PurePath)
    requires PathPreserving(nfd)
    requires Globbed(e, root) && WellFormed(e)
    requires Selected(row) && row.path == Text(Marker + AsPosix(e)) && !Occurs(AsPosix(e), Marker)
    ensures DbKeys([row], root, nfd) == Some({nfd(AsPosix(e))})
    ensures Parse(nfd(AsPosix(e))).anchor == root.anchor
  {
    var x := AsPosix(e);
    assert NormalizeRow(row.path, root, nfd) == Key(nfd(x)) by {
      GlobbedIsPdf(e, root);
      MarkedRelativePath(x, root, nfd);
    }
    SingleRowKeys(row, root, nfd);
    assert AsPosix(Parse(nfd(x))) == nfd(x) && Parse(nfd(x)).anchor == e.anchor by {
      ParseAsPosix(e);
    }
  }

  /** A record of "attachments:" followed by the absolute path of a file
      under an absolute directory keeps its anchor once the marker is
      removed, so it never equals the file's relative disk key. When it is
      the file's only record, the file's key is in the dir-only list, and its
      unlink target is the very file the record names. */
  lemma MarkedAbsoluteRecordIsUnlinked(row: Attachment, entries: set<PurePath>, root: PurePath,
                                       nfd: string -> string, e: PurePath)
    requires PathPreserving(nfd) && root.anchor != ""
    requires e in entries && Globbed(e, root) && WellFormed(e)
    requires Selected(row) && row.path == Text(Marker + AsPosix(e)) && !Occurs(AsPosix(e), Marker)
    requires nfd(AsPosix(RelPart(e, root))) == AsPosix(RelPart(e, root))
    ensures DbKeys([row], root, nfd).Some?
    ensures DirKey(e, root, nfd) !in DbKeys([row], root, nfd).value
    ensures DirKey(e, root, nfd) in Reconcile(DbKeys([row], root, nfd).value, DirKeys(entries, root, nfd)).dirNotDb
    ensures Target(root, DirKey(e, root, nfd)) == e == Parse(RemoveAll(Marker + AsPosix(e), Marker))
  {
    var k := DirKey(e, root, nfd);
    var db := DbKeys([row], root, nfd);
    assert db == Some({nfd(AsPosix(e))}) && k !in db.value by {
      MarkedAbsoluteRecordKey(row, root, nfd, e);
      assert Parse(k).anchor == "";
    }
    assert k in DirKeys(entries, root, nfd) by {
      assert k == nfd(AsPosix(RelativeTo(e, root).value));
    }
    assert Target(root, k) == e by {
      TargetIsEntryWhenNfdFixesName(e, root, nfd);
    }
    assert Parse(RemoveAll(Marker + AsPosix(e), Marker)) == e by {
      RemoveLeadingMarker(AsPosix(e));
      ParseAsPosix(e);
    }
  }
}
