/** The database side of the check: the rows the attachment query selects and
    the key each selected row contributes (zotfile_doctor.py, `iter_db`). */
module Database {
  import opened Strings
  import opened PurePaths

  /** A value held by an SQLite column (SQLite types each value, not each
      column). */
  datatype Cell = Null | Integer(i: int) | Real(r: real) | Text(s: string) | Blob(bytes: seq<bv8>)

  /** The columns of one `itemAttachments` row that the query reads. */
  datatype Attachment = Attachment(path: Cell, linkMode: Cell, contentType: Cell)

  /** SQL's three truth values. */
  datatype Truth = Yes | No | Unknown

  function And(a: Truth, b: Truth): Truth {
    if a == No || b == No then No else if a == Yes && b == Yes then Yes else Unknown
  }

  function Or(a: Truth, b: Truth): Truth {
    if a == Yes || b == Yes then Yes else if a == No && b == No then No else Unknown
  }

  /** `column = n` for a column of INTEGER affinity: a number compares by
      value, text and blobs never equal a number, NULL gives Unknown. */
  function EqualsNumber(c: Cell, n: int): Truth {
    match c
    case Null => Unknown
    case Integer(i) => if i == n then Yes else No
    case Real(r) => if r == n as real then Yes else No
    case Text(_) => No
    case Blob(_) => No
  }

  /** `column = "text"` for a column of TEXT affinity (binary collation). */
  function EqualsText(c: Cell, t: string): Truth {
    match c
    case Null => Unknown
    case Text(s) => if s == t then Yes else No
    case _ => No
  }

  const PdfType: string := "application/pdf"

  /** A link-mode cell that holds the number `n`. */
  predicate IsCode(c: Cell, n: int) {
    c == Integer(n) || c == Real(n as real)
  }

  /** The WHERE clause `linkMode = 2 or linkMode = 3 and contentType =
      "application/pdf"`, with AND binding tighter than OR; a row is returned
      only when the clause is true. In two-valued terms: the link mode is 2,
      or the link mode is 3 and the content type is "application/pdf". */
  predicate Selected(row: Attachment)
    ensures Selected(row) <==>
      IsCode(row.linkMode, 2) || (IsCode(row.linkMode, 3) && row.contentType == Text(PdfType))
  {
    Or(EqualsNumber(row.linkMode, 2),
       And(EqualsNumber(row.linkMode, 3), EqualsText(row.contentType, PdfType))) == Yes
  }

  /** Because of the precedence, link-mode-2 rows pass whatever their content
      type, and rows of any other link mode than 2 and 3 never pass. */
  lemma LinkModeDecides(row: Attachment)
    ensures IsCode(row.linkMode, 2) ==> Selected(row)
    ensures !IsCode(row.linkMode, 2) && !IsCode(row.linkMode, 3) ==> !Selected(row)
    ensures IsCode(row.linkMode, 3) ==> (Selected(row) <==> row.contentType == Text(PdfType))
  {
  }

  /** Why a selected row contributes nothing: the raw path does not end in
      `.pdf`, is not a string (a blob), or lies outside the managed directory. */
  datatype SkipReason = NotPdf | NotText | OutsideRoot

  /** What one selected row turns into. `Raised` is the AttributeError that
      `.lower()` raises on NULL and on numbers: it is not among the caught
      exceptions and ends the whole run. */
  datatype Normalized = Key(key: string) | Skipped(reason: SkipReason) | Raised

  /** The body of `iter_db`'s loop for one row's path cell. */
  function NormalizeRow(path: Cell, root: PurePath, nfd: string -> string): (r: Normalized)
    ensures r.Raised? <==> path.Null? || path.Integer? || path.Real?
    ensures r == Skipped(NotText) <==> path.Blob?
    ensures r.Key? ==> path.Text? && HasPdfSuffix(path.s)
    ensures path.Text? && !HasPdfSuffix(path.s) ==> r == Skipped(NotPdf)
  {
    match path
    case Text(s) =>
      if !HasPdfSuffix(s) then Skipped(NotPdf)
      else if Count(s, Marker) > 0 then Key(nfd(RemoveAll(s, Marker)))
      else (
        match RelativeTo(Parse(s), root)
        case None => Skipped(OutsideRoot)
        case Some(rel) => Key(nfd(AsPosix(rel))))
    case Blob(_) => Skipped(NotText)
    case _ => Raised
  }

  /** A `.pdf` path holding the marker anywhere yields the path with every
      marker removed, whatever the managed directory is. */
  lemma MarkerPathIgnoresRoot(s: string, root: PurePath, nfd: string -> string)
    requires HasPdfSuffix(s) && Occurs(s, Marker)
    ensures NormalizeRow(Text(s), root, nfd) == Key(nfd(RemoveAll(s, Marker)))
    ensures HasPdfSuffix(RemoveAll(s, Marker))
  {
    RemoveMarkerKeepsPdfSuffix(s);
  }

  /** Without the marker, a `.pdf` path yields a key exactly when it lies
      under the managed directory, component by component; the key is the
      NFD form of the components below the root, and joined back onto the
      root they name the recorded file. */
  lemma UnmarkedPathIsRelativised(s: string, root: PurePath, nfd: string -> string)
    requires HasPdfSuffix(s) && !Occurs(s, Marker)
    ensures NormalizeRow(Text(s), root, nfd).Key? <==>
      exists rel: PurePath :: rel.anchor == "" && JoinPath(root, rel) == Parse(s)
    ensures NormalizeRow(Text(s), root, nfd).Key? ==>
      exists rel: PurePath ::
        && rel.anchor == "" && JoinPath(root, rel) == Parse(s)
        && WellFormed(rel)
        && NormalizeRow(Text(s), root, nfd).key == nfd(AsPosix(rel))
    ensures !NormalizeRow(Text(s), root, nfd).Key? ==>
      NormalizeRow(Text(s), root, nfd) == Skipped(OutsideRoot)
  {
    RelativeToFailsIffOutside(Parse(s), root);
  }

  /** A relative path stored behind the marker yields that path. */
  lemma MarkedRelativePath(rel: string, root: PurePath, nfd: string -> string)
    requires HasPdfSuffix(rel) && !Occurs(rel, Marker)
    ensures NormalizeRow(Text(Marker + rel), root, nfd) == Key(nfd(rel))
  {
    assert OccursAt(Marker + rel, Marker, 0);
    RemoveLeadingMarker(rel);
    assert (Marker + rel)[|Marker + rel| - 4..] == rel[|rel| - 4..];
    PdfSuffixDependsOnLastFour(Marker + rel, rel);
    MarkerPathIgnoresRoot(Marker + rel, root, nfd);
  }

  /** An absolute path written out under the managed directory yields the
      components below the root. */
  lemma AbsolutePathUnderRoot(root: PurePath, rel: PurePath, nfd: string -> string)
    requires WellFormed(root) && root.anchor != ""
    requires WellFormed(rel) && rel.anchor == ""
    requires HasPdfSuffix(AsPosix(JoinPath(root, rel)))
    requires !Occurs(AsPosix(JoinPath(root, rel)), Marker)
    ensures NormalizeRow(Text(AsPosix(JoinPath(root, rel))), root, nfd) == Key(nfd(AsPosix(rel)))
  {
    var p := JoinPath(root, rel);
    ParseAsPosix(p);
    JoinPathRelativeTo(root, rel);
  }

  /** The outcome of draining `iter_db`: the keys in row order, or the
      uncaught exception that ends the run. */
  datatype Scan = Crashed | Keys(keys: seq<string>)

  /** `iter_db`: the keys of the selected rows, in order, skipping the rows
      the normaliser skips; the first raising row ends the scan. */
  function IterDb(rows: seq<Attachment>, root: PurePath, nfd: string -> string): (r: Scan)
    ensures r.Crashed? <==>
      exists i :: 0 <= i < |rows| && Selected(rows[i]) && NormalizeRow(rows[i].path, root, nfd).Raised?
    ensures r.Keys? ==> forall k :: k in r.keys <==>
      exists i :: 0 <= i < |rows| && Selected(rows[i]) && NormalizeRow(rows[i].path, root, nfd) == Key(k)
    ensures r.Keys? ==> |r.keys| <= |rows|
    decreases |rows|
  {
    if rows == [] then Keys([])
    else
      var rest := IterDb(rows[1..], root, nfd);
      assert forall i :: 1 <= i < |rows| ==> rows[i] == rows[1..][i - 1];
      if !Selected(rows[0]) then rest
      else
        match NormalizeRow(rows[0].path, root, nfd)
        case Raised => Crashed
        case Skipped(_) => rest
        case Key(k) => if rest.Crashed? then Crashed else Keys([k] + rest.keys)
  }

  /** `{Path(x).as_posix() for x in iter_db(...)}`, or `None` when the scan
      raised. A key is in the set iff some selected row normalises to a key
      whose `as_posix` form it is, and every key is already in that form. */
  function DbKeys(rows: seq<Attachment>, root: PurePath, nfd: string -> string): (r: Option<set<string>>)
    ensures r.None? <==> IterDb(rows, root, nfd).Crashed?
    ensures r.Some? ==> forall k :: k in r.value <==>
      exists i :: 0 <= i < |rows| && Selected(rows[i]) && NormalizeRow(rows[i].path, root, nfd).Key? &&
        k == AsPosix(Parse(NormalizeRow(rows[i].path, root, nfd).key))
    ensures r.Some? ==> forall k :: k in r.value ==> AsPosix(Parse(k)) == k
  {
    match IterDb(rows, root, nfd)
    case Crashed => None
    case Keys(ks) =>
      var r := set k | k in ks :: AsPosix(Parse(k));
      assert forall k :: k in r ==> AsPosix(Parse(k)) == k by {
        forall k | k in r ensures AsPosix(Parse(k)) == k {
          var x :| x in ks && k == AsPosix(Parse(x));
          CanonicalIdempotent(x);
        }
      }
      Some(r)
  }

  /** The scan completes when no selected row has a NULL or numeric path. */
  lemma IterDbCompletes(rows: seq<Attachment>, root: PurePath, nfd: string -> string)
    requires forall j :: 0 <= j < |rows| && Selected(rows[j]) ==> rows[j].path.Text? || rows[j].path.Blob?
    ensures DbKeys(rows, root, nfd).Some?
  {
  }

  /** A key reaches the database set only through a selected row whose path
      is a `.pdf` string and normalises to a key of which it is the
      `as_posix` form. */
  lemma DbKeyComesFromPdfRow(rows: seq<Attachment>, root: PurePath, nfd: string -> string, k: string)
    requires DbKeys(rows, root, nfd).Some? && k in DbKeys(rows, root, nfd).value
    ensures exists i ::
      && 0 <= i < |rows| && Selected(rows[i]) && rows[i].path.Text? && HasPdfSuffix(rows[i].path.s)
      && NormalizeRow(rows[i].path, root, nfd).Key?
      && k == AsPosix(Parse(NormalizeRow(rows[i].path, root, nfd).key))
  {
    var i :| 0 <= i < |rows| && Selected(rows[i]) && NormalizeRow(rows[i].path, root, nfd).Key? &&
      k == AsPosix(Parse(NormalizeRow(rows[i].path, root, nfd).key));
  }

  /** With a relative managed directory, `relative_to` refuses every absolute
      path: an unmarked absolute record is skipped as outside the directory,
      whatever file it names. */
  lemma RelativeDirectorySkipsAbsoluteRecord(s: string, root: PurePath, nfd: string -> string)
    requires root.anchor == "" && Parse(s).anchor != ""
    requires HasPdfSuffix(s) && !Occurs(s, Marker)
    ensures NormalizeRow(Text(s), root, nfd) == Skipped(OutsideRoot)
  {
  }

  lemma SingleRowScan(row: Attachment, root: PurePath, nfd: string -> string)
    requires Selected(row) && NormalizeRow(row.path, root, nfd).Key?
    ensures IterDb([row], root, nfd) == Keys([NormalizeRow(row.path, root, nfd).key])
  {
    assert [row][1..] == [];
    assert IterDb([], root, nfd) == Keys([]);
  }

  /** A single selected row that normalises to a key gives the database
      exactly the `as_posix` form of that key. */
  lemma SingleRowKeys(row: Attachment, root: PurePath, nfd: string -> string)
    requires Selected(row) && NormalizeRow(row.path, root, nfd).Key?
    ensures DbKeys([row], root, nfd) == Some({AsPosix(Parse(NormalizeRow(row.path, root, nfd).key))})
  {
    var k := NormalizeRow(row.path, root, nfd).key;
    var keys := set x | x in [k] :: AsPosix(Parse(x));
    assert keys == {AsPosix(Parse(k))} by {
      assert forall y :: y in keys <==> y == AsPosix(Parse(k));
    }
    assert DbKeys([row], root, nfd) == Some(keys) by {
      SingleRowScan(row, root, nfd);
    }
  }
}
