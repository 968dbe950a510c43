/** What `process_one_file` does to the database, as functions of the tables
    before it: the `srcfile` lookup, tree discovery, branch discovery and
    correlation, each pass a fold over the lines that stops at the first
    failure.  Line numbers are 1-based: the counter is incremented before a
    line is examined.  The database runs in autocommit mode, so the rows
    written before a failure stay written. */
module Passes {
  import opened Strings
  import opened TreePatterns
  import opened BranchPatterns
  import opened Shlex
  import opened Correlation
  import opened Tables

  /** The errors that end a run. */
  datatype Failure =
    | CannotOpen(filename: string)
      // `assert len(fids) == 1` on the `srcfile` lookup
    | SrcFileNotUnique(filename: string, count: nat)
      // a second sighting of a tree differs in title, variable or line
    | TreeInconsistent(filename: string, found: TreeRow, existing: TreeRow)
    | TreeNotUnique(filename: string, treename: string, count: nat)
    | UnrecognizedBranch(filename: string, fileline: nat, line: string)

  /** The state a pass carries from line to line: the tables, the two
      file-local maps `tid_by_tvarname` and `branchid_by_bvalvarname`, and
      the failure that stopped the pass, if any. */
  datatype Scan = Scan(db: Tables, tids: map<string, nat>, bids: map<string, nat>, failure: Option<Failure>)

  /** The outcome of a run: the tables as left, and the failure that ended it. */
  datatype Run = Run(db: Tables, failure: Option<Failure>)

  // ---------------------------------------------------------------- srcfile

  /** The `srcfile` lookup-or-insert: the file's id, or the failure when the
      table already holds the name more than once. */
  function RegisterFile(t: Tables, fn: string): (r: (Tables, Option<nat>)) {
    var fids := FileIds(t.srcfile, fn);
    if |fids| == 0 then (t.(srcfile := t.srcfile + [fn]), Some(|t.srcfile| + 1))
    else if |fids| == 1 then (t, Some(fids[0]))
    else (t, None)
  }

  // ---------------------------------------------------------- tree discovery

  /** The upsert of a tree creation seen on line `n`, under the key
      (treename, fileid): inserted when the key is new, checked against the
      stored row when it is not. */
  function TreeUpsert(s: Scan, fn: string, fid: nat, c: Creation, n: nat): (r: Scan) {
    var found := TreeRow(c.treename, c.treetitle, c.tvarname, fid, n);
    var ids := TreeIds(s.db.tree, c.treename, fid);
    if |ids| == 0 then
      s.(db := s.db.(tree := s.db.tree + [found]), tids := s.tids[c.tvarname := |s.db.tree| + 1])
    else if |ids| == 1 then
      var existing := s.db.tree[ids[0] - 1];
      if existing.treetitle != c.treetitle || existing.tvarname != c.tvarname || existing.fileline != n then
        s.(failure := Some(TreeInconsistent(fn, found, existing)))
      else
        s.(tids := s.tids[c.tvarname := ids[0]])
    else
      s.(failure := Some(TreeNotUnique(fn, c.treename, |ids|)))
  }

  /** One line of tree discovery: a line with a creation statement is upserted,
      any other line is skipped. */
  function TreeStep(s: Scan, fn: string, fid: nat, line: string, n: nat): (r: Scan) {
    match FindCreation(line)
    case None => s
    case Some(c) => TreeUpsert(s, fn, fid, c, n)
  }

  /** Tree discovery over `lines[i..]` (line `i + 1` onwards). */
  function TreesFrom(s: Scan, fn: string, fid: nat, lines: seq<string>, i: nat): (r: Scan)
    decreases |lines| - i
  {
    if i >= |lines| || s.failure.Some? then s
    else TreesFrom(TreeStep(s, fn, fid, lines[i], i + 1), fn, fid, lines, i + 1)
  }

  // -------------------------------------------------------- branch discovery

  /** The ghost tree for a tree variable this file never created: a row with
      the variable as its name, an empty title and line -1; the variable is
      then mapped to the first row with that name in the file. */
  function GhostTree(s: Scan, fid: nat, tvar: string): (r: Scan)
    ensures tvar in r.tids
  {
    var db := s.db.(tree := s.db.tree + [TreeRow(tvar, "", tvar, fid, -1)]);
    TreeIdsAppend(s.db.tree, TreeRow(tvar, "", tvar, fid, -1), tvar, fid);
    var ids := TreeIds(db.tree, tvar, fid);
    s.(db := db, tids := s.tids[tvar := ids[0]])
  }

  /** The tree variable as known after a Branch call on it: unchanged when
      known, a ghost tree otherwise. */
  function WithTree(s: Scan, fid: nat, tvar: string): (r: Scan)
    ensures tvar in r.tids
  {
    if tvar in s.tids then s else GhostTree(s, fid, tvar)
  }

  /** A recognised Branch call on line `n`: a ghost tree first when the tree
      variable is unknown, then the branch row, and the value variable mapped
      to the first branch with this tree and name. */
  function BranchRecord(s: Scan, fid: nat, tvar: string, bname: string, args: BranchArgs, n: nat): (r: Scan)
    requires !args.NoShape?
  {
    var s1 := WithTree(s, fid, tvar);
    var tid := s1.tids[tvar];
    var row := BranchRow(tid, bname, LeafDef(bname, args), ValVar(args), fid, n);
    var db := s1.db.(branch := s1.db.branch + [row]);
    BranchIdsAppend(s1.db.branch, row, tid, bname);
    var ids := BranchIds(db.branch, tid, bname);
    s1.(db := db, bids := s1.bids[ValVar(args) := ids[0]])
  }

  /** One line of branch discovery: a Branch call whose arguments fit one of
      the four shapes is recorded; one whose arguments fit none ends the run. */
  function BranchStep(s: Scan, fn: string, fid: nat, line: string, n: nat): (r: Scan) {
    match SearchFrom(MatchBranch, line, 0)
    case None => s
    case Some(f) =>
      var args := ClassifyArgs(f.hit.rest);
      if args.NoShape? then s.(failure := Some(UnrecognizedBranch(fn, n, line)))
      else BranchRecord(s, fid, f.hit.parts.TVar(), f.hit.parts.BName(), args, n)
  }

  function BranchesFrom(s: Scan, fn: string, fid: nat, lines: seq<string>, i: nat): (r: Scan)
    decreases |lines| - i
  {
    if i >= |lines| || s.failure.Some? then s
    else BranchesFrom(BranchStep(s, fn, fid, lines[i], i + 1), fn, fid, lines, i + 1)
  }

  // ------------------------------------------------------------- correlation

  datatype NoteKind = Comment | Assign

  predicate Flags(kind: NoteKind, line: string, bv: string) {
    match kind
    case Comment => HasComment(line, bv)
    case Assign => HasAssign(line, bv)
  }

  /** The rows of one kind a line yields for the identifiers `ks`, in order. */
  function NoteRows(kind: NoteKind, line: string, ks: seq<string>, bids: map<string, nat>, fid: nat, n: nat): (rows: seq<NoteRow>)
    requires forall k | 0 <= k < |ks| :: ks[k] in bids
    decreases |ks|
  {
    if ks == [] then []
    else
      var bv := ks[|ks| - 1];
      NoteRows(kind, line, ks[..|ks| - 1], bids, fid, n)
        + (if Flags(kind, line, bv) then [NoteRow(line, bids[bv], fid, n)] else [])
  }

  /** The identifiers the correlation pass considers on a stripped line. */
  function LineIdents(stripped: string, bids: map<string, nat>): (ks: seq<string>)
    ensures forall k | 0 <= k < |ks| :: ks[k] in bids
  {
    var ks := KeyIdents(Lex(stripped), bids.Keys);
    assert forall k | 0 <= k < |ks| :: ks[k] in ks;
    ks
  }

  /** The comment and assignment rows of stripped line `l` for the identifiers `ks`. */
  function AddNotes(t: Tables, bids: map<string, nat>, fid: nat, l: string, ks: seq<string>, n: nat): (r: Tables)
    requires forall k | 0 <= k < |ks| :: ks[k] in bids
  {
    t.(srccomment := t.srccomment + NoteRows(Comment, l, ks, bids, fid, n),
       srcassign := t.srcassign + NoteRows(Assign, l, ks, bids, fid, n))
  }

  /** One line of correlation: the rows of the stripped line for the known
      value identifiers among its tokens. */
  function CorrelateStep(t: Tables, bids: map<string, nat>, fid: nat, line: string, n: nat): (r: Tables) {
    var l := Strip(line);
    AddNotes(t, bids, fid, l, LineIdents(l, bids), n)
  }

  function CorrelateFrom(t: Tables, bids: map<string, nat>, fid: nat, lines: seq<string>, i: nat): (r: Tables)
    decreases |lines| - i
  {
    if i >= |lines| then t
    else CorrelateFrom(CorrelateStep(t, bids, fid, lines[i], i + 1), bids, fid, lines, i + 1)
  }

  // ------------------------------------------------------------------ a file

  /** The three passes over the lines of file `fid`, each run only when the
      one before it did not fail. */
  function ScanFile(t: Tables, fn: string, fid: nat, lines: seq<string>): (r: Run) {
    var s1 := TreesFrom(Scan(t, map[], map[], None), fn, fid, lines, 0);
    if s1.failure.Some? then Run(s1.db, s1.failure)
    else
      var s2 := BranchesFrom(Scan(s1.db, s1.tids, map[], None), fn, fid, lines, 0);
      if s2.failure.Some? then Run(s2.db, s2.failure)
      else Run(CorrelateFrom(s2.db, s2.bids, fid, lines, 0), None)
  }

  /** `process_one_file(fn, db)` on a file whose lines are `lines`. */
  function ProcessFile(t: Tables, fn: string, lines: seq<string>): (r: Run) {
    var (t1, fid) := RegisterFile(t, fn);
    if fid.None? then Run(t1, Some(SrcFileNotUnique(fn, |FileIds(t1.srcfile, fn)|)))
    else ScanFile(t1, fn, fid.value, lines)
  }

  /** The per-file loop of `fill_db_tables`: each listing line, stripped, names
      a file; `files` holds the contents of the files that can be opened. */
  function FillFrom(t: Tables, listing: seq<string>, files: map<string, seq<string>>, i: nat): (r: Run)
    decreases |listing| - i
  {
    if i >= |listing| then Run(t, None)
    else
      var fn := Strip(listing[i]);
      if fn !in files then Run(t, Some(CannotOpen(fn)))
      else
        var r := ProcessFile(t, fn, files[fn]);
        if r.failure.Some? then r else FillFrom(r.db, listing, files, i + 1)
  }
}
