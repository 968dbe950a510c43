/** `process_one_file` and the per-file loop of `fill_db_tables`, as the
    source runs them: three passes over the lines, each with its line counter,
    the file-local maps updated in place, and every insert followed by the
    SELECT whose result the next step uses.  Each method is proved to leave
    the database, the maps and the failure exactly as the functions of
    `Passes` say; a RuntimeError or failed assertion of the source is a
    returned `Failure`. */
module Scraper {
  import opened Strings
  import opened TreePatterns
  import opened BranchPatterns
  import opened Shlex
  import opened Correlation
  import opened Tables
  import opened Passes
  import opened Repository

  /** The upsert of the tree created on line `n`: SELECT by key, INSERT and
      SELECT again when there is no row, then check that exactly one row
      holds this title, variable and line. */
  method UpsertTree(db: Database, fn: string, fid: nat, c: Creation, n: nat, tids: map<string, nat>)
    returns (tids': map<string, nat>, failure: Option<Failure>)
    modifies db
    ensures Scan(db.State(), tids', map[], failure) == TreeUpsert(Scan(old(db.State()), tids, map[], None), fn, fid, c, n)
  {
    tids' := tids;
    failure := None;
    ghost var t0 := db.State();
    ghost var ids := TreeIds(t0.tree, c.treename, fid);
    var found := TreeRow(c.treename, c.treetitle, c.tvarname, fid, n);
    var tchecks := db.SelectTrees(c.treename, fid);
    if |tchecks| == 0 {
      db.InsertTree(found);
      tchecks := db.SelectTrees(c.treename, fid);
      TreeIdsAppend(t0.tree, found, c.treename, fid);
    }
    if |tchecks| == 1 {
      var existing := tchecks[0].1;
      if existing.treetitle != c.treetitle || existing.tvarname != c.tvarname || existing.fileline != n {
        failure := Some(TreeInconsistent(fn, found, existing));
        return;
      }
    } else {
      failure := Some(TreeNotUnique(fn, c.treename, |tchecks|));
      return;
    }
    tids' := tids[c.tvarname := tchecks[0].0];
  }

  /** The tree-discovery body for line `n`. */
  method TreeLine(db: Database, fn: string, fid: nat, line: string, n: nat, tids: map<string, nat>)
    returns (tids': map<string, nat>, failure: Option<Failure>)
    modifies db
    ensures Scan(db.State(), tids', map[], failure) == TreeStep(Scan(old(db.State()), tids, map[], None), fn, fid, line, n)
  {
    var m := FindCreation(line);
    if m.None? {
      return tids, None;
    }
    tids', failure := UpsertTree(db, fn, fid, m.value, n, tids);
  }

  /** The first pass: tree discovery. */
  method DiscoverTrees(db: Database, fn: string, fid: nat, lines: seq<string>)
    returns (tids: map<string, nat>, failure: Option<Failure>)
    modifies db
    ensures Scan(db.State(), tids, map[], failure) == TreesFrom(Scan(old(db.State()), map[], map[], None), fn, fid, lines, 0)
  {
    tids := map[];
    failure := None;
    var fileline := 0;
    while fileline < |lines| && failure.None?
      invariant 0 <= fileline <= |lines|
      invariant TreesFrom(Scan(db.State(), tids, map[], failure), fn, fid, lines, fileline)
             == TreesFrom(Scan(old(db.State()), map[], map[], None), fn, fid, lines, 0)
      decreases |lines| - fileline
    {
      ghost var before := Scan(db.State(), tids, map[], None);
      var line := lines[fileline];
      fileline := fileline + 1;
      tids, failure := TreeLine(db, fn, fid, line, fileline, tids);
      assert TreesFrom(before, fn, fid, lines, fileline - 1) == TreesFrom(Scan(db.State(), tids, map[], failure), fn, fid, lines, fileline);
    }
  }

  /** The tree of a Branch call: a ghost tree row, and its id read back,
      when the tree variable was not created in this file. */
  method EnsureTree(db: Database, fid: nat, tvar: string, tids: map<string, nat>, bids: map<string, nat>)
    returns (tids': map<string, nat>)
    modifies db
    ensures Scan(db.State(), tids', bids, None) == WithTree(Scan(old(db.State()), tids, bids, None), fid, tvar)
  {
    tids' := tids;
    if tvar !in tids {
      ghost var before := db.tree;
      var ghostRow := TreeRow(tvar, "", tvar, fid, -1);
      db.InsertTree(ghostRow);
      var ids := db.SelectTreeIds(tvar, fid);
      TreeIdsAppend(before, ghostRow, tvar, fid);
      tids' := tids[tvar := ids[0]];
    }
  }

  /** The rows of a recognised Branch call on line `n`. */
  method RecordBranch(db: Database, fid: nat, tvar: string, bname: string, args: BranchArgs, n: nat,
                      tids: map<string, nat>, bids: map<string, nat>)
    returns (tids': map<string, nat>, bids': map<string, nat>)
    requires !args.NoShape?
    modifies db
    ensures Scan(db.State(), tids', bids', None) == BranchRecord(Scan(old(db.State()), tids, bids, None), fid, tvar, bname, args, n)
  {
    var bvalvarname, bleafdef := ValVar(args), LeafDef(bname, args);
    tids' := EnsureTree(db, fid, tvar, tids, bids);
    var tid := tids'[tvar];
    ghost var before := db.branch;
    var row := BranchRow(tid, bname, bleafdef, bvalvarname, fid, n);
    db.InsertBranch(row);
    var bidsel := db.SelectBranchIds(tid, bname);
    BranchIdsAppend(before, row, tid, bname);
    bids' := bids[bvalvarname := bidsel[0]];
  }

  /** The branch-discovery body for line `n`: the argument cascade picks the
      shape, and a call that fits none ends the run. */
  method BranchLine(db: Database, fn: string, fid: nat, line: string, n: nat,
                    tids: map<string, nat>, bids: map<string, nat>)
    returns (tids': map<string, nat>, bids': map<string, nat>, failure: Option<Failure>)
    modifies db
    ensures Scan(db.State(), tids', bids', failure) == BranchStep(Scan(old(db.State()), tids, bids, None), fn, fid, line, n)
  {
    var m := SearchFrom(MatchBranch, line, 0);
    if m.None? {
      return tids, bids, None;
    }
    var args := ClassifyArgs(m.value.hit.rest);
    if args.NoShape? {
      return tids, bids, Some(UnrecognizedBranch(fn, n, line));
    }
    tids', bids' := RecordBranch(db, fid, m.value.hit.parts.TVar(), m.value.hit.parts.BName(), args, n, tids, bids);
    failure := None;
  }

  /** The second pass: branch discovery, starting from the trees of the first. */
  method DiscoverBranches(db: Database, fn: string, fid: nat, lines: seq<string>, tids0: map<string, nat>)
    returns (tids: map<string, nat>, bids: map<string, nat>, failure: Option<Failure>)
    modifies db
    ensures Scan(db.State(), tids, bids, failure) == BranchesFrom(Scan(old(db.State()), tids0, map[], None), fn, fid, lines, 0)
  {
    tids, bids, failure := tids0, map[], None;
    var fileline := 0;
    while fileline < |lines| && failure.None?
      invariant 0 <= fileline <= |lines|
      invariant BranchesFrom(Scan(db.State(), tids, bids, failure), fn, fid, lines, fileline)
             == BranchesFrom(Scan(old(db.State()), tids0, map[], None), fn, fid, lines, 0)
      decreases |lines| - fileline
    {
      ghost var before := Scan(db.State(), tids, bids, None);
      var line := lines[fileline];
      fileline := fileline + 1;
      tids, bids, failure := BranchLine(db, fn, fid, line, fileline, tids, bids);
      assert BranchesFrom(before, fn, fid, lines, fileline - 1) == BranchesFrom(Scan(db.State(), tids, bids, failure), fn, fid, lines, fileline);
    }
  }

  /** For each identifier of `bvs` in turn, a comment row and an assignment
      row for stripped line `l` as the two tests decide. */
  method InsertNotes(db: Database, bids: map<string, nat>, fid: nat, l: string, bvs: seq<string>, n: nat)
    requires forall k | 0 <= k < |bvs| :: bvs[k] in bids
    modifies db
    ensures db.State() == AddNotes(old(db.State()), bids, fid, l, bvs, n)
  {
    var i := 0;
    while i < |bvs|
      invariant 0 <= i <= |bvs|
      invariant db.State() == AddNotes(old(db.State()), bids, fid, l, bvs[..i], n)
    {
      var bv := bvs[i];
      var branchid := bids[bv];
      if HasComment(l, bv) {
        db.InsertComment(NoteRow(l, branchid, fid, n));
      }
      if HasAssign(l, bv) {
        db.InsertAssign(NoteRow(l, branchid, fid, n));
      }
      assert bvs[..i + 1][..i] == bvs[..i];
      i := i + 1;
    }
    assert bvs[..i] == bvs;
  }

  /** The correlation body for line `n`. */
  method CorrelateLine(db: Database, bids: map<string, nat>, fid: nat, line: string, n: nat)
    modifies db
    ensures db.State() == CorrelateStep(old(db.State()), bids, fid, line, n)
  {
    var l := Strip(line);
    var bvs := LineIdents(l, bids);
    InsertNotes(db, bids, fid, l, bvs, n);
  }

  /** The third pass: correlation. */
  method Correlate(db: Database, bids: map<string, nat>, fid: nat, lines: seq<string>)
    modifies db
    ensures db.State() == CorrelateFrom(old(db.State()), bids, fid, lines, 0)
  {
    var fileline := 0;
    while fileline < |lines|
      invariant 0 <= fileline <= |lines|
      invariant CorrelateFrom(db.State(), bids, fid, lines, fileline) == CorrelateFrom(old(db.State()), bids, fid, lines, 0)
      decreases |lines| - fileline
    {
      ghost var before := db.State();
      var line := lines[fileline];
      fileline := fileline + 1;
      CorrelateLine(db, bids, fid, line, fileline);
      assert CorrelateFrom(before, bids, fid, lines, fileline - 1) == CorrelateFrom(db.State(), bids, fid, lines, fileline);
    }
  }

  /** The `srcfile` lookup-or-insert: SELECT by name, INSERT and SELECT again
      when there is no row; the ids found are returned. */
  method RegisterSrcFile(db: Database, fn: string) returns (fids: seq<nat>)
    modifies db
    ensures db.State() == RegisterFile(old(db.State()), fn).0
    ensures fids == FileIds(db.srcfile, fn)
    ensures RegisterFile(old(db.State()), fn).1 == if |fids| == 1 then Some(fids[0]) else None
  {
    fids := db.SelectFileIds(fn);
    if |fids| == 0 {
      ghost var before := db.srcfile;
      db.InsertSrcFile(fn);
      fids := db.SelectFileIds(fn);
      FileIdsAppend(before, fn, fn);
    }
  }

  /** The three passes over the lines of file `fid`. */
  method ScanLines(db: Database, fn: string, fid: nat, lines: seq<string>) returns (failure: Option<Failure>)
    modifies db
    ensures Run(db.State(), failure) == ScanFile(old(db.State()), fn, fid, lines)
  {
    var tids, bids;
    tids, failure := DiscoverTrees(db, fn, fid, lines);
    if failure.Some? {
      return;
    }
    tids, bids, failure := DiscoverBranches(db, fn, fid, lines, tids);
    if failure.Some? {
      return;
    }
    Correlate(db, bids, fid, lines);
  }

  /** `process_one_file(fn, db)` on a file whose lines are `lines`; the
      `assert len(fids) == 1` of the source is the `SrcFileNotUnique` failure. */
  method ProcessOneFile(db: Database, fn: string, lines: seq<string>) returns (failure: Option<Failure>)
    modifies db
    ensures Run(db.State(), failure) == ProcessFile(old(db.State()), fn, lines)
  {
    var fids := RegisterSrcFile(db, fn);
    if |fids| != 1 {
      return Some(SrcFileNotUnique(fn, |fids|));
    }
    failure := ScanLines(db, fn, fids[0], lines);
  }

  /** The loop of `fill_db_tables` over the listing: each line, stripped, is a
      file name; `files` maps each file that can be opened to its lines.  The
      first failure ends the run, with the rows written so far kept. */
  method FillDbTables(db: Database, listing: seq<string>, files: map<string, seq<string>>) returns (failure: Option<Failure>)
    modifies db
    ensures Run(db.State(), failure) == FillFrom(old(db.State()), listing, files, 0)
  {
    var i := 0;
    while i < |listing|
      invariant 0 <= i <= |listing|
      invariant FillFrom(db.State(), listing, files, i) == FillFrom(old(db.State()), listing, files, 0)
    {
      var fn := Strip(listing[i]);
      if fn !in files {
        return Some(CannotOpen(fn));
      }
      failure := ProcessOneFile(db, fn, files[fn]);
      if failure.Some? {
        return;
      }
      i := i + 1;
    }
    failure := None;
  }
}
