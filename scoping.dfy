/** Cross-file isolation: processing a file only appends rows, every row it
    appends belongs to that file, and every reference it writes (a branch's
    tree, a comment's or an assignment's branch) stays inside that file.
    The two file-local maps are what keeps it so: every id they hold names a
    row of the file being processed. */
module Scoping {
  import opened Strings
  import opened TreePatterns
  import opened BranchPatterns
  import opened Tables
  import opened Passes
  import opened TreeProperties
  import opened BranchProperties
  import opened CorrelationProperties

  // ------------------------------------------------------------ growing tables

  /** A tree row of a known file may be appended. */
  lemma ScopedAddTree(t: Tables, row: TreeRow)
    requires FileScoped(t) && 1 <= row.fileid <= |t.srcfile|
    ensures FileScoped(t.(tree := t.tree + [row]))
  {
    var u := t.(tree := t.tree + [row]);
    assert forall i | 0 <= i < |t.tree| :: u.tree[i] == t.tree[i];
  }

  /** A branch row of a known file may be appended when its tree is of that
      file. */
  lemma ScopedAddBranch(t: Tables, row: BranchRow)
    requires FileScoped(t) && 1 <= row.fileid <= |t.srcfile|
    requires 1 <= row.treeid <= |t.tree| && t.tree[row.treeid - 1].fileid == row.fileid
    ensures FileScoped(t.(branch := t.branch + [row]))
  {
    var u := t.(branch := t.branch + [row]);
    assert forall i | 0 <= i < |t.branch| :: u.branch[i] == t.branch[i];
  }

  /** Comment and assignment rows of a known file may be appended when their
      branches are of that file. */
  lemma ScopedAddNotes(t: Tables, u: Tables, fid: nat)
    requires FileScoped(t) && 1 <= fid <= |t.srcfile|
    requires u == t.(srccomment := u.srccomment, srcassign := u.srcassign)
    requires t.srccomment <= u.srccomment && t.srcassign <= u.srcassign
    requires forall i | |t.srccomment| <= i < |u.srccomment| ::
      u.srccomment[i].fileid == fid && 1 <= u.srccomment[i].branchid <= |t.branch|
      && t.branch[u.srccomment[i].branchid - 1].fileid == fid
    requires forall i | |t.srcassign| <= i < |u.srcassign| ::
      u.srcassign[i].fileid == fid && 1 <= u.srcassign[i].branchid <= |t.branch|
      && t.branch[u.srcassign[i].branchid - 1].fileid == fid
    ensures FileScoped(u)
  {
    assert u.srcfile == t.srcfile && u.tree == t.tree && u.branch == t.branch;
    forall i | 0 <= i < |u.srccomment|
      ensures 1 <= u.srccomment[i].branchid <= |u.branch| && 1 <= u.srccomment[i].fileid <= |u.srcfile|
      ensures u.branch[u.srccomment[i].branchid - 1].fileid == u.srccomment[i].fileid
    {
      if i < |t.srccomment| {
        assert u.srccomment[i] == t.srccomment[i];
      }
    }
    forall i | 0 <= i < |u.srcassign|
      ensures 1 <= u.srcassign[i].branchid <= |u.branch| && 1 <= u.srcassign[i].fileid <= |u.srcfile|
      ensures u.branch[u.srcassign[i].branchid - 1].fileid == u.srcassign[i].fileid
    {
      if i < |t.srcassign| {
        assert u.srcassign[i] == t.srcassign[i];
      }
    }
  }

  /** A new file name keeps the tables file-scoped. */
  lemma ScopedAddFile(t: Tables, u: Tables)
    requires FileScoped(t) && u == t.(srcfile := u.srcfile) && |t.srcfile| <= |u.srcfile|
    ensures FileScoped(u)
  {
  }

  /** `u` is `t` with rows of file `fid` appended and no new file. */
  predicate Grows(t: Tables, u: Tables, fid: nat) {
    Extends(t, u) && AddedFor(t, u, fid) && u.srcfile == t.srcfile
  }

  lemma GrowsTrans(t: Tables, t1: Tables, u: Tables, fid: nat)
    requires Grows(t, t1, fid) && Grows(t1, u, fid)
    ensures Grows(t, u, fid)
  {
    assert forall i | |t.tree| <= i < |t1.tree| :: u.tree[i] == t1.tree[i];
    assert forall i | |t.branch| <= i < |t1.branch| :: u.branch[i] == t1.branch[i];
    assert forall i | |t.srccomment| <= i < |t1.srccomment| :: u.srccomment[i] == t1.srccomment[i];
    assert forall i | |t.srcassign| <= i < |t1.srcassign| :: u.srcassign[i] == t1.srcassign[i];
  }

  // ------------------------------------------------------------ owned maps

  /** Every tree id the tree-variable map holds names a tree row of `fid`. */
  predicate TidsOwned(s: Scan, fid: nat) {
    forall v | v in s.tids :: 1 <= s.tids[v] <= |s.db.tree| && s.db.tree[s.tids[v] - 1].fileid == fid
  }

  /** Every branch id the value-variable map holds names a branch row of `fid`. */
  predicate BidsOwned(s: Scan, fid: nat) {
    forall v | v in s.bids :: 1 <= s.bids[v] <= |s.db.branch| && s.db.branch[s.bids[v] - 1].fileid == fid
  }

  /** The invariant of a pass over file `fid`. */
  predicate Owned(s: Scan, fid: nat) {
    FileScoped(s.db) && 1 <= fid <= |s.db.srcfile| && TidsOwned(s, fid) && BidsOwned(s, fid)
  }

  /** Mapping a variable to a row of the file keeps a map owned while the
      table only grows. */
  lemma TidsUpdate(s: Scan, r: Scan, fid: nat, v: string, id: nat)
    requires TidsOwned(s, fid) && s.db.tree <= r.db.tree && r.tids == s.tids[v := id]
    requires 1 <= id <= |r.db.tree| && r.db.tree[id - 1].fileid == fid
    ensures TidsOwned(r, fid)
  {
    forall u | u in r.tids
      ensures 1 <= r.tids[u] <= |r.db.tree| && r.db.tree[r.tids[u] - 1].fileid == fid
    {
      if u != v {
        assert r.db.tree[s.tids[u] - 1] == s.db.tree[s.tids[u] - 1];
      }
    }
  }

  lemma BidsUpdate(s: Scan, r: Scan, fid: nat, v: string, id: nat)
    requires BidsOwned(s, fid) && s.db.branch <= r.db.branch && r.bids == s.bids[v := id]
    requires 1 <= id <= |r.db.branch| && r.db.branch[id - 1].fileid == fid
    ensures BidsOwned(r, fid)
  {
    forall u | u in r.bids
      ensures 1 <= r.bids[u] <= |r.db.branch| && r.db.branch[r.bids[u] - 1].fileid == fid
    {
      if u != v {
        assert r.db.branch[s.bids[u] - 1] == s.db.branch[s.bids[u] - 1];
      }
    }
  }

  // ------------------------------------------------------------- tree pass

  lemma TreeUpsertScoped(s: Scan, fn: string, fid: nat, c: Creation, n: nat)
    requires FileScoped(s.db) && 1 <= fid <= |s.db.srcfile|
    ensures FileScoped(TreeUpsert(s, fn, fid, c, n).db)
  {
    if |TreeIds(s.db.tree, c.treename, fid)| == 0 {
      ScopedAddTree(s.db, TreeRow(c.treename, c.treetitle, c.tvarname, fid, n));
    }
  }

  lemma TreeFoundTids(s: Scan, fn: string, fid: nat, c: Creation, n: nat)
    requires TidsOwned(s, fid) && |TreeIds(s.db.tree, c.treename, fid)| == 1
    ensures TidsOwned(TreeUpsert(s, fn, fid, c, n), fid)
  {
    var ids := TreeIds(s.db.tree, c.treename, fid);
    assert ids[0] in ids;
    var r := TreeUpsert(s, fn, fid, c, n);
    if r.failure.None? {
      TidsUpdate(s, r, fid, c.tvarname, ids[0]);
    }
  }

  lemma TreeInsertTids(s: Scan, fn: string, fid: nat, c: Creation, n: nat)
    requires TidsOwned(s, fid) && TreeIds(s.db.tree, c.treename, fid) == []
    ensures TidsOwned(TreeUpsert(s, fn, fid, c, n), fid)
  {
    var r := TreeUpsert(s, fn, fid, c, n);
    TidsUpdate(s, r, fid, c.tvarname, |r.db.tree|);
  }

  lemma TreeInsertOwned(s: Scan, fn: string, fid: nat, c: Creation, n: nat)
    requires Owned(s, fid) && TreeIds(s.db.tree, c.treename, fid) == []
    ensures Owned(TreeUpsert(s, fn, fid, c, n), fid)
  {
    TreeInsertTids(s, fn, fid, c, n);
    TreeUpsertScoped(s, fn, fid, c, n);
  }

  lemma TreeFoundOwned(s: Scan, fn: string, fid: nat, c: Creation, n: nat)
    requires Owned(s, fid) && |TreeIds(s.db.tree, c.treename, fid)| == 1
    ensures Owned(TreeUpsert(s, fn, fid, c, n), fid)
  {
    TreeFoundTids(s, fn, fid, c, n);
  }

  /** The upsert keeps the tables file-scoped and maps the tree variable to
      a tree of the file. */
  lemma TreeUpsertOwned(s: Scan, fn: string, fid: nat, c: Creation, n: nat)
    requires Owned(s, fid)
    ensures Owned(TreeUpsert(s, fn, fid, c, n), fid)
  {
    var ids := TreeIds(s.db.tree, c.treename, fid);
    if |ids| == 0 {
      TreeInsertOwned(s, fn, fid, c, n);
    } else if |ids| == 1 {
      TreeFoundOwned(s, fn, fid, c, n);
    }
  }

  lemma {:induction false} TreesFromOwned(s: Scan, fn: string, fid: nat, lines: seq<string>, i: nat)
    requires Owned(s, fid)
    ensures Owned(TreesFrom(s, fn, fid, lines, i), fid)
    decreases |lines| - i
  {
    if i < |lines| && s.failure.None? {
      var s1 := TreeStep(s, fn, fid, lines[i], i + 1);
      match FindCreation(lines[i]) {
        case None =>
        case Some(c) => TreeUpsertOwned(s, fn, fid, c, i + 1);
      }
      TreesFromOwned(s1, fn, fid, lines, i + 1);
    }
  }

  /** The tree pass appends tree rows of its file only. */
  lemma TreesFromGrows(s: Scan, fn: string, fid: nat, lines: seq<string>)
    ensures Grows(s.db, TreesFrom(s, fn, fid, lines, 0).db, fid)
  {
    TreesFromFrame(s, fn, fid, lines, 0);
  }

  // ----------------------------------------------------------- branch pass

  /** Making a tree variable known touches only `tree`, by appending. */
  lemma WithTreeFrame(s: Scan, fid: nat, tvar: string)
    ensures var r := WithTree(s, fid, tvar);
      r.db == s.db.(tree := r.db.tree) && s.db.tree <= r.db.tree
      && r.bids == s.bids && r.failure == s.failure
  {
  }

  lemma WithTreeScoped(s: Scan, fid: nat, tvar: string)
    requires FileScoped(s.db) && 1 <= fid <= |s.db.srcfile|
    ensures FileScoped(WithTree(s, fid, tvar).db)
  {
    WithTreeFrame(s, fid, tvar);
    if tvar !in s.tids {
      ScopedAddTree(s.db, TreeRow(tvar, "", tvar, fid, -1));
    }
  }

  /** The ghost row is appended and the variable mapped to the first row of
      its name in the file. */
  lemma GhostTreeRow(s: Scan, fid: nat, tvar: string)
    ensures var r := GhostTree(s, fid, tvar);
      var id := r.tids[tvar];
      r.tids == s.tids[tvar := id] && r.db.tree == s.db.tree + [TreeRow(tvar, "", tvar, fid, -1)]
      && 1 <= id <= |r.db.tree| && r.db.tree[id - 1].fileid == fid
  {
    var g := TreeRow(tvar, "", tvar, fid, -1);
    var r := GhostTree(s, fid, tvar);
    TreeIdsAppend(s.db.tree, g, tvar, fid);
    var ids := TreeIds(r.db.tree, tvar, fid);
    assert ids[0] in ids;
  }

  lemma GhostTids(s: Scan, fid: nat, tvar: string)
    requires TidsOwned(s, fid)
    ensures TidsOwned(GhostTree(s, fid, tvar), fid)
  {
    var r := GhostTree(s, fid, tvar);
    GhostTreeRow(s, fid, tvar);
    TidsUpdate(s, r, fid, tvar, r.tids[tvar]);
  }

  lemma WithTreeTids(s: Scan, fid: nat, tvar: string)
    requires TidsOwned(s, fid)
    ensures TidsOwned(WithTree(s, fid, tvar), fid)
  {
    if tvar !in s.tids {
      GhostTids(s, fid, tvar);
    }
  }

  /** The branch row of a recorded call refers to a tree of its own file. */
  lemma BranchRecordScoped(s: Scan, fid: nat, tvar: string, bname: string, args: BranchArgs, n: nat)
    requires !args.NoShape? && FileScoped(s.db) && 1 <= fid <= |s.db.srcfile| && TidsOwned(s, fid)
    ensures FileScoped(BranchRecord(s, fid, tvar, bname, args, n).db)
  {
    var s1 := WithTree(s, fid, tvar);
    WithTreeScoped(s, fid, tvar);
    WithTreeTids(s, fid, tvar);
    var tid := s1.tids[tvar];
    ScopedAddBranch(s1.db, BranchRow(tid, bname, LeafDef(bname, args), ValVar(args), fid, n));
  }

  /** A branch row of a scoped table whose tree is of file `fid` is of `fid`. */
  lemma ScopedBranchFile(t: Tables, b: nat, fid: nat)
    requires FileScoped(t) && 1 <= b <= |t.branch| && t.tree[t.branch[b - 1].treeid - 1].fileid == fid
    ensures t.branch[b - 1].fileid == fid
  {
  }

  /** The branch the value variable is mapped to is of the file. */
  lemma BranchRecordBidFile(s: Scan, fid: nat, tvar: string, bname: string, args: BranchArgs, n: nat)
    requires !args.NoShape? && FileScoped(s.db) && 1 <= fid <= |s.db.srcfile|
    requires TidsOwned(WithTree(s, fid, tvar), fid)
    ensures var r := BranchRecord(s, fid, tvar, bname, args, n);
      var bid := r.bids[ValVar(args)];
      1 <= bid <= |r.db.branch| && r.db.branch[bid - 1].fileid == fid
  {
    var s1 := WithTree(s, fid, tvar);
    var r := BranchRecord(s, fid, tvar, bname, args, n);
    WithTreeFrame(s, fid, tvar);
    BranchRecordValue(s, fid, tvar, bname, args, n);
    BranchRecordRow(s, fid, tvar, bname, args, n);
    var bid := r.bids[ValVar(args)];
    var tid := r.tids[tvar];
    assert r.tids == s1.tids && r.db.tree == s1.db.tree;
    assert 1 <= tid <= |s1.db.tree| && s1.db.tree[tid - 1].fileid == fid;
    if bid <= |s.db.branch| {
      assert r.db.branch[bid - 1] == s.db.branch[bid - 1];
      assert s.db.tree[tid - 1] == s1.db.tree[tid - 1];
      ScopedBranchFile(s.db, bid, fid);
    }
  }

  /** The value variable is mapped to a branch of the file. */
  lemma BranchRecordBids(s: Scan, fid: nat, tvar: string, bname: string, args: BranchArgs, n: nat)
    requires !args.NoShape? && FileScoped(s.db) && 1 <= fid <= |s.db.srcfile| && BidsOwned(s, fid)
    requires TidsOwned(WithTree(s, fid, tvar), fid)
    ensures BidsOwned(BranchRecord(s, fid, tvar, bname, args, n), fid)
  {
    var r := BranchRecord(s, fid, tvar, bname, args, n);
    BranchRecordBidFile(s, fid, tvar, bname, args, n);
    BranchRecordValue(s, fid, tvar, bname, args, n);
    BranchRecordRow(s, fid, tvar, bname, args, n);
    BidsUpdate(s, r, fid, ValVar(args), r.bids[ValVar(args)]);
  }

  lemma BranchRecordOwned(s: Scan, fid: nat, tvar: string, bname: string, args: BranchArgs, n: nat)
    requires !args.NoShape? && Owned(s, fid)
    ensures Owned(BranchRecord(s, fid, tvar, bname, args, n), fid)
  {
    BranchRecordScoped(s, fid, tvar, bname, args, n);
    WithTreeTids(s, fid, tvar);
    BranchRecordBids(s, fid, tvar, bname, args, n);
    BranchRecordTree(s, fid, tvar, bname, args, n);
  }

  lemma BranchStepOwned(s: Scan, fn: string, fid: nat, line: string, n: nat)
    requires Owned(s, fid)
    ensures Owned(BranchStep(s, fn, fid, line, n), fid)
  {
    match SearchFrom(MatchBranch, line, 0) {
      case None =>
      case Some(f) =>
        var args := ClassifyArgs(f.hit.rest);
        if !args.NoShape? {
          var tvar, bname := f.hit.parts.TVar(), f.hit.parts.BName();
          assert BranchStep(s, fn, fid, line, n) == BranchRecord(s, fid, tvar, bname, args, n);
          BranchRecordOwned(s, fid, tvar, bname, args, n);
        }
    }
  }

  lemma {:induction false} BranchesFromOwned(s: Scan, fn: string, fid: nat, lines: seq<string>, i: nat)
    requires Owned(s, fid)
    ensures Owned(BranchesFrom(s, fn, fid, lines, i), fid)
    decreases |lines| - i
  {
    if i < |lines| && s.failure.None? {
      BranchStepOwned(s, fn, fid, lines[i], i + 1);
      BranchesFromOwned(BranchStep(s, fn, fid, lines[i], i + 1), fn, fid, lines, i + 1);
    }
  }

  /** The branch pass appends tree and branch rows of its file only. */
  lemma BranchesFromGrows(s: Scan, fn: string, fid: nat, lines: seq<string>)
    requires s.failure.None?
    ensures Grows(s.db, BranchesFrom(s, fn, fid, lines, 0).db, fid)
  {
    BranchesFromFrame(s, fn, fid, lines, 0);
  }

  // ------------------------------------------------------------ correlation

  /** Notes that name branches of the value map keep the tables scoped. */
  lemma NotesScoped(t: Tables, u: Tables, bids: map<string, nat>, fid: nat)
    requires Owned(Scan(t, map[], bids, None), fid) && NotesFrame(t, u, bids, fid)
    ensures FileScoped(u) && Grows(t, u, fid)
  {
    forall b | b in bids.Values
      ensures 1 <= b <= |t.branch| && t.branch[b - 1].fileid == fid
    {
      var v :| v in bids && bids[v] == b;
    }
    ScopedAddNotes(t, u, fid);
  }

  lemma CorrelateFromScoped(t: Tables, bids: map<string, nat>, fid: nat, lines: seq<string>)
    requires Owned(Scan(t, map[], bids, None), fid)
    ensures var u := CorrelateFrom(t, bids, fid, lines, 0);
      FileScoped(u) && Grows(t, u, fid)
  {
    CorrelateFromFrame(t, bids, fid, lines, 0);
    NotesScoped(t, CorrelateFrom(t, bids, fid, lines, 0), bids, fid);
  }

  // ------------------------------------------------------------ whole files

  /** The three passes over file `fid` append rows of that file only and keep
      every reference inside the file, whether or not a pass fails. */
  lemma ScanFileScoped(t: Tables, fn: string, fid: nat, lines: seq<string>)
    requires FileScoped(t) && 1 <= fid <= |t.srcfile|
    ensures var r := ScanFile(t, fn, fid, lines);
      FileScoped(r.db) && Grows(t, r.db, fid)
  {
    var s0 := Scan(t, map[], map[], None);
    var s1 := TreesFrom(s0, fn, fid, lines, 0);
    TreesFromOwned(s0, fn, fid, lines, 0);
    TreesFromGrows(s0, fn, fid, lines);
    if s1.failure.None? {
      var b0 := Scan(s1.db, s1.tids, map[], None);
      var s2 := BranchesFrom(b0, fn, fid, lines, 0);
      assert Owned(b0, fid);
      BranchesFromOwned(b0, fn, fid, lines, 0);
      BranchesFromGrows(b0, fn, fid, lines);
      GrowsTrans(t, s1.db, s2.db, fid);
      if s2.failure.None? {
        assert Owned(Scan(s2.db, map[], s2.bids, None), fid);
        CorrelateFromScoped(s2.db, s2.bids, fid, lines);
        GrowsTrans(t, s2.db, CorrelateFrom(s2.db, s2.bids, fid, lines, 0), fid);
      }
    }
  }

  /** Registering a file keeps the tables file-scoped. */
  lemma RegisterFileScoped(t: Tables, fn: string)
    requires FileScoped(t)
    ensures FileScoped(RegisterFile(t, fn).0)
  {
    ScopedAddFile(t, RegisterFile(t, fn).0);
  }

  /** `process_one_file` touches no row of another file: it only appends,
      at most the file's name to `srcfile` and otherwise rows of this file,
      and keeps every reference inside its file. */
  lemma ProcessFileScoped(t: Tables, fn: string, lines: seq<string>)
    requires FileScoped(t)
    ensures var r := ProcessFile(t, fn, lines);
      var (t1, fid) := RegisterFile(t, fn);
      FileScoped(r.db) && Extends(t, r.db)
      && (r.db.srcfile == t.srcfile || r.db.srcfile == t.srcfile + [fn])
      && (fid.None? ==> r.db == t)
      && (fid.Some? ==> AddedFor(t, r.db, fid.value))
  {
    var (t1, fid) := RegisterFile(t, fn);
    RegisterFileOutcome(t, fn);
    RegisterFileScoped(t, fn);
    if fid.Some? {
      ScanFileScoped(t1, fn, fid.value, lines);
    }
  }

  /** Over the whole listing: the tables stay file-scoped and are only
      appended to. */
  lemma {:induction false} FillFromScoped(t: Tables, listing: seq<string>, files: map<string, seq<string>>, i: nat)
    requires FileScoped(t)
    ensures var r := FillFrom(t, listing, files, i);
      FileScoped(r.db) && Extends(t, r.db)
    decreases |listing| - i
  {
    if i < |listing| {
      var fn := Strip(listing[i]);
      if fn in files {
        var r := ProcessFile(t, fn, files[fn]);
        ProcessFileScoped(t, fn, files[fn]);
        if r.failure.None? {
          FillFromScoped(r.db, listing, files, i + 1);
        }
      }
    }
  }
}
