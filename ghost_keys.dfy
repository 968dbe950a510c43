/** Ghost trees and the natural key (treename, fileid).  The branch pass
    inserts a ghost tree without looking its key up, so a Branch call on a
    tree variable spelled like a tree name the file creates, or a second run
    over a file with a ghost tree, leaves two rows under one key.  As
    written, only the created trees keep their key unique.  A ghost step that
    first looks the key up and reuses the row it finds keeps every key
    unique, over a whole run. */
module GhostKeys {
  import opened Strings
  import opened TreePatterns
  import opened BranchPatterns
  import opened Tables
  import opened Passes
  import opened TreeProperties
  import opened BranchProperties
  import opened CorrelationProperties
  import opened Scenarios

  // ------------------------------------------------ as written: two rows

  /** A Branch call on a variable this file has not mapped, whose name
      already keys a tree row of the file (a created tree of that name, or
      the ghost of an earlier run), adds a second row under that key. */
  lemma GhostRepeatsKey(s: Scan, fid: nat, tvar: string, bname: string, args: BranchArgs, n: nat)
    requires !args.NoShape? && tvar !in s.tids && TreeIds(s.db.tree, tvar, fid) != []
    ensures var r := BranchRecord(s, fid, tvar, bname, args, n);
      |r.db.tree| == |s.db.tree| + 1 && !UniqueTreeKeys(r.db.tree)
  {
    var r := BranchRecord(s, fid, tvar, bname, args, n);
    BranchRecordTree(s, fid, tvar, bname, args, n);
    var ids := TreeIds(s.db.tree, tvar, fid);
    assert ids[0] in ids;
    var i, j := ids[0] - 1, |s.db.tree|;
    assert r.db.tree[i] == s.db.tree[i] && r.db.tree[j] == TreeRow(tvar, "", tvar, fid, -1);
  }

  /** A tree created as `a = owner->make<TTree>("x", "title")`, then a
      Branch call on a variable spelled `x`. */
  function DupFile(a: string, owner: string, x: string, title: string, bname: string, v: string, leaf: string): seq<string> {
    [CreateLine(a, owner, x, title, ""), LeafLine(x, bname, 1, v, leaf, "")]
  }

  predicate DupParts(a: string, owner: string, x: string, title: string, bname: string, v: string, w: string, tail: string) {
    IsWord(a) && IsWord(owner) && IsWord(x) && IsWord(bname) && IsWord(v) && IsWord(w) && IsLeafTail(tail)
    && NoNewline(title) && NoQuoteIn(title) && 'B' !in a + owner + x + title && a != x
  }

  /** The tree pass over two lines of which the first alone creates a tree. */
  lemma TwoLineTrees(fn: string, l0: string, l1: string, c: Creation)
    requires FindCreation(l0) == Some(c) && FindCreation(l1).None?
    ensures TreesFrom(Scan(Tables([fn], [], [], [], []), map[], map[], None), fn, 1, [l0, l1], 0)
         == Scan(Tables([fn], [TreeRow(c.treename, c.treetitle, c.tvarname, 1, 1)], [], [], []), map[c.tvarname := 1], map[], None)
  {
    var lines := [l0, l1];
    assert lines[0] == l0 && lines[1] == l1;
    var s0 := Scan(Tables([fn], [], [], [], []), map[], map[], None);
    FirstTreeUpsert(fn, c);
    var s1 := TreeUpsert(s0, fn, 1, c, 1);
    assert TreesFrom(s0, fn, 1, lines, 0) == TreesFrom(s1, fn, 1, lines, 1);
    assert TreesFrom(s1, fn, 1, lines, 1) == TreesFrom(s1, fn, 1, lines, 2);
  }

  /** The ghost of `x` next to the created tree `tr` named `x`: the ghost row
      is appended, and `x` is mapped to `tr`, the first row under the key. */
  lemma GhostBesideCreated(fn: string, tr: TreeRow, a: string, bname: string, args: BranchArgs)
    requires !args.NoShape? && tr.fileid == 1 && tr.treename != a
    ensures var x := tr.treename;
      BranchRecord(Scan(Tables([fn], [tr], [], [], []), map[a := 1], map[], None), 1, x, bname, args, 2)
      == Scan(Tables([fn], [tr, TreeRow(x, "", x, 1, -1)], [BranchRow(1, bname, LeafDef(bname, args), ValVar(args), 1, 2)], [], []),
              map[a := 1, x := 1], map[ValVar(args) := 1], None)
  {
    var x := tr.treename;
    var g := TreeRow(x, "", x, 1, -1);
    TreeIdsAppend([], tr, x, 1);
    assert [] + [tr] == [tr];
    TreeIdsAppend([tr], g, x, 1);
    var row := BranchRow(1, bname, LeafDef(bname, args), ValVar(args), 1, 2);
    BranchIdsAppend([], row, 1, bname);
    assert [] + [row] == [row];
  }

  /** The branch pass over two lines of which the second alone calls
      `Branch`, on the name of the file's one tree. */
  lemma TwoLineBranches(fn: string, l0: string, l1: string, tr: TreeRow, a: string, bname: string, args: BranchArgs)
    requires !args.NoShape? && tr.fileid == 1 && tr.treename != a
    requires SearchFrom(MatchBranch, l0, 0).None? && BranchOn(l1, tr.treename, bname, args)
    ensures var x := tr.treename;
      BranchesFrom(Scan(Tables([fn], [tr], [], [], []), map[a := 1], map[], None), fn, 1, [l0, l1], 0)
      == Scan(Tables([fn], [tr, TreeRow(x, "", x, 1, -1)], [BranchRow(1, bname, LeafDef(bname, args), ValVar(args), 1, 2)], [], []),
              map[a := 1, x := 1], map[ValVar(args) := 1], None)
  {
    var lines := [l0, l1];
    assert lines[0] == l0 && lines[1] == l1;
    var s1 := Scan(Tables([fn], [tr], [], [], []), map[a := 1], map[], None);
    GhostBesideCreated(fn, tr, a, bname, args);
    var s2 := BranchRecord(s1, 1, tr.treename, bname, args, 2);
    assert BranchesFrom(s1, fn, 1, lines, 0) == BranchesFrom(s1, fn, 1, lines, 1);
    BranchStepOn(s1, fn, 1, lines[1], 2, tr.treename, bname, args);
    assert BranchesFrom(s1, fn, 1, lines, 1) == BranchesFrom(s2, fn, 1, lines, 2);
  }

  /** `process_one_file` on a fresh database and a two-line file: the first
      line creates the tree `c`, named `x`, the second calls `Branch` on a
      variable `x`; the run succeeds with two tree rows under (x, 1). */
  lemma TwoLineRun(fn: string, l0: string, l1: string, c: Creation, bname: string, args: BranchArgs)
    requires !args.NoShape? && c.treename != c.tvarname
    requires FindCreation(l0) == Some(c) && FindCreation(l1).None?
    requires SearchFrom(MatchBranch, l0, 0).None? && BranchOn(l1, c.treename, bname, args)
    ensures var r := ProcessFile(Tables([], [], [], [], []), fn, [l0, l1]);
      r.failure.None?
      && r.db.tree == [TreeRow(c.treename, c.treetitle, c.tvarname, 1, 1), TreeRow(c.treename, "", c.treename, 1, -1)]
      && r.db.branch == [BranchRow(1, bname, LeafDef(bname, args), ValVar(args), 1, 2)]
  {
    var x := c.treename;
    var tr := TreeRow(x, c.treetitle, c.tvarname, 1, 1);
    TwoLineTrees(fn, l0, l1, c);
    var s1 := Scan(Tables([fn], [tr], [], [], []), map[c.tvarname := 1], map[], None);
    TwoLineBranches(fn, l0, l1, tr, c.tvarname, bname, args);
    var s2 := Scan(Tables([fn], [tr, TreeRow(x, "", x, 1, -1)], [BranchRow(1, bname, LeafDef(bname, args), ValVar(args), 1, 2)], [], []),
                   map[c.tvarname := 1, x := 1], map[ValVar(args) := 1], None);
    var t3 := CorrelateFrom(s2.db, s2.bids, 1, [l0, l1], 0);
    CorrelateFromFrame(s2.db, s2.bids, 1, [l0, l1], 0);
    ProcessFresh(fn, [l0, l1], s1, s2, t3);
  }

  /** Two rows under one key break key uniqueness. */
  lemma SharedKey(r0: TreeRow, r1: TreeRow)
    requires r0.treename == r1.treename && r0.fileid == r1.fileid
    ensures !UniqueTreeKeys([r0, r1])
  {
    var tree := [r0, r1];
    assert tree[0] == r0 && tree[1] == r1;
  }

  /** What the patterns find on the two lines of `DupFile`. */
  lemma DupLines(a: string, owner: string, x: string, title: string, bname: string, v: string, w: string, tail: string)
    requires DupParts(a, owner, x, title, bname, v, w, tail)
    ensures var l0, l1 := CreateLine(a, owner, x, title, ""), LeafLine(x, bname, 1, v, w + tail, "");
      FindCreation(l0) == Some(Creation(a, x, title)) && FindCreation(l1).None?
      && SearchFrom(MatchBranch, l0, 0).None? && BranchOn(l1, x, bname, Shape1(v, w + tail))
  {
    CreateLineCreates(a, owner, x, title);
    LeafLineCreatesNothing(x, bname, v, w, tail);
    CreateLineNoBranch(a, owner, x, title);
    LeafLineBranches(x, bname, v, w, tail);
  }

  /** `process_one_file` on a fresh database and `DupFile`: the run succeeds
      and leaves two tree rows under the key (x, 1), the created one and a
      ghost, with the branch on the created one. */
  lemma GhostSharesCreatedKey(fn: string, a: string, owner: string, x: string, title: string, bname: string, v: string, w: string, tail: string)
    requires DupParts(a, owner, x, title, bname, v, w, tail)
    ensures var r := ProcessFile(Tables([], [], [], [], []), fn, DupFile(a, owner, x, title, bname, v, w + tail));
      r.failure.None?
      && r.db.tree == [TreeRow(x, title, a, 1, 1), TreeRow(x, "", x, 1, -1)]
      && r.db.branch == [BranchRow(1, bname, w + tail, v, 1, 2)]
      && !UniqueTreeKeys(r.db.tree)
  {
    DupLines(a, owner, x, title, bname, v, w, tail);
    SharedKey(TreeRow(x, title, a, 1, 1), TreeRow(x, "", x, 1, -1));
    TwoLineRun(fn, CreateLine(a, owner, x, title, ""), LeafLine(x, bname, 1, v, w + tail, ""), Creation(a, x, title), bname, Shape1(v, w + tail));
  }

  // ------------------------------------- as written: created trees unique

  /** At most one created tree row (line other than -1) per key. */
  predicate UniqueCreatedKeys(tree: seq<TreeRow>) {
    forall i, j | 0 <= i < j < |tree| && tree[i].fileline != -1 && tree[j].fileline != -1 ::
      tree[i].treename != tree[j].treename || tree[i].fileid != tree[j].fileid
  }

  /** The upsert inserts only under a key no row holds. */
  lemma UpsertKeepsCreated(s: Scan, fn: string, fid: nat, c: Creation, n: nat)
    requires UniqueCreatedKeys(s.db.tree)
    ensures UniqueCreatedKeys(TreeUpsert(s, fn, fid, c, n).db.tree)
  {
    var ids := TreeIds(s.db.tree, c.treename, fid);
    if |ids| == 0 {
      var tree := TreeUpsert(s, fn, fid, c, n).db.tree;
      forall i | 0 <= i < |s.db.tree|
        ensures tree[i].treename != c.treename || tree[i].fileid != fid
      {
        assert i + 1 !in ids;
      }
    }
  }

  lemma {:induction false} TreesFromKeepsCreated(s: Scan, fn: string, fid: nat, lines: seq<string>, i: nat)
    requires UniqueCreatedKeys(s.db.tree)
    ensures UniqueCreatedKeys(TreesFrom(s, fn, fid, lines, i).db.tree)
    decreases |lines| - i
  {
    if i < |lines| && s.failure.None? {
      match FindCreation(lines[i]) {
        case None =>
        case Some(c) => UpsertKeepsCreated(s, fn, fid, c, i + 1);
      }
      TreesFromKeepsCreated(TreeStep(s, fn, fid, lines[i], i + 1), fn, fid, lines, i + 1);
    }
  }

  /** The branch pass appends only ghost rows, so the created rows keep their keys unique. */
  lemma BranchesFromKeepsCreated(s: Scan, fn: string, fid: nat, lines: seq<string>, i: nat)
    requires s.failure.None? && UniqueCreatedKeys(s.db.tree)
    ensures UniqueCreatedKeys(BranchesFrom(s, fn, fid, lines, i).db.tree)
  {
    var r := BranchesFrom(s, fn, fid, lines, i);
    BranchesFromFrame(s, fn, fid, lines, i);
    forall j | |s.db.tree| <= j < |r.db.tree|
      ensures r.db.tree[j].fileline == -1
    {
      assert IsGhost(r.db.tree[j], fid);
    }
    forall i1, j1 | 0 <= i1 < j1 < |s.db.tree|
      ensures r.db.tree[i1] == s.db.tree[i1] && r.db.tree[j1] == s.db.tree[j1]
    {
    }
  }

  lemma ScanFileKeepsCreated(t: Tables, fn: string, fid: nat, lines: seq<string>)
    requires UniqueCreatedKeys(t.tree)
    ensures UniqueCreatedKeys(ScanFile(t, fn, fid, lines).db.tree)
  {
    var s0 := Scan(t, map[], map[], None);
    var s1 := TreesFrom(s0, fn, fid, lines, 0);
    TreesFromKeepsCreated(s0, fn, fid, lines, 0);
    if s1.failure.None? {
      var b0 := Scan(s1.db, s1.tids, map[], None);
      var s2 := BranchesFrom(b0, fn, fid, lines, 0);
      BranchesFromKeepsCreated(b0, fn, fid, lines, 0);
      if s2.failure.None? {
        CorrelateFromFrame(s2.db, s2.bids, fid, lines, 0);
      }
    }
  }

  /** Over a whole run, created trees keep one row per (treename, fileid),
      whether or not the run fails; ghost rows are the only duplicates. */
  lemma {:induction false} FillFromKeepsCreated(t: Tables, listing: seq<string>, files: map<string, seq<string>>, i: nat)
    requires UniqueCreatedKeys(t.tree)
    ensures UniqueCreatedKeys(FillFrom(t, listing, files, i).db.tree)
    decreases |listing| - i
  {
    if i < |listing| {
      var fn := Strip(listing[i]);
      if fn in files {
        var (t1, fid) := RegisterFile(t, fn);
        if fid.Some? {
          ScanFileKeepsCreated(t1, fn, fid.value, files[fn]);
        }
        var r := ProcessFile(t, fn, files[fn]);
        if r.failure.None? {
          FillFromKeepsCreated(r.db, listing, files, i + 1);
        }
      }
    }
  }

  // ----------------------------------------- corrected: the keyed ghost

  /** The ghost step with its key looked up: an unmapped tree variable is
      mapped to the row already under (tvar, fid) when there is one, and gets
      a ghost row only when there is none. */
  function KeyedWithTree(s: Scan, fid: nat, tvar: string): (r: Scan)
    ensures tvar in r.tids
  {
    if tvar in s.tids then s
    else
      var ids := TreeIds(s.db.tree, tvar, fid);
      if ids == [] then GhostTree(s, fid, tvar) else s.(tids := s.tids[tvar := ids[0]])
  }

  /** A recognised Branch call with the keyed ghost step. */
  function KeyedBranchRecord(s: Scan, fid: nat, tvar: string, bname: string, args: BranchArgs, n: nat): (r: Scan)
    requires !args.NoShape?
  {
    var s1 := KeyedWithTree(s, fid, tvar);
    var tid := s1.tids[tvar];
    var row := BranchRow(tid, bname, LeafDef(bname, args), ValVar(args), fid, n);
    var db := s1.db.(branch := s1.db.branch + [row]);
    BranchIdsAppend(s1.db.branch, row, tid, bname);
    var ids := BranchIds(db.branch, tid, bname);
    s1.(db := db, bids := s1.bids[ValVar(args) := ids[0]])
  }

  function KeyedBranchStep(s: Scan, fn: string, fid: nat, line: string, n: nat): (r: Scan) {
    match SearchFrom(MatchBranch, line, 0)
    case None => s
    case Some(f) =>
      var args := ClassifyArgs(f.hit.rest);
      if args.NoShape? then s.(failure := Some(UnrecognizedBranch(fn, n, line)))
      else KeyedBranchRecord(s, fid, f.hit.parts.TVar(), f.hit.parts.BName(), args, n)
  }

  function KeyedBranchesFrom(s: Scan, fn: string, fid: nat, lines: seq<string>, i: nat): (r: Scan)
    decreases |lines| - i
  {
    if i >= |lines| || s.failure.Some? then s
    else KeyedBranchesFrom(KeyedBranchStep(s, fn, fid, lines[i], i + 1), fn, fid, lines, i + 1)
  }

  function KeyedScanFile(t: Tables, fn: string, fid: nat, lines: seq<string>): (r: Run) {
    var s1 := TreesFrom(Scan(t, map[], map[], None), fn, fid, lines, 0);
    if s1.failure.Some? then Run(s1.db, s1.failure)
    else
      var s2 := KeyedBranchesFrom(Scan(s1.db, s1.tids, map[], None), fn, fid, lines, 0);
      if s2.failure.Some? then Run(s2.db, s2.failure)
      else Run(CorrelateFrom(s2.db, s2.bids, fid, lines, 0), None)
  }

  function KeyedProcessFile(t: Tables, fn: string, lines: seq<string>): (r: Run) {
    var (t1, fid) := RegisterFile(t, fn);
    if fid.None? then Run(t1, Some(SrcFileNotUnique(fn, |FileIds(t1.srcfile, fn)|)))
    else KeyedScanFile(t1, fn, fid.value, lines)
  }

  function KeyedFillFrom(t: Tables, listing: seq<string>, files: map<string, seq<string>>, i: nat): (r: Run)
    decreases |listing| - i
  {
    if i >= |listing| then Run(t, None)
    else
      var fn := Strip(listing[i]);
      if fn !in files then Run(t, Some(CannotOpen(fn)))
      else
        var r := KeyedProcessFile(t, fn, files[fn]);
        if r.failure.Some? then r else KeyedFillFrom(r.db, listing, files, i + 1)
  }

  /** The keyed step differs from the source's only where the key is taken:
      on a free key it is the same ghost step. */
  lemma KeyedWithTreeFree(s: Scan, fid: nat, tvar: string)
    requires TreeIds(s.db.tree, tvar, fid) == []
    ensures KeyedWithTree(s, fid, tvar) == WithTree(s, fid, tvar)
  {
  }

  /** A row appended under a free key keeps every key unique. */
  lemma AppendFreeKeepsUnique(tree: seq<TreeRow>, row: TreeRow)
    requires UniqueTreeKeys(tree) && TreeIds(tree, row.treename, row.fileid) == []
    ensures UniqueTreeKeys(tree + [row])
  {
    var ids := TreeIds(tree, row.treename, row.fileid);
    var all := tree + [row];
    forall i | 0 <= i < |tree|
      ensures all[i].treename != row.treename || all[i].fileid != row.fileid
    {
      assert i + 1 !in ids;
    }
  }

  /** A ghost row under a free key keeps every key unique. */
  lemma GhostKeepsUnique(s: Scan, fid: nat, tvar: string)
    requires UniqueTreeKeys(s.db.tree) && TreeIds(s.db.tree, tvar, fid) == []
    ensures UniqueTreeKeys(GhostTree(s, fid, tvar).db.tree)
  {
    var g := TreeRow(tvar, "", tvar, fid, -1);
    assert GhostTree(s, fid, tvar).db.tree == s.db.tree + [g];
    AppendFreeKeepsUnique(s.db.tree, g);
  }

  /** The keyed step adds a row only under a free key, and then only the
      ghost; a taken key is reused, so a second run adds no ghost. */
  lemma KeyedWithTreeUnique(s: Scan, fid: nat, tvar: string)
    requires UniqueTreeKeys(s.db.tree)
    ensures var r := KeyedWithTree(s, fid, tvar);
      UniqueTreeKeys(r.db.tree)
      && (r.db.tree == s.db.tree
          || (TreeIds(s.db.tree, tvar, fid) == [] && r.db.tree == s.db.tree + [TreeRow(tvar, "", tvar, fid, -1)]))
      && r.db == s.db.(tree := r.db.tree) && r.failure == s.failure && r.bids == s.bids
  {
    if tvar !in s.tids && TreeIds(s.db.tree, tvar, fid) == [] {
      GhostKeepsUnique(s, fid, tvar);
      assert GhostTree(s, fid, tvar).db.tree == s.db.tree + [TreeRow(tvar, "", tvar, fid, -1)];
    }
  }

  lemma KeyedBranchStepUnique(s: Scan, fn: string, fid: nat, line: string, n: nat)
    requires UniqueTreeKeys(s.db.tree)
    ensures UniqueTreeKeys(KeyedBranchStep(s, fn, fid, line, n).db.tree)
  {
    match SearchFrom(MatchBranch, line, 0) {
      case None =>
      case Some(f) =>
        var args := ClassifyArgs(f.hit.rest);
        if !args.NoShape? {
          KeyedWithTreeUnique(s, fid, f.hit.parts.TVar());
        }
    }
  }

  lemma {:induction false} KeyedBranchesFromUnique(s: Scan, fn: string, fid: nat, lines: seq<string>, i: nat)
    requires UniqueTreeKeys(s.db.tree)
    ensures UniqueTreeKeys(KeyedBranchesFrom(s, fn, fid, lines, i).db.tree)
    decreases |lines| - i
  {
    if i < |lines| && s.failure.None? {
      KeyedBranchStepUnique(s, fn, fid, lines[i], i + 1);
      KeyedBranchesFromUnique(KeyedBranchStep(s, fn, fid, lines[i], i + 1), fn, fid, lines, i + 1);
    }
  }

  lemma KeyedScanFileUnique(t: Tables, fn: string, fid: nat, lines: seq<string>)
    requires UniqueTreeKeys(t.tree)
    ensures UniqueTreeKeys(KeyedScanFile(t, fn, fid, lines).db.tree)
  {
    var s0 := Scan(t, map[], map[], None);
    var s1 := TreesFrom(s0, fn, fid, lines, 0);
    TreesFromKeepsUnique(s0, fn, fid, lines, 0);
    if s1.failure.None? {
      var b0 := Scan(s1.db, s1.tids, map[], None);
      var s2 := KeyedBranchesFrom(b0, fn, fid, lines, 0);
      KeyedBranchesFromUnique(b0, fn, fid, lines, 0);
      if s2.failure.None? {
        CorrelateFromFrame(s2.db, s2.bids, fid, lines, 0);
      }
    }
  }

  /** With the keyed ghost step, one tree row per (treename, fileid) holds
      over a whole run, ghosts included, whether or not the run fails. */
  lemma {:induction false} KeyedFillFromUnique(t: Tables, listing: seq<string>, files: map<string, seq<string>>, i: nat)
    requires UniqueTreeKeys(t.tree)
    ensures UniqueTreeKeys(KeyedFillFrom(t, listing, files, i).db.tree)
    decreases |listing| - i
  {
    if i < |listing| {
      var fn := Strip(listing[i]);
      if fn in files {
        var (t1, fid) := RegisterFile(t, fn);
        if fid.Some? {
          KeyedScanFileUnique(t1, fn, fid.value, files[fn]);
        }
        var r := KeyedProcessFile(t, fn, files[fn]);
        if r.failure.None? {
          KeyedFillFromUnique(r.db, listing, files, i + 1);
        }
      }
    }
  }
}
