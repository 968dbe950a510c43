/** What the branch pass guarantees: one appended row per recognised Branch
    call, a hard failure on the first call whose arguments fit no shape, at
    most one ghost tree per unknown tree variable, and a value map pointing
    at the first branch with a given tree and name. */
module BranchProperties {
  import opened Strings
  import opened BranchPatterns
  import opened Tables
  import opened Passes

  /** The line holds a Branch call (RE_BRANCH finds a match). */
  predicate HasBranchCall(line: string) {
    SearchFrom(MatchBranch, line, 0).Some?
  }

  /** The line holds a Branch call whose arguments fit none of the four shapes. */
  predicate Unrecognized(line: string) {
    HasBranchCall(line) && ClassifyArgs(SearchFrom(MatchBranch, line, 0).value.hit.rest).NoShape?
  }

  /** The number of lines of `lines[i..]` holding a Branch call. */
  function BranchCalls(lines: seq<string>, i: nat): nat
    decreases |lines| - i
  {
    if i >= |lines| then 0
    else (if HasBranchCall(lines[i]) then 1 else 0) + BranchCalls(lines, i + 1)
  }

  /** A ghost tree row of file `fid`: named after its variable, untitled, on line -1. */
  predicate IsGhost(g: TreeRow, fid: nat) {
    g == TreeRow(g.tvarname, "", g.tvarname, fid, -1)
  }

  // ------------------------------------------------------- one Branch call

  /** A recognised Branch call appends exactly one branch row: the tree its
      variable stands for, the branch name, the leaf definition, the value
      variable, the file and the line; only `tree` and `branch` change. */
  lemma BranchRecordRow(s: Scan, fid: nat, tvar: string, bname: string, args: BranchArgs, n: nat)
    requires !args.NoShape?
    ensures var r := BranchRecord(s, fid, tvar, bname, args, n);
      tvar in r.tids
      && r.db.branch == s.db.branch + [BranchRow(r.tids[tvar], bname, LeafDef(bname, args), ValVar(args), fid, n)]
      && r.db == s.db.(tree := r.db.tree, branch := r.db.branch)
      && r.failure == s.failure
  {
  }

  /** The tree of a Branch call: a known variable keeps its tree and no tree
      row is added; an unknown one gets one ghost row and is mapped to the
      first tree row of its name in the file, which is the ghost itself when
      the file had no tree of that name. */
  lemma BranchRecordTree(s: Scan, fid: nat, tvar: string, bname: string, args: BranchArgs, n: nat)
    requires !args.NoShape?
    ensures var r := BranchRecord(s, fid, tvar, bname, args, n);
      (tvar in s.tids ==> r.db.tree == s.db.tree && r.tids == s.tids)
      && (tvar !in s.tids ==>
            r.db.tree == s.db.tree + [TreeRow(tvar, "", tvar, fid, -1)]
            && r.tids == s.tids[tvar := r.tids[tvar]]
            && 1 <= r.tids[tvar] <= |r.db.tree|
            && r.db.tree[r.tids[tvar] - 1].treename == tvar && r.db.tree[r.tids[tvar] - 1].fileid == fid
            && (forall k | 0 <= k < r.tids[tvar] - 1 :: !(r.db.tree[k].treename == tvar && r.db.tree[k].fileid == fid))
            && (TreeIds(s.db.tree, tvar, fid) == [] ==> r.tids[tvar] == |r.db.tree|))
  {
    if tvar !in s.tids {
      var g := TreeRow(tvar, "", tvar, fid, -1);
      var tree := s.db.tree + [g];
      var ids := TreeIds(tree, tvar, fid);
      TreeIdsAppend(s.db.tree, g, tvar, fid);
      assert ids[0] in ids;
      forall k | 0 <= k < ids[0] - 1
        ensures !(tree[k].treename == tvar && tree[k].fileid == fid)
      {
        TreeIdsFirst(tree, tvar, fid, k);
      }
    }
  }

  /** The value variable is mapped to the first branch row with the call's
      tree and name, which is the new row unless an earlier row has both;
      every other value variable keeps its mapping. */
  lemma BranchRecordValue(s: Scan, fid: nat, tvar: string, bname: string, args: BranchArgs, n: nat)
    requires !args.NoShape?
    ensures var r := BranchRecord(s, fid, tvar, bname, args, n);
      var tid := r.tids[tvar];
      var bid := r.bids[ValVar(args)];
      r.bids == s.bids[ValVar(args) := bid]
      && 1 <= bid <= |r.db.branch|
      && r.db.branch[bid - 1].treeid == tid && r.db.branch[bid - 1].branchname == bname
      && (forall k | 0 <= k < bid - 1 :: !(r.db.branch[k].treeid == tid && r.db.branch[k].branchname == bname))
      && (BranchIds(s.db.branch, tid, bname) == [] ==> bid == |r.db.branch|)
  {
    var s1 := WithTree(s, fid, tvar);
    var tid := s1.tids[tvar];
    var row := BranchRow(tid, bname, LeafDef(bname, args), ValVar(args), fid, n);
    var branch := s1.db.branch + [row];
    BranchIdsAppend(s1.db.branch, row, tid, bname);
    var ids := BranchIds(branch, tid, bname);
    assert ids[0] in ids;
    forall k | 0 <= k < ids[0] - 1
      ensures !(branch[k].treeid == tid && branch[k].branchname == bname)
    {
      BranchIdsFirst(branch, tid, bname, k);
    }
  }

  // ------------------------------------------------------------ ghost trees

  /** What a stretch of the branch pass does to `tree`: it appends ghost rows
      of file `fid`, one per variable, each for a variable unknown at the
      start and known at the end; known variables stay known. */
  predicate GhostFrame(s: Scan, r: Scan, fid: nat) {
    s.db.tree <= r.db.tree && s.tids.Keys <= r.tids.Keys
    && (forall k | |s.db.tree| <= k < |r.db.tree| ::
          IsGhost(r.db.tree[k], fid) && r.db.tree[k].tvarname !in s.tids && r.db.tree[k].tvarname in r.tids)
    && (forall k1, k2 | |s.db.tree| <= k1 < k2 < |r.db.tree| :: r.db.tree[k1].tvarname != r.db.tree[k2].tvarname)
  }

  lemma GhostFrameTrans(s: Scan, s1: Scan, r: Scan, fid: nat)
    requires GhostFrame(s, s1, fid) && GhostFrame(s1, r, fid)
    ensures GhostFrame(s, r, fid)
  {
    forall k | |s.db.tree| <= k < |s1.db.tree|
      ensures r.db.tree[k] == s1.db.tree[k] && r.db.tree[k].tvarname in s1.tids
    {
    }
  }

  lemma BranchRecordGhost(s: Scan, fid: nat, tvar: string, bname: string, args: BranchArgs, n: nat)
    requires !args.NoShape?
    ensures GhostFrame(s, BranchRecord(s, fid, tvar, bname, args, n), fid)
  {
    BranchRecordTree(s, fid, tvar, bname, args, n);
    BranchRecordRow(s, fid, tvar, bname, args, n);
  }

  // ------------------------------------------------------ one line, a pass

  /** What a stretch of the branch pass does to `branch`: it appends rows of
      file `fid`, and touches nothing but `tree` and `branch`. */
  predicate BranchRowsFrame(s: Scan, r: Scan, fid: nat) {
    s.db.branch <= r.db.branch && r.db == s.db.(tree := r.db.tree, branch := r.db.branch)
    && forall k | |s.db.branch| <= k < |r.db.branch| :: r.db.branch[k].fileid == fid
  }

  /** One line fails exactly when its Branch call fits no shape, and a
      failing line changes nothing but the failure. */
  lemma BranchStepFailure(s: Scan, fn: string, fid: nat, line: string, n: nat)
    requires s.failure.None?
    ensures var r := BranchStep(s, fn, fid, line, n);
      r.failure == (if Unrecognized(line) then Some(UnrecognizedBranch(fn, n, line)) else None)
      && (r.failure.Some? ==> r == s.(failure := r.failure))
  {
    match SearchFrom(MatchBranch, line, 0) {
      case None =>
      case Some(f) =>
        var args := ClassifyArgs(f.hit.rest);
        if !args.NoShape? {
          var tvar, bname := f.hit.parts.TVar(), f.hit.parts.BName();
          assert BranchStep(s, fn, fid, line, n) == BranchRecord(s, fid, tvar, bname, args, n);
          BranchRecordRow(s, fid, tvar, bname, args, n);
        }
    }
  }

  /** A line that does not fail adds one branch row when it holds a Branch call. */
  lemma BranchStepCount(s: Scan, fn: string, fid: nat, line: string, n: nat)
    requires s.failure.None?
    ensures var r := BranchStep(s, fn, fid, line, n);
      r.failure.None? ==> |r.db.branch| == |s.db.branch| + (if HasBranchCall(line) then 1 else 0)
  {
    match SearchFrom(MatchBranch, line, 0) {
      case None =>
      case Some(f) =>
        var args := ClassifyArgs(f.hit.rest);
        if !args.NoShape? {
          var tvar, bname := f.hit.parts.TVar(), f.hit.parts.BName();
          assert BranchStep(s, fn, fid, line, n) == BranchRecord(s, fid, tvar, bname, args, n);
          BranchRecordRow(s, fid, tvar, bname, args, n);
        }
    }
  }

  lemma BranchStepFrames(s: Scan, fn: string, fid: nat, line: string, n: nat)
    ensures var r := BranchStep(s, fn, fid, line, n);
      GhostFrame(s, r, fid) && BranchRowsFrame(s, r, fid)
  {
    match SearchFrom(MatchBranch, line, 0) {
      case None =>
      case Some(f) =>
        var args := ClassifyArgs(f.hit.rest);
        if !args.NoShape? {
          var tvar, bname := f.hit.parts.TVar(), f.hit.parts.BName();
          assert BranchStep(s, fn, fid, line, n) == BranchRecord(s, fid, tvar, bname, args, n);
          BranchRecordRow(s, fid, tvar, bname, args, n);
          BranchRecordGhost(s, fid, tvar, bname, args, n);
        }
    }
  }

  lemma BranchRowsFrameTrans(s: Scan, s1: Scan, r: Scan, fid: nat)
    requires BranchRowsFrame(s, s1, fid) && BranchRowsFrame(s1, r, fid)
    ensures BranchRowsFrame(s, r, fid)
  {
    forall k | |s.db.branch| <= k < |s1.db.branch|
      ensures r.db.branch[k] == s1.db.branch[k]
    {
    }
  }

  /** The branch pass appends branch rows of this file and ghost trees, one
      per variable unknown at the start, and changes nothing else. */
  lemma {:induction false} BranchesFromFrame(s: Scan, fn: string, fid: nat, lines: seq<string>, i: nat)
    requires s.failure.None?
    ensures var r := BranchesFrom(s, fn, fid, lines, i);
      GhostFrame(s, r, fid) && BranchRowsFrame(s, r, fid)
    decreases |lines| - i
  {
    if i < |lines| {
      var s1 := BranchStep(s, fn, fid, lines[i], i + 1);
      var r := BranchesFrom(s1, fn, fid, lines, i + 1);
      assert BranchesFrom(s, fn, fid, lines, i) == r;
      BranchStepFrames(s, fn, fid, lines[i], i + 1);
      if s1.failure.None? {
        BranchesFromFrame(s1, fn, fid, lines, i + 1);
        GhostFrameTrans(s, s1, r, fid);
        BranchRowsFrameTrans(s, s1, r, fid);
      }
    }
  }

  /** The index of the first line of `lines[i..]` that `p` selects. */
  function FirstWhere(lines: seq<string>, p: string -> bool, i: nat): (r: Option<nat>)
    ensures r.Some? ==> i <= r.value < |lines|
    decreases |lines| - i
  {
    if i >= |lines| then None
    else if p(lines[i]) then Some(i)
    else FirstWhere(lines, p, i + 1)
  }

  lemma {:induction false} FirstWhereSpec(lines: seq<string>, p: string -> bool, i: nat)
    ensures var r := FirstWhere(lines, p, i);
      (r.Some? ==> i <= r.value < |lines| && p(lines[r.value])
                   && forall k | i <= k < r.value :: !p(lines[k]))
      && (r.None? ==> forall k | i <= k < |lines| :: !p(lines[k]))
    decreases |lines| - i
  {
    if i < |lines| && !p(lines[i]) {
      FirstWhereSpec(lines, p, i + 1);
    }
  }

  /** The failure the branch pass over `lines[i..]` ends with: none when every
      Branch call fits a shape, otherwise the first line whose call fits none. */
  lemma {:induction false} BranchesFromFailure(s: Scan, fn: string, fid: nat, lines: seq<string>, i: nat)
    requires s.failure.None?
    ensures BranchesFrom(s, fn, fid, lines, i).failure ==
      match FirstWhere(lines, Unrecognized, i)
      case None => None
      case Some(k) => Some(UnrecognizedBranch(fn, k + 1, lines[k]))
    decreases |lines| - i
  {
    if i < |lines| {
      var s1 := BranchStep(s, fn, fid, lines[i], i + 1);
      assert BranchesFrom(s, fn, fid, lines, i) == BranchesFrom(s1, fn, fid, lines, i + 1);
      BranchStepFailure(s, fn, fid, lines[i], i + 1);
      if s1.failure.None? {
        BranchesFromFailure(s1, fn, fid, lines, i + 1);
      }
    }
  }

  /** Every recognised Branch call appends one branch row: a branch pass that
      does not fail adds as many rows as its lines hold Branch calls. */
  lemma {:induction false} BranchesFromCount(s: Scan, fn: string, fid: nat, lines: seq<string>, i: nat)
    requires s.failure.None? && BranchesFrom(s, fn, fid, lines, i).failure.None?
    ensures |BranchesFrom(s, fn, fid, lines, i).db.branch| == |s.db.branch| + BranchCalls(lines, i)
    decreases |lines| - i
  {
    if i < |lines| {
      var s1 := BranchStep(s, fn, fid, lines[i], i + 1);
      var r := BranchesFrom(s1, fn, fid, lines, i + 1);
      assert BranchesFrom(s, fn, fid, lines, i) == r;
      assert s1.failure.None?;
      assert |s1.db.branch| == |s.db.branch| + (if HasBranchCall(lines[i]) then 1 else 0) by {
        BranchStepCount(s, fn, fid, lines[i], i + 1);
      }
      BranchesFromCount(s1, fn, fid, lines, i + 1);
    }
  }
}
