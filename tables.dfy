/** The five tables of the scraper's database, as rows in insertion order.
    Each table's surrogate id is its sqlite rowid; the tables are only ever
    appended to, so the row at index `k` has id `k + 1`.  A SELECT without
    ORDER BY returns the matching rows in rowid order. */
module Tables {

  /** `tree (treename, treetitle, tvarname, fileid, fileline)`; a ghost tree
      has the line -1. */
  datatype TreeRow = TreeRow(treename: string, treetitle: string, tvarname: string, fileid: nat, fileline: int)

  /** `branch (treeid, branchname, bleafdef, bvalvarname, fileid, fileline)`. */
  datatype BranchRow = BranchRow(treeid: nat, branchname: string, bleafdef: string, bvalvarname: string, fileid: nat, fileline: nat)

  /** `srccomment (commenttext, branchid, fileid, fileline)` and
      `srcassign (assigntext, branchid, fileid, fileline)`. */
  datatype NoteRow = NoteRow(text: string, branchid: nat, fileid: nat, fileline: nat)

  datatype Tables = Tables(
    srcfile: seq<string>,
    tree: seq<TreeRow>,
    branch: seq<BranchRow>,
    srccomment: seq<NoteRow>,
    srcassign: seq<NoteRow>)

  predicate Ascending(ids: seq<nat>) {
    forall i, j | 0 <= i < j < |ids| :: ids[i] < ids[j]
  }

  /** The ids of the rows `p` selects, in rowid order. */
  function IdsWith<T>(rows: seq<T>, p: T -> bool): (ids: seq<nat>)
    ensures forall id :: id in ids <==> 1 <= id <= |rows| && p(rows[id - 1])
    ensures forall i | 0 <= i < |ids| :: 1 <= ids[i] <= |rows|
    ensures Ascending(ids)
    decreases |rows|
  {
    if rows == [] then []
    else
      var front := rows[..|rows| - 1];
      var ids := IdsWith(front, p);
      assert forall k | 0 <= k < |front| :: rows[k] == front[k];
      ids + (if p(rows[|rows| - 1]) then [|rows|] else [])
  }

  /** Appending a row adds its id to a selection exactly when it is selected. */
  lemma IdsWithAppend<T>(rows: seq<T>, r: T, p: T -> bool)
    ensures IdsWith(rows + [r], p) == IdsWith(rows, p) + (if p(r) then [|rows| + 1] else [])
  {
    var all := rows + [r];
    assert all[..|all| - 1] == rows;
    assert all[|all| - 1] == r;
  }

  /** The first id of a selection is the first row the selection holds. */
  lemma IdsWithFirst<T>(rows: seq<T>, p: T -> bool, k: nat)
    requires IdsWith(rows, p) != [] && k < IdsWith(rows, p)[0] - 1
    ensures !p(rows[k])
  {
    var ids := IdsWith(rows, p);
    assert forall m | 0 <= m < |ids| :: ids[0] <= ids[m];
    assert k + 1 !in ids;
  }

  /** `SELECT fileid FROM srcfile WHERE filename = fn`. */
  function FileIds(srcfile: seq<string>, fn: string): seq<nat> {
    IdsWith(srcfile, (f: string) => f == fn)
  }

  /** `SELECT treeid ... FROM tree WHERE treename = name AND fileid = fid`. */
  function TreeIds(tree: seq<TreeRow>, name: string, fid: nat): seq<nat> {
    IdsWith(tree, (r: TreeRow) => r.treename == name && r.fileid == fid)
  }

  /** `SELECT branchid FROM branch WHERE treeid = tid AND branchname = bname`. */
  function BranchIds(branch: seq<BranchRow>, tid: nat, bname: string): seq<nat> {
    IdsWith(branch, (r: BranchRow) => r.treeid == tid && r.branchname == bname)
  }

  lemma FileIdsAppend(srcfile: seq<string>, f: string, fn: string)
    ensures FileIds(srcfile + [f], fn) == FileIds(srcfile, fn) + (if f == fn then [|srcfile| + 1] else [])
  {
    IdsWithAppend(srcfile, f, (f: string) => f == fn);
  }

  lemma TreeIdsAppend(tree: seq<TreeRow>, r: TreeRow, name: string, fid: nat)
    ensures TreeIds(tree + [r], name, fid) ==
            TreeIds(tree, name, fid) + (if r.treename == name && r.fileid == fid then [|tree| + 1] else [])
  {
    IdsWithAppend(tree, r, (r: TreeRow) => r.treename == name && r.fileid == fid);
  }

  lemma TreeIdsFirst(tree: seq<TreeRow>, name: string, fid: nat, k: nat)
    requires TreeIds(tree, name, fid) != [] && k < TreeIds(tree, name, fid)[0] - 1
    ensures !(tree[k].treename == name && tree[k].fileid == fid)
  {
    IdsWithFirst(tree, (r: TreeRow) => r.treename == name && r.fileid == fid, k);
  }

  lemma BranchIdsFirst(branch: seq<BranchRow>, tid: nat, bname: string, k: nat)
    requires BranchIds(branch, tid, bname) != [] && k < BranchIds(branch, tid, bname)[0] - 1
    ensures !(branch[k].treeid == tid && branch[k].branchname == bname)
  {
    IdsWithFirst(branch, (r: BranchRow) => r.treeid == tid && r.branchname == bname, k);
  }

  lemma BranchIdsAppend(branch: seq<BranchRow>, r: BranchRow, tid: nat, bname: string)
    ensures BranchIds(branch + [r], tid, bname) ==
            BranchIds(branch, tid, bname) + (if r.treeid == tid && r.branchname == bname then [|branch| + 1] else [])
  {
    IdsWithAppend(branch, r, (r: BranchRow) => r.treeid == tid && r.branchname == bname);
  }

  /** At most one tree row per natural key (treename, fileid). */
  predicate UniqueTreeKeys(tree: seq<TreeRow>) {
    forall i, j | 0 <= i < j < |tree| :: tree[i].treename != tree[j].treename || tree[i].fileid != tree[j].fileid
  }

  /** Every id a row refers to names an existing row. */
  predicate WellFormed(t: Tables) {
    (forall i | 0 <= i < |t.tree| :: 1 <= t.tree[i].fileid <= |t.srcfile|)
    && (forall i | 0 <= i < |t.branch| ::
          1 <= t.branch[i].treeid <= |t.tree| && 1 <= t.branch[i].fileid <= |t.srcfile|)
    && (forall i | 0 <= i < |t.srccomment| ::
          1 <= t.srccomment[i].branchid <= |t.branch| && 1 <= t.srccomment[i].fileid <= |t.srcfile|)
    && (forall i | 0 <= i < |t.srcassign| ::
          1 <= t.srcassign[i].branchid <= |t.branch| && 1 <= t.srcassign[i].fileid <= |t.srcfile|)
  }

  /** Each row refers only to rows of its own file: a branch to a tree of its
      file, a comment or assignment to a branch of its file. */
  predicate FileScoped(t: Tables) {
    WellFormed(t)
    && (forall i | 0 <= i < |t.branch| :: t.tree[t.branch[i].treeid - 1].fileid == t.branch[i].fileid)
    && (forall i | 0 <= i < |t.srccomment| :: t.branch[t.srccomment[i].branchid - 1].fileid == t.srccomment[i].fileid)
    && (forall i | 0 <= i < |t.srcassign| :: t.branch[t.srcassign[i].branchid - 1].fileid == t.srcassign[i].fileid)
  }

  /** `u` extends `t` in every table: nothing was changed or removed. */
  predicate Extends(t: Tables, u: Tables) {
    t.srcfile <= u.srcfile && t.tree <= u.tree && t.branch <= u.branch
    && t.srccomment <= u.srccomment && t.srcassign <= u.srcassign
  }

  /** All rows `u` adds to `t` in the four data tables belong to file `fid`. */
  predicate AddedFor(t: Tables, u: Tables, fid: nat) {
    (forall i | |t.tree| <= i < |u.tree| :: u.tree[i].fileid == fid)
    && (forall i | |t.branch| <= i < |u.branch| :: u.branch[i].fileid == fid)
    && (forall i | |t.srccomment| <= i < |u.srccomment| :: u.srccomment[i].fileid == fid)
    && (forall i | |t.srcassign| <= i < |u.srcassign| :: u.srcassign[i].fileid == fid)
  }
}
