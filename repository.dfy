/** The scraper's database connection: five append-only tables whose rows get
    consecutive ids, the INSERTs the scraper issues and the SELECTs it reads
    back.  A SELECT returns the matching rows in rowid order. */
module Repository {
  import opened Tables

  class Database {
    var srcfile: seq<string>
    var tree: seq<TreeRow>
    var branch: seq<BranchRow>
    var srccomment: seq<NoteRow>
    var srcassign: seq<NoteRow>

    /** The tables as values. */
    function State(): Tables
      reads this
    {
      Tables(srcfile, tree, branch, srccomment, srcassign)
    }

    /** A connection to a database holding `t`. */
    constructor (t: Tables)
      ensures State() == t
    {
      srcfile := t.srcfile;
      tree := t.tree;
      branch := t.branch;
      srccomment := t.srccomment;
      srcassign := t.srcassign;
    }

    /** `SELECT fileid FROM srcfile WHERE filename = ?`. */
    method SelectFileIds(fn: string) returns (ids: seq<nat>)
      ensures ids == FileIds(srcfile, fn)
      ensures forall id :: id in ids <==> 1 <= id <= |srcfile| && srcfile[id - 1] == fn
    {
      ids := FileIds(srcfile, fn);
    }

    /** `INSERT INTO srcfile (filename) VALUES (?)`. */
    method InsertSrcFile(fn: string)
      modifies this
      ensures State() == old(State()).(srcfile := old(srcfile) + [fn])
    {
      srcfile := srcfile + [fn];
    }

    /** `SELECT treeid, treetitle, tvarname, fileline FROM tree WHERE treename = ?
        AND fileid = ?`: each matching row with its id. */
    method SelectTrees(name: string, fid: nat) returns (rows: seq<(nat, TreeRow)>)
      ensures |rows| == |TreeIds(tree, name, fid)|
      ensures forall k | 0 <= k < |rows| ::
        rows[k].0 == TreeIds(tree, name, fid)[k] && 1 <= rows[k].0 <= |tree|
        && rows[k].1 == tree[rows[k].0 - 1]
        && rows[k].1.treename == name && rows[k].1.fileid == fid
    {
      var ids, t := TreeIds(tree, name, fid), tree;
      assert forall k | 0 <= k < |ids| :: ids[k] in ids;
      rows := seq(|ids|, k requires 0 <= k < |ids| => (ids[k], t[ids[k] - 1]));
    }

    /** `SELECT treeid FROM tree WHERE treename = ? AND fileid = ?`. */
    method SelectTreeIds(name: string, fid: nat) returns (ids: seq<nat>)
      ensures ids == TreeIds(tree, name, fid)
      ensures forall id :: id in ids <==> 1 <= id <= |tree| && tree[id - 1].treename == name && tree[id - 1].fileid == fid
    {
      ids := TreeIds(tree, name, fid);
    }

    method InsertTree(r: TreeRow)
      modifies this
      ensures State() == old(State()).(tree := old(tree) + [r])
    {
      tree := tree + [r];
    }

    /** `SELECT branchid FROM branch WHERE treeid = ? AND branchname = ?`. */
    method SelectBranchIds(tid: nat, bname: string) returns (ids: seq<nat>)
      ensures ids == BranchIds(branch, tid, bname)
      ensures forall id :: id in ids <==> 1 <= id <= |branch| && branch[id - 1].treeid == tid && branch[id - 1].branchname == bname
    {
      ids := BranchIds(branch, tid, bname);
    }

    method InsertBranch(r: BranchRow)
      modifies this
      ensures State() == old(State()).(branch := old(branch) + [r])
    {
      branch := branch + [r];
    }

    method InsertComment(r: NoteRow)
      modifies this
      ensures State() == old(State()).(srccomment := old(srccomment) + [r])
    {
      srccomment := srccomment + [r];
    }

    method InsertAssign(r: NoteRow)
      modifies this
      ensures State() == old(State()).(srcassign := old(srcassign) + [r])
    {
      srcassign := srcassign + [r];
    }
  }
}
