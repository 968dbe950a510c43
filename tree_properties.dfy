/** What the `srcfile` lookup and the tree pass guarantee: an id per file
    name, one tree row per (treename, fileid), the strict consistency check
    and its consequences for a whole pass: a rerun over an unchanged file
    adds nothing, and one tree name created on two lines aborts the pass. */
module TreeProperties {
  import opened Strings
  import opened TreePatterns
  import opened Tables
  import opened Passes

  // ---------------------------------------------------------------- srcfile

  /** After the lookup-or-insert the name is in `srcfile` exactly once and
      its id is the one returned, unless it was there more than once already;
      only `srcfile` changes, by at most an appended name; a second lookup
      finds the same id and adds nothing. */
  lemma RegisterFileOutcome(t: Tables, fn: string)
    ensures var (t1, fid) := RegisterFile(t, fn);
      (fid.Some? <==> |FileIds(t.srcfile, fn)| <= 1)
      && (fid.Some? ==> FileIds(t1.srcfile, fn) == [fid.value] && 1 <= fid.value <= |t1.srcfile|)
      && (fid.None? ==> t1 == t)
      && t1 == t.(srcfile := t1.srcfile)
      && (t1.srcfile == t.srcfile || t1.srcfile == t.srcfile + [fn])
      && (fid.Some? ==> RegisterFile(t1, fn) == (t1, fid))
  {
    var fids := FileIds(t.srcfile, fn);
    FileIdsAppend(t.srcfile, fn, fn);
    if |fids| == 1 {
      assert fids == [fids[0]];
      assert fids[0] in fids;
    }
  }

  // ------------------------------------------------------------- tree upsert

  /** The upsert of one sighting fails unless the key (treename, fileid) is
      new or has exactly one row, equal to the sighting; a failure changes
      nothing but the failure. */
  lemma TreeUpsertFails(s: Scan, fn: string, fid: nat, c: Creation, n: nat)
    requires s.failure.None?
    ensures var r := TreeUpsert(s, fn, fid, c, n);
      var ids := TreeIds(s.db.tree, c.treename, fid);
      (r.failure.None? <==>
         |ids| == 0 || (|ids| == 1 && s.db.tree[ids[0] - 1] == TreeRow(c.treename, c.treetitle, c.tvarname, fid, n)))
      && (r.failure.Some? ==> r == s.(failure := r.failure))
  {
    var ids := TreeIds(s.db.tree, c.treename, fid);
    if |ids| == 1 {
      assert ids[0] in ids;
    }
  }

  /** A successful upsert leaves the key with exactly one row, the sighting,
      appended exactly when the key was new, and maps the tree variable to it;
      nothing else changes. */
  lemma TreeUpsertStores(s: Scan, fn: string, fid: nat, c: Creation, n: nat)
    requires s.failure.None? && TreeUpsert(s, fn, fid, c, n).failure.None?
    ensures var r := TreeUpsert(s, fn, fid, c, n);
      var found := TreeRow(c.treename, c.treetitle, c.tvarname, fid, n);
      var ids := TreeIds(s.db.tree, c.treename, fid);
      c.tvarname in r.tids
      && TreeIds(r.db.tree, c.treename, fid) == [r.tids[c.tvarname]]
      && r.db.tree[r.tids[c.tvarname] - 1] == found
      && r.db == s.db.(tree := r.db.tree)
      && r.db.tree == s.db.tree + (if |ids| == 0 then [found] else [])
      && r.tids == s.tids[c.tvarname := r.tids[c.tvarname]]
      && r.bids == s.bids
  {
    var found := TreeRow(c.treename, c.treetitle, c.tvarname, fid, n);
    var ids := TreeIds(s.db.tree, c.treename, fid);
    if |ids| == 0 {
      TreeIdsAppend(s.db.tree, found, c.treename, fid);
    } else {
      assert ids == [ids[0]];
      assert ids[0] in ids;
    }
  }

  /** The upsert never gives a key a second row. */
  lemma TreeUpsertKeepsUnique(s: Scan, fn: string, fid: nat, c: Creation, n: nat)
    requires UniqueTreeKeys(s.db.tree)
    ensures UniqueTreeKeys(TreeUpsert(s, fn, fid, c, n).db.tree)
  {
    var ids := TreeIds(s.db.tree, c.treename, fid);
    if |ids| == 0 {
      var tree := TreeUpsert(s, fn, fid, c, n).db.tree;
      forall i | 0 <= i < |s.db.tree|
        ensures tree[i].treename != c.treename || tree[i].fileid != fid
      {
        assert i + 1 !in ids;
      }
    }
  }

  /** One tree per (treename, fileid): the tree pass keeps the key unique. */
  lemma {:induction false} TreesFromKeepsUnique(s: Scan, fn: string, fid: nat, lines: seq<string>, i: nat)
    requires UniqueTreeKeys(s.db.tree)
    ensures UniqueTreeKeys(TreesFrom(s, fn, fid, lines, i).db.tree)
    decreases |lines| - i
  {
    if i < |lines| && s.failure.None? {
      match FindCreation(lines[i]) {
        case None =>
        case Some(c) => TreeUpsertKeepsUnique(s, fn, fid, c, i + 1);
      }
      TreesFromKeepsUnique(TreeStep(s, fn, fid, lines[i], i + 1), fn, fid, lines, i + 1);
    }
  }

  /** What a stretch of the pass may change: it appends tree rows of file
      `fid` from line `n` on and adds to `tid_by_tvarname`; nothing else. */
  predicate TreeFrame(s: Scan, r: Scan, fid: nat, n: nat) {
    s.db.tree <= r.db.tree && r.db == s.db.(tree := r.db.tree) && r.bids == s.bids
    && s.tids.Keys <= r.tids.Keys
    && forall k | |s.db.tree| <= k < |r.db.tree| :: r.db.tree[k].fileid == fid && r.db.tree[k].fileline >= n
  }

  lemma TreeFrameTrans(s: Scan, s1: Scan, r: Scan, fid: nat, n: nat)
    requires TreeFrame(s, s1, fid, n) && TreeFrame(s1, r, fid, n + 1)
    ensures TreeFrame(s, r, fid, n)
  {
    forall k | |s.db.tree| <= k < |r.db.tree|
      ensures r.db.tree[k].fileid == fid && r.db.tree[k].fileline >= n
    {
      if k < |s1.db.tree| {
        assert r.db.tree[k] == s1.db.tree[k];
      }
    }
  }

  lemma UpsertFrame(s: Scan, fn: string, fid: nat, c: Creation, n: nat)
    requires s.failure.None?
    ensures TreeFrame(s, TreeUpsert(s, fn, fid, c, n), fid, n)
  {
    TreeUpsertFails(s, fn, fid, c, n);
    if TreeUpsert(s, fn, fid, c, n).failure.None? {
      TreeUpsertStores(s, fn, fid, c, n);
    }
  }

  lemma TreeStepFrame(s: Scan, fn: string, fid: nat, line: string, n: nat)
    requires s.failure.None?
    ensures TreeFrame(s, TreeStep(s, fn, fid, line, n), fid, n)
  {
    match FindCreation(line) {
      case None =>
      case Some(c) => UpsertFrame(s, fn, fid, c, n);
    }
  }

  /** A pass that has failed goes no further. */
  lemma TreesFromFailed(s: Scan, fn: string, fid: nat, lines: seq<string>, i: nat)
    requires s.failure.Some?
    ensures TreesFrom(s, fn, fid, lines, i) == s
  {
  }

  /** The tree pass only appends tree rows of this file, with their line
      numbers, and only adds to `tid_by_tvarname`; a failed state is left as
      it is. */
  lemma {:induction false} TreesFromFrame(s: Scan, fn: string, fid: nat, lines: seq<string>, i: nat)
    ensures TreeFrame(s, TreesFrom(s, fn, fid, lines, i), fid, i + 1)
    ensures s.failure.Some? ==> TreesFrom(s, fn, fid, lines, i) == s
    decreases |lines| - i
  {
    if i < |lines| && s.failure.None? {
      var s1 := TreeStep(s, fn, fid, lines[i], i + 1);
      TreeStepFrame(s, fn, fid, lines[i], i + 1);
      TreesFromFrame(s1, fn, fid, lines, i + 1);
      TreeFrameTrans(s, s1, TreesFrom(s1, fn, fid, lines, i + 1), fid, i + 1);
    }
  }

  /** An upsert that does not fail gives a key that has a row no other row. */
  lemma UpsertKeeps(s: Scan, fn: string, fid: nat, c: Creation, n: nat, name: string)
    requires s.failure.None? && TreeIds(s.db.tree, name, fid) != []
    requires TreeUpsert(s, fn, fid, c, n).failure.None?
    ensures TreeIds(TreeUpsert(s, fn, fid, c, n).db.tree, name, fid) == TreeIds(s.db.tree, name, fid)
  {
    TreeUpsertFails(s, fn, fid, c, n);
    if TreeIds(s.db.tree, c.treename, fid) == [] {
      TreeIdsAppend(s.db.tree, TreeRow(c.treename, c.treetitle, c.tvarname, fid, n), name, fid);
    }
  }

  /** Once a key has a row, a tree pass that does not fail gives it no other. */
  lemma {:induction false} KeySettled(s: Scan, fn: string, fid: nat, lines: seq<string>, i: nat, name: string)
    requires TreeIds(s.db.tree, name, fid) != []
    requires TreesFrom(s, fn, fid, lines, i).failure.None?
    ensures TreeIds(TreesFrom(s, fn, fid, lines, i).db.tree, name, fid) == TreeIds(s.db.tree, name, fid)
    decreases |lines| - i
  {
    if i < |lines| && s.failure.None? {
      var s1 := TreeStep(s, fn, fid, lines[i], i + 1);
      assert s1.failure.None? by {
        if s1.failure.Some? { TreesFromFailed(s1, fn, fid, lines, i + 1); }
      }
      match FindCreation(lines[i]) {
        case None =>
        case Some(c) => UpsertKeeps(s, fn, fid, c, i + 1, name);
      }
      KeySettled(s1, fn, fid, lines, i + 1, name);
    }
  }

  // ------------------------------------------------------------------ rerun

  /** An upsert rerun on tables `fin` that extend the ones of the first run
      and hold no other row for the key than the first run left does the
      same as the first run, on `fin`. */
  lemma RerunUpsert(s: Scan, fn: string, fid: nat, c: Creation, n: nat, fin: Tables)
    requires s.failure.None? && TreeUpsert(s, fn, fid, c, n).failure.None?
    requires TreeUpsert(s, fn, fid, c, n).db.tree <= fin.tree
    requires TreeIds(fin.tree, c.treename, fid) == TreeIds(TreeUpsert(s, fn, fid, c, n).db.tree, c.treename, fid)
    ensures TreeUpsert(s.(db := fin), fn, fid, c, n) == TreeUpsert(s, fn, fid, c, n).(db := fin)
  {
    var s1 := TreeUpsert(s, fn, fid, c, n);
    TreeUpsertStores(s, fn, fid, c, n);
    var id := s1.tids[c.tvarname];
    assert fin.tree[id - 1] == s1.db.tree[id - 1];
  }

  /** One step of a rerun: on the tables the first run ends with, the step
      finds the row the first run stored for the line and maps its variable
      the same way, adding nothing. */
  lemma RerunStep(s: Scan, fn: string, fid: nat, lines: seq<string>, i: nat)
    requires i < |lines| && s.failure.None?
    requires TreesFrom(s, fn, fid, lines, i).failure.None?
    ensures var s1 := TreeStep(s, fn, fid, lines[i], i + 1);
      var fin := TreesFrom(s, fn, fid, lines, i).db;
      s1.failure.None? && TreeStep(s.(db := fin), fn, fid, lines[i], i + 1) == s1.(db := fin)
  {
    var s1 := TreeStep(s, fn, fid, lines[i], i + 1);
    var r := TreesFrom(s1, fn, fid, lines, i + 1);
    assert TreesFrom(s, fn, fid, lines, i) == r;
    assert s1.failure.None? by {
      if s1.failure.Some? { TreesFromFailed(s1, fn, fid, lines, i + 1); }
    }
    match FindCreation(lines[i]) {
      case None =>
      case Some(c) =>
        assert s1 == TreeUpsert(s, fn, fid, c, i + 1);
        assert TreeIds(s1.db.tree, c.treename, fid) != [] by {
          TreeUpsertStores(s, fn, fid, c, i + 1);
        }
        KeySettled(s1, fn, fid, lines, i + 1, c.treename);
        TreesFromFrame(s1, fn, fid, lines, i + 1);
        RerunUpsert(s, fn, fid, c, i + 1, r.db);
    }
  }

  lemma {:induction false} RerunFrom(s: Scan, fn: string, fid: nat, lines: seq<string>, i: nat)
    requires s.failure.None?
    requires TreesFrom(s, fn, fid, lines, i).failure.None?
    ensures var r := TreesFrom(s, fn, fid, lines, i);
      TreesFrom(s.(db := r.db), fn, fid, lines, i) == r
    decreases |lines| - i
  {
    if i < |lines| {
      var s1 := TreeStep(s, fn, fid, lines[i], i + 1);
      var r := TreesFrom(s1, fn, fid, lines, i + 1);
      assert TreesFrom(s, fn, fid, lines, i) == r;
      RerunStep(s, fn, fid, lines, i);
      RerunFrom(s1, fn, fid, lines, i + 1);
      assert TreesFrom(s.(db := r.db), fn, fid, lines, i) == TreesFrom(s1.(db := r.db), fn, fid, lines, i + 1);
    }
  }

  /** Idempotence of tree discovery: rerunning it over an unchanged file, on
      the tables its first run left, adds no tree row, raises nothing and
      maps every tree variable as the first run did. */
  lemma TreesRerun(t: Tables, fn: string, fid: nat, lines: seq<string>)
    requires TreesFrom(Scan(t, map[], map[], None), fn, fid, lines, 0).failure.None?
    ensures var r := TreesFrom(Scan(t, map[], map[], None), fn, fid, lines, 0);
      TreesFrom(Scan(r.db, map[], map[], None), fn, fid, lines, 0) == r
  {
    RerunFrom(Scan(t, map[], map[], None), fn, fid, lines, 0);
  }

  // ------------------------------------------------------ a name seen twice

  /** A key all of whose rows lie on lines before `n` keeps them through an
      upsert on line `n` that does not fail, and that upsert is of another
      tree name. */
  lemma PinnedUpsert(s: Scan, fn: string, fid: nat, c: Creation, n: nat, name: string)
    requires s.failure.None? && TreeIds(s.db.tree, name, fid) != []
    requires forall id | id in TreeIds(s.db.tree, name, fid) :: s.db.tree[id - 1].fileline < n
    requires TreeUpsert(s, fn, fid, c, n).failure.None?
    ensures c.treename != name
    ensures TreeIds(TreeUpsert(s, fn, fid, c, n).db.tree, name, fid) == TreeIds(s.db.tree, name, fid)
  {
    var ids := TreeIds(s.db.tree, name, fid);
    assert ids[0] in ids;
    assert s.db.tree[ids[0] - 1].fileline < n;
    assert c.treename != name by {
      TreeUpsertFails(s, fn, fid, c, n);
    }
    var found := TreeRow(c.treename, c.treetitle, c.tvarname, fid, n);
    assert TreeIds(s.db.tree + [found], name, fid) == ids by {
      TreeIdsAppend(s.db.tree, found, name, fid);
    }
    TreeUpsertStores(s, fn, fid, c, n);
  }

  lemma PinnedKept(s: Scan, s1: Scan, fid: nat, i: nat, name: string)
    requires TreeFrame(s, s1, fid, i + 1)
    requires TreeIds(s1.db.tree, name, fid) == TreeIds(s.db.tree, name, fid)
    requires forall id | id in TreeIds(s.db.tree, name, fid) :: s.db.tree[id - 1].fileline <= i
    ensures forall id | id in TreeIds(s1.db.tree, name, fid) :: s1.db.tree[id - 1].fileline <= i + 1
  {
    forall id | id in TreeIds(s1.db.tree, name, fid)
      ensures s1.db.tree[id - 1].fileline <= i + 1
    {
      assert s1.db.tree[id - 1] == s.db.tree[id - 1];
    }
  }

  /** A key whose rows all lie on lines up to `i` cannot be created again
      on a later line: the pass fails by the time it reaches line `j + 1`. */
  lemma {:induction false} PinnedKeyAborts(s: Scan, fn: string, fid: nat, lines: seq<string>, i: nat, j: nat, name: string)
    requires i <= j < |lines|
    requires FindCreation(lines[j]).Some? && FindCreation(lines[j]).value.treename == name
    requires TreeIds(s.db.tree, name, fid) != []
    requires forall id | id in TreeIds(s.db.tree, name, fid) :: s.db.tree[id - 1].fileline <= i
    ensures TreesFrom(s, fn, fid, lines, i).failure.Some?
    decreases j - i
  {
    if s.failure.None? {
      var s1 := TreeStep(s, fn, fid, lines[i], i + 1);
      assert TreesFrom(s, fn, fid, lines, i) == TreesFrom(s1, fn, fid, lines, i + 1);
      if s1.failure.Some? {
        TreesFromFailed(s1, fn, fid, lines, i + 1);
      } else if i == j {
        var c := FindCreation(lines[i]).value;
        assert s1 == TreeUpsert(s, fn, fid, c, i + 1);
        PinnedUpsert(s, fn, fid, c, i + 1, name);
      } else {
        match FindCreation(lines[i]) {
          case None =>
          case Some(c) => PinnedUpsert(s, fn, fid, c, i + 1, name);
        }
        TreeStepFrame(s, fn, fid, lines[i], i + 1);
        PinnedKept(s, s1, fid, i, name);
        PinnedKeyAborts(s1, fn, fid, lines, i + 1, j, name);
      }
    }
  }

  /** After an upsert on line `n` that does not fail, the key's one row lies
      on line `n`. */
  lemma CreatedUpsert(s: Scan, fn: string, fid: nat, c: Creation, n: nat)
    requires s.failure.None? && TreeUpsert(s, fn, fid, c, n).failure.None?
    ensures var r := TreeUpsert(s, fn, fid, c, n);
      TreeIds(r.db.tree, c.treename, fid) != []
      && forall id | id in TreeIds(r.db.tree, c.treename, fid) :: r.db.tree[id - 1].fileline <= n
  {
    var r := TreeUpsert(s, fn, fid, c, n);
    TreeUpsertStores(s, fn, fid, c, n);
    var id := r.tids[c.tvarname];
    assert TreeIds(r.db.tree, c.treename, fid) == [id];
    assert r.db.tree[id - 1].fileline == n;
  }

  lemma {:induction false} SameNameFrom(s: Scan, fn: string, fid: nat, lines: seq<string>, p: nat, i: nat, j: nat)
    requires p <= i < j < |lines|
    requires FindCreation(lines[i]).Some? && FindCreation(lines[j]).Some?
    requires FindCreation(lines[i]).value.treename == FindCreation(lines[j]).value.treename
    ensures TreesFrom(s, fn, fid, lines, p).failure.Some?
    decreases i - p
  {
    if s.failure.None? {
      var s1 := TreeStep(s, fn, fid, lines[p], p + 1);
      assert TreesFrom(s, fn, fid, lines, p) == TreesFrom(s1, fn, fid, lines, p + 1);
      if p < i {
        SameNameFrom(s1, fn, fid, lines, p + 1, i, j);
      } else if s1.failure.Some? {
        TreesFromFailed(s1, fn, fid, lines, p + 1);
      } else {
        var c := FindCreation(lines[i]).value;
        assert s1 == TreeUpsert(s, fn, fid, c, i + 1);
        CreatedUpsert(s, fn, fid, c, i + 1);
        PinnedKeyAborts(s1, fn, fid, lines, i + 1, j, c.treename);
      }
    }
  }

  /** Two creation statements of one tree name on different lines of a file
      end its tree pass with a failure. */
  lemma SameNameTwiceAborts(t: Tables, fn: string, fid: nat, lines: seq<string>, i: nat, j: nat)
    requires i < j < |lines|
    requires FindCreation(lines[i]).Some? && FindCreation(lines[j]).Some?
    requires FindCreation(lines[i]).value.treename == FindCreation(lines[j]).value.treename
    ensures TreesFrom(Scan(t, map[], map[], None), fn, fid, lines, 0).failure.Some?
  {
    SameNameFrom(Scan(t, map[], map[], None), fn, fid, lines, 0, i, j);
  }
}
