/** What the correlation pass guarantees: for each known value identifier a
    line mentions, one comment row when the comment test holds and one
    assignment row when the assignment test holds, each identifier counted
    once per line; the pass adds rows of the file and changes nothing else. */
module CorrelationProperties {
  import opened Strings
  import opened Shlex
  import opened Correlation
  import opened Tables
  import opened Passes

  /** The test of `kind` on `line`, as a predicate on identifiers. */
  function Test(kind: NoteKind, line: string): string -> bool {
    bv => Flags(kind, line, bv)
  }

  /** The identifiers of `ks` that `p` selects. */
  function Selected(ks: seq<string>, p: string -> bool): set<string> {
    set bv | bv in ks && p(bv)
  }

  lemma SelectedSnoc(ks: seq<string>, bv: string, p: string -> bool)
    requires bv !in ks
    ensures Selected(ks + [bv], p) == Selected(ks, p) + (if p(bv) then {bv} else {})
    ensures |Selected(ks + [bv], p)| == |Selected(ks, p)| + (if p(bv) then 1 else 0)
  {
    assert Selected(ks + [bv], p) == Selected(ks, p) + (if p(bv) then {bv} else {});
  }

  /** Every row of one kind carries the line, a branch of the value map, the
      file and the line number. */
  lemma {:induction false} NoteRowsFields(kind: NoteKind, line: string, ks: seq<string>, bids: map<string, nat>, fid: nat, n: nat)
    requires forall k | 0 <= k < |ks| :: ks[k] in bids
    ensures forall r | r in NoteRows(kind, line, ks, bids, fid, n) ::
      r.text == line && r.branchid in bids.Values && r.fileid == fid && r.fileline == n
    decreases |ks|
  {
    if ks != [] {
      var front := ks[..|ks| - 1];
      var bv := ks[|ks| - 1];
      assert forall k | 0 <= k < |front| :: front[k] == ks[k];
      NoteRowsFields(kind, line, front, bids, fid, n);
      assert bids[bv] in bids.Values;
    }
  }

  /** The rows of one kind are the line's rows for exactly the identifiers the
      test selects: each carries the line, the identifier's branch, the file
      and the line number. */
  lemma {:induction false} NoteRowsContents(kind: NoteKind, line: string, ks: seq<string>, bids: map<string, nat>, fid: nat, n: nat)
    requires forall k | 0 <= k < |ks| :: ks[k] in bids
    ensures var rows := NoteRows(kind, line, ks, bids, fid, n);
      forall r :: r in rows <==>
        exists k | 0 <= k < |ks| :: Flags(kind, line, ks[k]) && r == NoteRow(line, bids[ks[k]], fid, n)
    decreases |ks|
  {
    if ks != [] {
      var front := ks[..|ks| - 1];
      var bv := ks[|ks| - 1];
      assert forall k | 0 <= k < |front| :: front[k] == ks[k];
      NoteRowsContents(kind, line, front, bids, fid, n);
      var rows := NoteRows(kind, line, ks, bids, fid, n);
      var tail := if Flags(kind, line, bv) then [NoteRow(line, bids[bv], fid, n)] else [];
      assert rows == NoteRows(kind, line, front, bids, fid, n) + tail;
      forall r
        ensures r in rows <==>
          exists k | 0 <= k < |ks| :: Flags(kind, line, ks[k]) && r == NoteRow(line, bids[ks[k]], fid, n)
      {
        if r in tail {
          assert Flags(kind, line, ks[|ks| - 1]) && r == NoteRow(line, bids[ks[|ks| - 1]], fid, n);
        }
      }
    }
  }

  /** With no identifier twice, there is one row per selected identifier. */
  lemma {:induction false} NoteRowsCount(kind: NoteKind, line: string, ks: seq<string>, bids: map<string, nat>, fid: nat, n: nat)
    requires forall k | 0 <= k < |ks| :: ks[k] in bids
    requires NoDuplicates(ks)
    ensures |NoteRows(kind, line, ks, bids, fid, n)| == |Selected(ks, Test(kind, line))|
    decreases |ks|
  {
    if ks == [] {
      assert Selected(ks, Test(kind, line)) == {};
    } else {
      var front := ks[..|ks| - 1];
      var bv := ks[|ks| - 1];
      assert ks == front + [bv];
      assert forall k | 0 <= k < |front| :: front[k] == ks[k] && ks[k] != ks[|ks| - 1];
      assert NoDuplicates(front) by {
        forall i, j | 0 <= i < j < |front| ensures front[i] != front[j] {
          assert front[i] == ks[i] && front[j] == ks[j];
        }
      }
      NoteRowsCount(kind, line, front, bids, fid, n);
      SelectedSnoc(front, bv, Test(kind, line));
    }
  }

  /** The rows of one kind in `t`: `srccomment` or `srcassign`. */
  function NotesOf(t: Tables, kind: NoteKind): seq<NoteRow> {
    match kind
    case Comment => t.srccomment
    case Assign => t.srcassign
  }

  /** One line of correlation appends, to `srccomment` and to `srcassign`
      independently, a row for each known value identifier among the line's
      tokens whose test of that kind holds, and no other row: one row per
      such identifier, each carrying the stripped line. */
  lemma CorrelateStepRows(t: Tables, bids: map<string, nat>, fid: nat, line: string, n: nat, kind: NoteKind)
    ensures var r := CorrelateStep(t, bids, fid, line, n);
      var l := Strip(line);
      var added := NotesOf(r, kind)[|NotesOf(t, kind)|..];
      NotesOf(t, kind) <= NotesOf(r, kind)
      && (forall row :: row in added <==>
            exists bv | bv in bids :: bv in Lex(l) && Flags(kind, l, bv) && row == NoteRow(l, bids[bv], fid, n))
      && |added| == |set bv | bv in bids && bv in Lex(l) && Flags(kind, l, bv)|
  {
    var l := Strip(line);
    var ks := LineIdents(l, bids);
    var r := CorrelateStep(t, bids, fid, line, n);
    assert r == AddNotes(t, bids, fid, l, ks, n);
    var rows := NoteRows(kind, l, ks, bids, fid, n);
    assert NotesOf(r, kind) == NotesOf(t, kind) + rows;
    assert NotesOf(r, kind)[|NotesOf(t, kind)|..] == rows;
    NoteRowsContents(kind, l, ks, bids, fid, n);
    assert forall bv :: bv in ks <==> bv in Lex(l) && bv in bids;
    assert forall k | 0 <= k < |ks| :: ks[k] in ks;
    NoteRowsCount(kind, l, ks, bids, fid, n);
    assert Selected(ks, Test(kind, l)) == set bv | bv in bids && bv in Lex(l) && Flags(kind, l, bv);
  }

  /** What a stretch of correlation does: it appends comment and assignment
      rows of file `fid`, each naming a branch the value map points at, and
      touches no other table. */
  predicate NotesFrame(t: Tables, r: Tables, bids: map<string, nat>, fid: nat) {
    r == t.(srccomment := r.srccomment, srcassign := r.srcassign)
    && t.srccomment <= r.srccomment && t.srcassign <= r.srcassign
    && (forall k | |t.srccomment| <= k < |r.srccomment| ::
          r.srccomment[k].fileid == fid && r.srccomment[k].branchid in bids.Values)
    && (forall k | |t.srcassign| <= k < |r.srcassign| ::
          r.srcassign[k].fileid == fid && r.srcassign[k].branchid in bids.Values)
  }

  lemma CorrelateStepFrame(t: Tables, bids: map<string, nat>, fid: nat, line: string, n: nat)
    ensures NotesFrame(t, CorrelateStep(t, bids, fid, line, n), bids, fid)
  {
    var l := Strip(line);
    var ks := LineIdents(l, bids);
    var r := CorrelateStep(t, bids, fid, line, n);
    assert r == AddNotes(t, bids, fid, l, ks, n);
    var cs, asg := NoteRows(Comment, l, ks, bids, fid, n), NoteRows(Assign, l, ks, bids, fid, n);
    NoteRowsFields(Comment, l, ks, bids, fid, n);
    NoteRowsFields(Assign, l, ks, bids, fid, n);
    forall k | |t.srccomment| <= k < |r.srccomment|
      ensures r.srccomment[k].fileid == fid && r.srccomment[k].branchid in bids.Values
    {
      assert r.srccomment[k] == cs[k - |t.srccomment|];
    }
    forall k | |t.srcassign| <= k < |r.srcassign|
      ensures r.srcassign[k].fileid == fid && r.srcassign[k].branchid in bids.Values
    {
      assert r.srcassign[k] == asg[k - |t.srcassign|];
    }
  }

  lemma NotesFrameTrans(t: Tables, t1: Tables, r: Tables, bids: map<string, nat>, fid: nat)
    requires NotesFrame(t, t1, bids, fid) && NotesFrame(t1, r, bids, fid)
    ensures NotesFrame(t, r, bids, fid)
  {
    forall k | |t.srccomment| <= k < |t1.srccomment|
      ensures r.srccomment[k] == t1.srccomment[k]
    {
    }
    forall k | |t.srcassign| <= k < |t1.srcassign|
      ensures r.srcassign[k] == t1.srcassign[k]
    {
    }
  }

  /** The correlation pass over `lines[i..]` appends rows of file `fid`
      naming branches of the value map, and changes no other table. */
  lemma {:induction false} CorrelateFromFrame(t: Tables, bids: map<string, nat>, fid: nat, lines: seq<string>, i: nat)
    ensures NotesFrame(t, CorrelateFrom(t, bids, fid, lines, i), bids, fid)
    decreases |lines| - i
  {
    if i < |lines| {
      var t1 := CorrelateStep(t, bids, fid, lines[i], i + 1);
      CorrelateStepFrame(t, bids, fid, lines[i], i + 1);
      CorrelateFromFrame(t1, bids, fid, lines, i + 1);
      NotesFrameTrans(t, t1, CorrelateFrom(t1, bids, fid, lines, i + 1), bids, fid);
    }
  }
}
