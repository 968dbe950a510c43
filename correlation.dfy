// The two tests of the correlation pass, the comment test (the identifier,
// `.*`, a slash, then `[/*]`) and the assignment test `{bv}[^=]*=[^=]`, both
// run with `re.search`, and the choice of the value identifiers a line
// mentions.  The identifier is put into the pattern unescaped, so a `.` in it
// matches any character but a newline.
module Correlation {
  import opened Strings

  /** One character of the interpolated identifier against one of the line. */
  predicate CharMatches(p: char, c: char) { if p == '.' then c != '\n' else c == p }

  /** The identifier, read as a pattern, matches the line at `i`. */
  predicate OccursAt(line: string, i: nat, bv: string) {
    i + |bv| <= |line| && forall k | 0 <= k < |bv| :: CharMatches(bv[k], line[i + k])
  }

  predicate NewlineFree(line: string, a: nat, b: nat) {
    forall k | a <= k < b && k < |line| :: line[k] != '\n'
  }

  // A slash then `[/*]` at `j`: the start of a line or block comment.
  predicate CommentMarkerAt(line: string, j: nat) {
    j + 1 < |line| && line[j] == '/' && (line[j + 1] == '/' || line[j + 1] == '*')
  }

  /** `= [^=]` at `e`: an `=` followed by a character other than `=`. */
  predicate LoneEqualsAt(line: string, e: nat) {
    e + 1 < |line| && line[e] == '=' && line[e + 1] != '='
  }

  predicate NoEqualsBetween(line: string, a: nat, b: nat) {
    forall k | a <= k < b && k < |line| :: line[k] != '='
  }

  // `.*` then a comment marker, from `a`: a comment starts later on the same line.
  function MarkerFrom(line: string, a: nat): (r: bool)
    ensures r <==> exists j | a <= j :: NewlineFree(line, a, j) && CommentMarkerAt(line, j)
    decreases |line| - a
  {
    if a + 1 >= |line| then
      assert forall j | a <= j :: !CommentMarkerAt(line, j);
      false
    else if CommentMarkerAt(line, a) then
      assert NewlineFree(line, a, a);
      true
    else if line[a] == '\n' then
      assert forall j | a < j :: !NewlineFree(line, a, j);
      false
    else
      var r := MarkerFrom(line, a + 1);
      assert forall j | a + 1 <= j :: NewlineFree(line, a, j) == NewlineFree(line, a + 1, j);
      r
  }

  /** `[^=]*=[^=]` from `a`: the first `=` from `a` on is followed by another
      character, and that character is not `=`. */
  function AssignFrom(line: string, a: nat): (r: bool)
    ensures r <==> exists e | a <= e :: NoEqualsBetween(line, a, e) && LoneEqualsAt(line, e)
    decreases |line| - a
  {
    if a >= |line| then
      assert forall e | a <= e :: !LoneEqualsAt(line, e);
      false
    else if line[a] == '=' then
      assert NoEqualsBetween(line, a, a);
      assert forall e | a < e :: !NoEqualsBetween(line, a, e);
      LoneEqualsAt(line, a)
    else
      var r := AssignFrom(line, a + 1);
      assert forall e | a + 1 <= e :: NoEqualsBetween(line, a, e) == NoEqualsBetween(line, a + 1, e);
      r
  }

  /** The leftmost-first search of `bv` followed by `tail`, from `i` on. */
  function CommentFrom(line: string, bv: string, i: nat): (r: bool)
    ensures r <==> exists p | i <= p :: OccursAt(line, p, bv) && MarkerFrom(line, p + |bv|)
    decreases |line| - i
  {
    if i + |bv| > |line| then
      assert forall p | i <= p :: !OccursAt(line, p, bv);
      false
    else (OccursAt(line, i, bv) && MarkerFrom(line, i + |bv|)) || CommentFrom(line, bv, i + 1)
  }

  function AssignSearchFrom(line: string, bv: string, i: nat): (r: bool)
    ensures r <==> exists p | i <= p :: OccursAt(line, p, bv) && AssignFrom(line, p + |bv|)
    decreases |line| - i
  {
    if i + |bv| > |line| then
      assert forall p | i <= p :: !OccursAt(line, p, bv);
      false
    else (OccursAt(line, i, bv) && AssignFrom(line, i + |bv|)) || AssignSearchFrom(line, bv, i + 1)
  }

  // The comment test on a whole line: the identifier, then a comment marker
  // later on the same line.
  function HasComment(line: string, bv: string): bool {
    CommentFrom(line, bv, 0)
  }

  // The assignment test on a whole line: somewhere the identifier, then
  // non-`=` characters up to an `=` that another non-`=` character follows.
  function HasAssign(line: string, bv: string): bool {
    AssignSearchFrom(line, bv, 0)
  }

  // The comment test holds exactly when some occurrence of the identifier is
  // followed, later on the same line, by a comment marker.
  lemma HasCommentIff(line: string, bv: string)
    ensures HasComment(line, bv) <==>
      exists p: nat, j: nat | p + |bv| <= j :: OccursAt(line, p, bv) && NewlineFree(line, p + |bv|, j) && CommentMarkerAt(line, j)
  {
    if HasComment(line, bv) {
      var p: nat :| OccursAt(line, p, bv) && MarkerFrom(line, p + |bv|);
      var j: nat :| p + |bv| <= j && NewlineFree(line, p + |bv|, j) && CommentMarkerAt(line, j);
    }
  }

  /** The assignment test holds exactly when, after some occurrence of the
      identifier, the first `=` is followed by a character other than `=`. */
  lemma HasAssignIff(line: string, bv: string)
    ensures HasAssign(line, bv) <==>
      exists p: nat, e: nat | p + |bv| <= e :: OccursAt(line, p, bv) && NoEqualsBetween(line, p + |bv|, e) && LoneEqualsAt(line, e)
  {
    if HasAssign(line, bv) {
      var p: nat :| OccursAt(line, p, bv) && AssignFrom(line, p + |bv|);
      var e: nat :| p + |bv| <= e && NoEqualsBetween(line, p + |bv|, e) && LoneEqualsAt(line, e);
    }
  }

  predicate NoDuplicates(s: seq<string>) {
    forall i, j | 0 <= i < j < |s| :: s[i] != s[j]
  }

  /** The identifiers considered on a line: each token that is a known value
      variable, once, in the order of first appearance. */
  function KeyIdents(tokens: seq<string>, keys: set<string>): (ks: seq<string>)
    ensures NoDuplicates(ks)
    ensures forall x :: x in ks <==> x in tokens && x in keys
    decreases |tokens|
  {
    if tokens == [] then []
    else
      var ks := KeyIdents(tokens[..|tokens| - 1], keys);
      var t := tokens[|tokens| - 1];
      assert tokens == tokens[..|tokens| - 1] + [t];
      if t in keys && t !in ks then ks + [t] else ks
  }
}
