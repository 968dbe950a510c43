/** Concrete lines run through the model: the end-to-end example of a small
    file, lines of `Selection/AnalysisTools/EventWeightTree_tool.cc`, and the
    correlation tests on sample lines.  Each line is written out literally
    and shown equal to the text the patterns write from its parts, so the
    round-trip lemmas of the matchers decide what the scraper finds. */
module Scenarios {
  import opened Strings
  import opened Pieces
  import opened TreePatterns
  import opened BranchPatterns
  import opened Shlex
  import opened Correlation
  import opened Tables
  import opened Passes
  import opened BranchProperties
  import opened CorrelationProperties

  // ------------------------------------------------------ general helpers

  /** The search finds the matcher's first success at `k` when it fails at
      every earlier start. */
  lemma {:induction false} SearchFromAt<T>(m: string -> Option<Match<T>>, s: string, i: nat, k: nat)
    requires i <= k <= |s|
    requires forall j | i <= j < k :: m(s[j..]).None?
    requires m(s[k..]).Some?
    ensures SearchFrom(m, s, i) == Some(Found(k, m(s[k..]).value))
    decreases k - i
  {
    if i < k {
      SearchFromAt(m, s, i + 1, k);
    }
  }

  /** The search over a prefix followed by `u` finds the matcher's match on
      `u` when the matcher fails at every start inside the prefix. */
  lemma SearchAfter<T>(m: string -> Option<Match<T>>, P: string, u: string, hit: Match<T>)
    requires forall j | 0 <= j < |P| :: m((P + u)[j..]).None?
    requires m(u) == Some(hit)
    ensures SearchFrom(m, P + u, 0) == Some(Found(|P|, hit))
  {
    assert (P + u)[|P|..] == u;
    SearchFromAt(m, P + u, 0, |P|);
  }

  /** The search finds nothing when the matcher fails at every start. */
  lemma {:induction false} SearchFromNone<T>(m: string -> Option<Match<T>>, s: string, i: nat)
    requires i <= |s|
    requires forall j | i <= j <= |s| :: m(s[j..]).None?
    ensures SearchFrom(m, s, i).None?
    decreases |s| - i
  {
    if i < |s| {
      SearchFromNone(m, s, i + 1);
    }
  }

  /** Every operand text holds its operator. */
  lemma OperandsHaveOp(op: string)
    requires op != []
    ensures forall o: Operand, x: string :: op[0] in OperandText(o, op, x)
  {
    forall o: Operand, x: string ensures op[0] in OperandText(o, op, x) {
      assert OperandText(o, op, x)[|o.word| + o.gap0] == op[0];
    }
  }

  /** Every statement RE_TTREE_1 or RE_TTREE_2 matches contains `=`. */
  lemma MakeNeedsEquals(t: string)
    requires '=' !in t
    ensures MatchMake(t).None? && MatchNew(t).None?
  {
    OperandsHaveOp("=");
  }

  /** The keyword `Branch` holds a `B`. */
  lemma BranchKeywordsHaveB()
    ensures forall g: seq<nat>, x: string | |g| == |BranchKeywords| :: 'B' in KeywordsText(BranchKeywords, g, x)
  {
    forall g: seq<nat>, x: string | |g| == |BranchKeywords| ensures 'B' in KeywordsText(BranchKeywords, g, x) {
      assert KeywordsText(BranchKeywords, g, x)[0] == 'B';
    }
  }

  /** Every call RE_BRANCH matches contains `Branch`, so a `B`. */
  lemma BranchNeedsB(t: string)
    requires 'B' !in t
    ensures MatchBranch(t).None?
  {
    BranchKeywordsHaveB();
  }

  /** A line without `=` creates no tree. */
  lemma NoCreationWithoutEquals(line: string)
    requires '=' !in line
    ensures FindCreation(line).None?
  {
    forall j | 0 <= j <= |line| ensures MatchMake(line[j..]).None? && MatchNew(line[j..]).None? {
      MakeNeedsEquals(line[j..]);
    }
    SearchFromNone(MatchMake, line, 0);
    SearchFromNone(MatchNew, line, 0);
  }

  /** A line without `B` holds no Branch call. */
  lemma NoBranchWithoutB(line: string)
    requires 'B' !in line
    ensures SearchFrom(MatchBranch, line, 0).None?
  {
    forall j | 0 <= j <= |line| ensures MatchBranch(line[j..]).None? {
      BranchNeedsB(line[j..]);
    }
    SearchFromNone(MatchBranch, line, 0);
  }

  /** No match of `word *op` starts inside a prefix that lacks the operator
      and ends in a non-word character, when a word follows the prefix. */
  lemma NotOperandInPrefix(P: string, u: string, op: string)
    requires op != [] && op[0] != ' ' && !IsWordChar(op[0]) && op[0] !in P
    requires P != [] && !IsWordChar(P[|P| - 1])
    requires u != [] && IsWordChar(u[0])
    ensures forall j, o: Operand, x: string | 0 <= j < |P| && IsWord(o.word) :: (P + u)[j..] != OperandText(o, op, x)
  {
    forall j, o: Operand, x: string | 0 <= j < |P| && IsWord(o.word)
      ensures (P + u)[j..] != OperandText(o, op, x)
    {
      var t := (P + u)[j..];
      var s := OperandText(o, op, x);
      var n, w, g := |P| - j, |o.word|, o.gap0;
      assert t[n - 1] == P[|P| - 1] && t[n] == u[0];
      assert s == o.word + (Spaces(g) + (op + Sp(o.gap1, x)));
      if n - 1 < w {
        assert s[n - 1] == o.word[n - 1];
      } else if n < w + g {
        assert s[n] == ' ';
      } else if n == w + g {
        assert s[n] == op[0];
      } else {
        assert s[w + g] == op[0];
        assert t[w + g] == P[j + w + g];
        assert P[j + w + g] in P;
      }
    }
  }

  lemma BranchNoneInPrefix(P: string, u: string)
    requires '-' !in P && P != [] && !IsWordChar(P[|P| - 1])
    requires u != [] && IsWordChar(u[0])
    ensures forall j | 0 <= j < |P| :: MatchBranch((P + u)[j..]).None?
  {
    NotOperandInPrefix(P, u, "->");
  }

  lemma MakeNoneInPrefix(P: string, u: string)
    requires '=' !in P && P != [] && !IsWordChar(P[|P| - 1])
    requires u != [] && IsWordChar(u[0])
    ensures forall j | 0 <= j < |P| :: MatchMake((P + u)[j..]).None?
  {
    NotOperandInPrefix(P, u, "=");
  }

  /** A Branch call after such a prefix is the one the search finds. */
  lemma BranchAfterPrefix(P: string, b: BranchCall, rest: string)
    requires ValidBranch(b) && NoLeadingBlank(rest)
    requires '-' !in P && P != [] && !IsWordChar(P[|P| - 1])
    ensures SearchFrom(MatchBranch, P + BranchText(b, rest), 0) == Some(Found(|P|, Match(b, rest)))
  {
    var u := BranchText(b, rest);
    assert forall j | 0 <= j < |P| :: MatchBranch((P + u)[j..]).None? by {
      OperandTextHead(b.tree, "->", KeywordsText(BranchKeywords, b.kgaps, NameArgText(b.name, rest)));
      BranchNoneInPrefix(P, u);
    }
    MatchBranchText(b, rest);
    SearchAfter(MatchBranch, P, u, Match(b, rest));
  }

  /** A creation statement after such a prefix is the one the search finds. */
  lemma MakeAfterPrefix(P: string, m: MakeCall, rest: string)
    requires ValidMake(m) && NoLeadingBlank(rest)
    requires '=' !in P && P != [] && !IsWordChar(P[|P| - 1])
    ensures SearchFrom(MatchMake, P + MakeText(m, rest), 0) == Some(Found(|P|, Match(m, rest)))
  {
    var u := MakeText(m, rest);
    assert forall j | 0 <= j < |P| :: MatchMake((P + u)[j..]).None? by {
      OperandTextHead(m.binding, "=", OperandText(m.owner, "->",
        KeywordsText(MakeKeywords, m.kgaps, NameArgText(m.name, rest))));
      MakeNoneInPrefix(P, u);
    }
    MatchMakeText(m, rest);
    SearchAfter(MatchMake, P, u, Match(m, rest));
  }

  // --------------------------------------------------- texts spelled out

  lemma Sp0(x: string)
    ensures Sp(0, x) == x
  {
  }

  lemma Sp1(x: string)
    ensures Sp(1, x) == " " + x
  {
    assert Spaces(1) == " ";
  }

  lemma OperandTight(w: string, op: string, x: string)
    ensures OperandText(Operand(w, 0, 0), op, x) == w + (op + x)
  {
    Sp0(x);
    Sp0(op + x);
  }

  lemma OperandSpaced(w: string, op: string, x: string)
    ensures OperandText(Operand(w, 1, 1), op, x) == w + (" " + (op + (" " + x)))
  {
    Sp1(x);
    Sp1(op + (" " + x));
  }

  lemma NameArgTight(name: string, x: string)
    ensures NameArgText(NameArg(0, name, 0), x) == "(\"" + (name + ("\"" + x))
  {
    Sp0(x);
    Sp0("\"" + (name + ("\"" + x)));
  }

  function Concat(lits: seq<string>): string {
    if lits == [] then "" else lits[0] + Concat(lits[1..])
  }

  /** Keywords with no blanks between them are their concatenation. */
  lemma {:induction false} KeywordsTight(lits: seq<string>, gaps: seq<nat>, x: string)
    requires |gaps| == |lits| && forall k | 0 <= k < |gaps| :: gaps[k] == 0
    ensures KeywordsText(lits, gaps, x) == Concat(lits) + x
    decreases |lits|
  {
    if lits != [] {
      KeywordsTight(lits[1..], gaps[1..], x);
      Sp0(KeywordsText(lits[1..], gaps[1..], x));
    }
  }

  /** `v = owner->make<TTree>("name", "title")` followed by `rest`. */
  function CreateLine(v: string, owner: string, name: string, title: string, rest: string): string {
    v + (" = " + (owner + ("->" + ("make<TTree>" + ("(\"" + (name + ("\"" + (", \"" + (title + ("\")" + rest))))))))))
  }

  function CreateCall(v: string, owner: string, name: string): MakeCall {
    MakeCall(Operand(v, 1, 1), Operand(owner, 0, 0), [0, 0, 0, 0], NameArg(0, name, 0))
  }

  lemma NameTitleText(name: string, title: string, rest: string)
    ensures NameArgText(NameArg(0, name, 0), TitleText(TitleArgs(1, title, 0), rest)) ==
      "(\"" + (name + ("\"" + (", \"" + (title + ("\")" + rest)))))
  {
    Sp0(")" + rest);
    Sp1("\"" + (title + ("\"" + (")" + rest))));
    NameArgTight(name, TitleText(TitleArgs(1, title, 0), rest));
  }

  lemma CreateHeadText(v: string, owner: string, n: string)
    ensures OperandText(Operand(v, 1, 1), "=", OperandText(Operand(owner, 0, 0), "->", KeywordsText(MakeKeywords, [0, 0, 0, 0], n)))
      == v + (" = " + (owner + ("->" + ("make<TTree>" + n))))
  {
    KeywordsTight(MakeKeywords, [0, 0, 0, 0], n);
    assert Concat(MakeKeywords) == "make<TTree>";
    OperandTight(owner, "->", "make<TTree>" + n);
    OperandSpaced(v, "=", owner + ("->" + ("make<TTree>" + n)));
  }

  lemma CreateLineText(v: string, owner: string, name: string, title: string, rest: string)
    ensures CreateLine(v, owner, name, title, rest) == MakeText(CreateCall(v, owner, name), TitleText(TitleArgs(1, title, 0), rest))
  {
    NameTitleText(name, title, rest);
    CreateHeadText(v, owner, NameArgText(NameArg(0, name, 0), TitleText(TitleArgs(1, title, 0), rest)));
  }

  /** `v->Branch("bname", &x, "leaf")` followed by `rest`, with `gap` blanks
      after each comma. */
  function LeafLine(v: string, bname: string, gap: nat, x: string, leaf: string, rest: string): string {
    v + ("->" + ("Branch" + ("(\"" + (bname + ("\"" + ("," + Sp(gap, "&" + (x + ("," + Sp(gap, "\"" + (leaf + ("\"" + (")" + rest)))))))))))))
  }

  /** `v->Branch("bname", "cls", &x)` followed by `rest`. */
  function TypeLine(v: string, bname: string, cls: string, x: string, rest: string): string {
    v + ("->" + ("Branch" + ("(\"" + (bname + ("\"" + ("," + (" " + ("\"" + (cls + ("\"" + ("," + (" " + ("&" + (x + (")" + rest)))))))))))))))
  }

  function TightBranch(v: string, bname: string): BranchCall {
    BranchCall(Operand(v, 0, 0), [0], NameArg(0, bname, 0))
  }

  lemma BranchHeadText(v: string, bname: string, args: string)
    ensures BranchText(TightBranch(v, bname), args) == v + ("->" + ("Branch" + ("(\"" + (bname + ("\"" + args)))))
  {
    NameArgTight(bname, args);
    var n := NameArgText(NameArg(0, bname, 0), args);
    KeywordsTight(BranchKeywords, [0], n);
    assert Concat(BranchKeywords) == "Branch";
    OperandTight(v, "->", "Branch" + n);
  }

  function LeafShape(gap: nat, x: string, leaf: string): LeafArgs {
    LeafArgs(gap, ValueArg(true, x, 0), gap, Quoted(leaf, 0), ")")
  }

  lemma LeafArgsSpelled(gap: nat, x: string, leaf: string, rest: string)
    ensures LeafArgsText(LeafShape(gap, x, leaf), rest) ==
      "," + Sp(gap, "&" + (x + ("," + Sp(gap, "\"" + (leaf + ("\"" + (")" + rest)))))))
  {
    Sp0(")" + rest);
    Sp0("," + Sp(gap, "\"" + (leaf + ("\"" + (")" + rest)))));
  }

  lemma LeafLineText(v: string, bname: string, gap: nat, x: string, leaf: string, rest: string)
    ensures LeafLine(v, bname, gap, x, leaf, rest) == BranchText(TightBranch(v, bname), LeafArgsText(LeafShape(gap, x, leaf), rest))
  {
    LeafArgsSpelled(gap, x, leaf, rest);
    BranchHeadText(v, bname, LeafArgsText(LeafShape(gap, x, leaf), rest));
  }

  function TypeShape(cls: string, x: string): TypeArgs {
    TypeArgs(1, Quoted(cls, 0), 1, ValueArg(true, x, 0), ")")
  }

  lemma TypeArgsSpelled(cls: string, x: string, rest: string)
    ensures TypeArgsText(TypeShape(cls, x), rest) ==
      "," + (" " + ("\"" + (cls + ("\"" + ("," + (" " + ("&" + (x + (")" + rest)))))))))
  {
    Sp0(")" + rest);
    Sp1("&" + (x + (")" + rest)));
    Sp0("," + (" " + ("&" + (x + (")" + rest)))));
    Sp1("\"" + (cls + ("\"" + ("," + (" " + ("&" + (x + (")" + rest))))))));
  }

  lemma TypeLineText(v: string, bname: string, cls: string, x: string, rest: string)
    ensures TypeLine(v, bname, cls, x, rest) == BranchText(TightBranch(v, bname), TypeArgsText(TypeShape(cls, x), rest))
  {
    TypeArgsSpelled(cls, x, rest);
    BranchHeadText(v, bname, TypeArgsText(TypeShape(cls, x), rest));
  }

  // ------------------------------------------------ lines that are found

  lemma SearchAtStart<T>(m: string -> Option<Match<T>>, u: string, hit: Match<T>)
    requires m(u) == Some(hit)
    ensures SearchFrom(m, u, 0) == Some(Found(0, hit))
  {
    assert u[0..] == u;
  }

  /** A prefix in which no match can start: no operator character, and
      either nothing or a non-word character last. */
  predicate Lead(P: string, c: char) {
    c !in P && (P == [] || !IsWordChar(P[|P| - 1]))
  }

  /** After such a prefix, a creation statement written out gives its
      variable, its tree name and its title. */
  lemma CreateLineFound(P: string, v: string, owner: string, name: string, title: string, rest: string)
    requires Lead(P, '=') && IsWord(v) && IsWord(owner) && IsWord(name)
    requires NoNewline(title) && NoQuoteIn(title) && NoQuoteIn(rest)
    ensures FindCreation(P + CreateLine(v, owner, name, title, rest)) == Some(Creation(v, name, title))
  {
    var m, a := CreateCall(v, owner, name), TitleArgs(1, title, 0);
    var after := TitleText(a, rest);
    CreateLineText(v, owner, name, title, rest);
    if P == [] {
      assert P + MakeText(m, after) == MakeText(m, after);
      MatchMakeText(m, after);
      SearchAtStart(MatchMake, MakeText(m, after), Match(m, after));
    } else {
      MakeAfterPrefix(P, m, after);
    }
    MatchTitleText(a, rest);
  }

  /** The Branch call a line holds: its tree variable, its name and the
      argument shape. */
  predicate BranchOn(line: string, tvar: string, bname: string, args: BranchArgs) {
    var f := SearchFrom(MatchBranch, line, 0);
    f.Some? && f.value.hit.parts.TVar() == tvar && f.value.hit.parts.BName() == bname
    && ClassifyArgs(f.value.hit.rest) == args
  }

  lemma BranchFound(P: string, b: BranchCall, rest: string)
    requires Lead(P, '-') && ValidBranch(b) && NoLeadingBlank(rest)
    ensures SearchFrom(MatchBranch, P + BranchText(b, rest), 0) == Some(Found(|P|, Match(b, rest)))
  {
    if P == [] {
      assert P + BranchText(b, rest) == BranchText(b, rest);
      MatchBranchText(b, rest);
      SearchAtStart(MatchBranch, BranchText(b, rest), Match(b, rest));
    } else {
      BranchAfterPrefix(P, b, rest);
    }
  }

  /** `v->Branch("bname", &x, "leaf")` is argument shape 1. */
  lemma LeafLineFound(P: string, v: string, bname: string, gap: nat, x: string, leaf: string, rest: string)
    requires Lead(P, '-') && IsWord(v) && IsWord(bname) && IsValueName(x) && IsScalarLeaf(leaf)
    ensures BranchOn(P + LeafLine(v, bname, gap, x, leaf, rest), v, bname, Shape1(x, leaf))
  {
    var a := LeafShape(gap, x, leaf);
    LeafLineText(v, bname, gap, x, leaf, rest);
    BranchFound(P, TightBranch(v, bname), LeafArgsText(a, rest));
    ClassifyShape1Text(a, rest);
  }

  /** `v->Branch("bname", "cls", &x)` is argument shape 3, the class name
      kept with its quotes. */
  lemma TypeLineFound(P: string, v: string, bname: string, cls: string, x: string, rest: string)
    requires Lead(P, '-') && IsWord(v) && IsWord(bname) && |cls| > 0 && NoQuoteIn(cls) && IsValueName(x)
    ensures BranchOn(P + TypeLine(v, bname, cls, x, rest), v, bname, Shape3("\"" + cls + "\"", x))
  {
    var a := TypeShape(cls, x);
    TypeLineText(v, bname, cls, x, rest);
    BranchFound(P, TightBranch(v, bname), TypeArgsText(a, rest));
    ClassifyShape3Text(a, rest);
  }

  /** A line whose Branch call has a shape is recorded. */
  lemma BranchStepOn(s: Scan, fn: string, fid: nat, line: string, n: nat, tvar: string, bname: string, args: BranchArgs)
    requires BranchOn(line, tvar, bname, args) && !args.NoShape?
    ensures BranchStep(s, fn, fid, line, n) == BranchRecord(s, fid, tvar, bname, args, n)
  {
  }

  // ----------------------------------------- Selection/AnalysisTools/EventWeightTree_tool.cc

  const MapClass := "std::map<std::string, std::vector<double>>"

  /** Line 104, indented by six blanks: `_weightstree` is bound to a tree made
      through the file service `tfs`, named `EventWeights` and titled
      `EventWeights TTree`. */
  const Line104 := Spaces(6) + CreateLine("_weightstree", "tfs", "EventWeights", "EventWeights TTree", ";")

  /** Line 268, indented by six blanks: branch `weights` of `_weightstree`,
      of class `MapClass`, holding `_mapWeight`. */
  const Line268 := Spaces(6) + TypeLine("_weightstree", "weights", MapClass, "_mapWeight", ";")

  /** Line 273: under the guard `if(_createMapBranch)`, the same branch
      `weights` declared on `_tree`, the function's parameter. */
  const Line273 := "    if(_createMapBranch) " + TypeLine("_tree", "weights", MapClass, "_mapWeight", ";")

  lemma IndentLead(c: char)
    requires c != ' '
    ensures Lead(Spaces(6), c)
  {
    assert forall k | 0 <= k < 6 :: Spaces(6)[k] != c;
  }

  /** Line 104 creates tree `EventWeights`, titled `EventWeights TTree`, in `_weightstree`. */
  lemma Line104Creation()
    ensures FindCreation(Line104) == Some(Creation("_weightstree", "EventWeights", "EventWeights TTree"))
  {
    IndentLead('=');
    CreateLineFound(Spaces(6), "_weightstree", "tfs", "EventWeights", "EventWeights TTree", ";");
  }

  /** Line 268 is a shape-3 call; its captured class name keeps its quotes. */
  lemma Line268Branch()
    ensures BranchOn(Line268, "_weightstree", "weights", Shape3("\"" + MapClass + "\"", "_mapWeight"))
  {
    IndentLead('-');
    TypeLineFound(Spaces(6), "_weightstree", "weights", MapClass, "_mapWeight", ";");
  }

  /** Line 273 calls Branch on `_tree`, a variable no statement of the file creates. */
  lemma Line273Branch()
    ensures BranchOn(Line273, "_tree", "weights", Shape3("\"" + MapClass + "\"", "_mapWeight"))
  {
    TypeLineFound("    if(_createMapBranch) ", "_tree", "weights", MapClass, "_mapWeight", ";");
  }

  /** The leaf definition of a shape-3 call on `MapClass`. */
  lemma MapLeafDef()
    ensures LeafDef("weights", Shape3("\"" + MapClass + "\"", "_mapWeight"))
            == "weights (\"" + MapClass + "\")"
  {
    Assoc("weights (", "\"" + MapClass, "\")");
    Assoc("\"", MapClass, "\"");
    Assoc("\"", MapClass, "\")");
  }

  /** With no tree bound to `_tree`, line 273 first inserts the ghost tree
      `_tree` (empty title, line -1) and then its branch row, whose leaf
      definition is the branch name followed by the quoted class name in
      parentheses. */
  lemma Line273Ghost(s: Scan, fn: string, fid: nat)
    requires "_tree" !in s.tids
    ensures var r := BranchStep(s, fn, fid, Line273, 273);
      r.db.tree == s.db.tree + [TreeRow("_tree", "", "_tree", fid, -1)]
      && "_tree" in r.tids
      && r.db.branch == s.db.branch
           + [BranchRow(r.tids["_tree"], "weights", "weights (\"" + MapClass + "\")", "_mapWeight", fid, 273)]
      && r.failure == s.failure
  {
    var args := Shape3("\"" + MapClass + "\"", "_mapWeight");
    MapLeafDef();
    Line273Branch();
    BranchStepOn(s, fn, fid, Line273, 273, "_tree", "weights", args);
    BranchRecordTree(s, fid, "_tree", "weights", args, 273);
    BranchRecordRow(s, fid, "_tree", "weights", args, 273);
  }

  // ------------------------------------------------- facts for sample lines

  lemma WordLacks(w: string, c: char)
    requires AllWordChars(w) && !IsWordChar(c)
    ensures c !in w
  {
    assert forall k | 0 <= k < |w| :: w[k] != c;
  }

  /** Every statement RE_TTREE_1 matches holds `->`, and every one
      RE_TTREE_2 matches holds the `n` of `new`. */
  lemma CreationNeedsArrowOrN(t: string)
    requires '-' !in t && 'n' !in t
    ensures MatchMake(t).None? && MatchNew(t).None?
  {
    OperandsHaveOp("->");
    forall g: seq<nat>, x: string | |g| == |NewKeywords| ensures 'n' in KeywordsText(NewKeywords, g, x) {
      assert KeywordsText(NewKeywords, g, x)[0] == 'n';
    }
  }

  /** A line without `-` and without `n` creates no tree. */
  lemma NoCreationWithoutArrowOrN(line: string)
    requires '-' !in line && 'n' !in line
    ensures FindCreation(line).None?
  {
    forall j | 0 <= j <= |line| ensures MatchMake(line[j..]).None? && MatchNew(line[j..]).None? {
      CreationNeedsArrowOrN(line[j..]);
    }
    SearchFromNone(MatchMake, line, 0);
    SearchFromNone(MatchNew, line, 0);
  }

  /** No comment marker anywhere on the line. */
  predicate NoMarker(s: string) {
    forall j | 0 <= j < |s| :: !CommentMarkerAt(s, j)
  }

  lemma SlashFree(s: string)
    requires '/' !in s
    ensures NoMarker(s)
  {
    forall j | 0 <= j < |s| ensures !CommentMarkerAt(s, j) {
      assert s[j] in s;
    }
  }

  /** A prefix without `/` puts no marker in front of a text that has none. */
  lemma MarkerSplit(P: string, u: string)
    requires '/' !in P && NoMarker(u)
    ensures NoMarker(P + u)
  {
    forall j | 0 <= j < |P + u| ensures !CommentMarkerAt(P + u, j) {
      if j < |P| {
        assert (P + u)[j] == P[j] && P[j] in P;
      } else {
        assert (P + u)[j] == u[j - |P|];
        if j + 1 < |P + u| {
          assert (P + u)[j + 1] == u[j - |P| + 1];
        }
        assert !CommentMarkerAt(u, j - |P|);
      }
    }
  }

  /** Without a marker the comment test fails, whatever the identifier. */
  lemma NoCommentWithoutMarker(line: string, bv: string)
    requires NoMarker(line)
    ensures !HasComment(line, bv)
  {
    HasCommentIff(line, bv);
  }

  /** Without `=` the assignment test fails, whatever the identifier. */
  lemma NoAssignWithoutEquals(line: string, bv: string)
    requires '=' !in line
    ensures !HasAssign(line, bv)
  {
    HasAssignIff(line, bv);
    forall e: nat ensures !LoneEqualsAt(line, e) {
      if e < |line| {
        assert line[e] in line;
      }
    }
  }

  /** A line without the identifier's first character passes neither test. */
  lemma NoFlagsWithoutMention(line: string, bv: string)
    requires bv != [] && bv[0] != '.' && bv[0] !in line
    ensures !HasComment(line, bv) && !HasAssign(line, bv)
  {
    HasCommentIff(line, bv);
    HasAssignIff(line, bv);
    forall p: nat ensures !OccursAt(line, p, bv) {
      if p < |line| {
        assert line[p] in line;
      }
    }
  }

  /** `str.strip()` leaves a line alone that neither starts nor ends with white space. */
  lemma StripClean(s: string)
    requires s != [] && !IsPySpace(s[0]) && !IsPySpace(s[|s| - 1])
    ensures Strip(s) == s
  {
    assert LeadingWhite(s, 0) == 0;
    assert TrailingWhite(s, 0, |s|) == |s|;
    assert s[0..|s|] == s;
  }

  lemma SpacesLack(n: nat, c: char)
    requires c != ' '
    ensures c !in Spaces(n)
  {
    assert forall k | 0 <= k < n :: Spaces(n)[k] != c;
  }

  /** The leaf tail `/?\w?` starts no comment, whatever follows it, as long as
      that starts with neither `/` nor `*`. */
  lemma TailMarker(tail: string, Q: string)
    requires IsLeafTail(tail) && NoMarker(Q) && (Q == [] || (Q[0] != '/' && Q[0] != '*'))
    ensures NoMarker(tail + Q)
  {
    var s := tail + Q;
    forall j | 0 <= j < |s| ensures !CommentMarkerAt(s, j) {
      if j >= |tail| {
        assert s[j] == Q[j - |tail|];
        if j + 1 < |s| {
          assert s[j + 1] == Q[j - |tail| + 1];
        }
        assert !CommentMarkerAt(Q, j - |tail|);
      }
    }
  }

  /** A shape-1 Branch call whose leaf is a scalar leaf holds no comment marker. */
  lemma LeafLineNoMarker(v: string, bname: string, gap: nat, x: string, w: string, tail: string, rest: string)
    requires IsWord(v) && IsWord(bname) && IsWord(x) && IsWord(w) && IsLeafTail(tail) && '/' !in rest
    ensures NoMarker(LeafLine(v, bname, gap, x, w + tail, rest))
  {
    var q := "\"" + (")" + rest);
    SlashFree(q);
    TailMarker(tail, q);
    WordLacks(w, '/');
    MarkerSplit(w, tail + q);
    assert w + (tail + q) == (w + tail) + q;
    var u := (w + tail) + q;
    SpacesLack(gap, '/');
    WordLacks(x, '/');
    WordLacks(bname, '/');
    WordLacks(v, '/');
    MarkerSplit("\"", u);
    MarkerSplit(Spaces(gap), "\"" + u);
    MarkerSplit(",", Sp(gap, "\"" + u));
    MarkerSplit(x, "," + Sp(gap, "\"" + u));
    MarkerSplit("&", x + ("," + Sp(gap, "\"" + u)));
    var a := "&" + (x + ("," + Sp(gap, "\"" + u)));
    MarkerSplit(Spaces(gap), a);
    MarkerSplit(",", Sp(gap, a));
    MarkerSplit("\"", "," + Sp(gap, a));
    MarkerSplit(bname, "\"" + ("," + Sp(gap, a)));
    MarkerSplit("(\"", bname + ("\"" + ("," + Sp(gap, a))));
    MarkerSplit("Branch", "(\"" + (bname + ("\"" + ("," + Sp(gap, a)))));
    MarkerSplit("->", "Branch" + ("(\"" + (bname + ("\"" + ("," + Sp(gap, a))))));
    MarkerSplit(v, "->" + ("Branch" + ("(\"" + (bname + ("\"" + ("," + Sp(gap, a)))))));
  }

  /** `// x note`: a comment line that names the identifier after its marker. */
  function CommentLine(x: string, note: string): string {
    "//" + (" " + (x + note))
  }

  /** `x = rhs`: an assignment statement. */
  function AssignLine(x: string, rhs: string): string {
    x + (" " + ("=" + (" " + rhs)))
  }

  /** `y == rhs`: a comparison. */
  function EqualityLine(y: string, rhs: string): string {
    y + (" " + ("==" + (" " + rhs)))
  }

  /** A comment placed before the identifier does not count: the marker must
      come after an occurrence of it. */
  lemma CommentLineFlags(x: string, note: string)
    requires IsWord(x) && '/' !in note && '=' !in note
    ensures !HasComment(CommentLine(x, note), x) && !HasAssign(CommentLine(x, note), x)
  {
    var line := CommentLine(x, note);
    WordLacks(x, '/');
    WordLacks(x, '=');
    NoAssignWithoutEquals(line, x);
    HasCommentIff(line, x);
    forall p: nat, j: nat | p + |x| <= j ensures !(OccursAt(line, p, x) && CommentMarkerAt(line, j)) {
      if p < 3 {
        assert !CharMatches(x[0], line[p]);
      } else if j < |line| {
        assert line[j] == (x + note)[j - 3];
        assert (x + note)[j - 3] in x + note;
      }
    }
  }

  /** An assignment passes the assignment test, and without `/` not the comment test. */
  lemma AssignLineFlags(x: string, rhs: string)
    requires IsWord(x) && rhs != [] && rhs[0] != '=' && '/' !in rhs
    ensures HasAssign(AssignLine(x, rhs), x) && !HasComment(AssignLine(x, rhs), x)
  {
    var line := AssignLine(x, rhs);
    HasAssignIff(line, x);
    assert OccursAt(line, 0, x);
    assert NoEqualsBetween(line, |x|, |x| + 1);
    assert LoneEqualsAt(line, |x| + 1);
    WordLacks(x, '/');
    SlashFree(line);
    NoCommentWithoutMarker(line, x);
  }

  /** The assignment test holds when the identifier starts the line and the
      first `=` after it, at `e`, is followed by another character. */
  lemma AssignAt(line: string, bv: string, e: nat)
    requires bv <= line && |bv| <= e && e + 1 < |line|
    requires forall k | |bv| <= k < e :: line[k] != '='
    requires line[e] == '=' && line[e + 1] != '='
    ensures HasAssign(line, bv)
  {
    HasAssignIff(line, bv);
    assert OccursAt(line, 0, bv);
    assert NoEqualsBetween(line, |bv|, e);
  }

  /** The comment test holds when the identifier starts the line and a
      marker at `j` follows it on the same line. */
  lemma CommentAt(line: string, bv: string, j: nat)
    requires bv <= line && |bv| <= j && j + 1 < |line| && '\n' !in line
    requires line[j] == '/' && (line[j + 1] == '/' || line[j + 1] == '*')
    ensures HasComment(line, bv)
  {
    HasCommentIff(line, bv);
    forall k | |bv| <= k < j ensures line[k] != '\n' {
      assert line[k] in line;
    }
    assert OccursAt(line, 0, bv);
    assert NewlineFree(line, |bv|, j);
    assert CommentMarkerAt(line, j);
  }

  lemma AssignLineSpelled(x: string, rhs: string)
    ensures |AssignLine(x, rhs)| == |x| + 3 + |rhs|
    ensures forall k | 0 <= k < |x| :: AssignLine(x, rhs)[k] == x[k]
    ensures AssignLine(x, rhs)[|x|] == ' ' && AssignLine(x, rhs)[|x| + 1] == '=' && AssignLine(x, rhs)[|x| + 2] == ' '
    ensures forall k | 0 <= k < |rhs| :: AssignLine(x, rhs)[|x| + 3 + k] == rhs[k]
  {
  }

  /** An assignment with a trailing comment passes both tests: `x = 5; // ...`. */
  lemma CommentedAssignFlags(x: string, value: string, note: string)
    requires IsWord(x) && value != [] && value[0] != '=' && '\n' !in value && '\n' !in note
    ensures var line := AssignLine(x, value + ("//" + note));
      HasAssign(line, x) && HasComment(line, x)
  {
    CommentedAssignAssigns(x, value, note);
    CommentedAssignComments(x, value, note);
  }

  lemma CommentedAssignAssigns(x: string, value: string, note: string)
    requires IsWord(x) && value != [] && value[0] != '='
    ensures HasAssign(AssignLine(x, value + ("//" + note)), x)
  {
    var rhs := value + ("//" + note);
    var line := AssignLine(x, rhs);
    AssignLineSpelled(x, rhs);
    assert x <= line;
    AssignAt(line, x, |x| + 1);
  }

  lemma CommentedAssignComments(x: string, value: string, note: string)
    requires IsWord(x) && value != [] && '\n' !in value && '\n' !in note
    ensures HasComment(AssignLine(x, value + ("//" + note)), x)
  {
    var rhs := value + ("//" + note);
    var line := AssignLine(x, rhs);
    AssignLineSpelled(x, rhs);
    assert x <= line;
    assert rhs[|value|] == '/' && rhs[|value| + 1] == '/';
    WordLacks(x, '\n');
    CommentAt(line, x, |x| + 3 + |value|);
  }

  lemma EqualityLineSpelled(y: string, rhs: string)
    ensures var line := EqualityLine(y, rhs);
      |line| == |y| + 4 + |rhs|
      && (forall k | 0 <= k < |y| :: line[k] == y[k])
      && line[|y|] == ' ' && line[|y| + 1] == '=' && line[|y| + 2] == '=' && line[|y| + 3] == ' '
      && (forall k | 0 <= k < |rhs| :: line[|y| + 4 + k] == rhs[k])
  {
  }

  /** A comparison is not an assignment: `y == 5` gives no row. */
  lemma EqualityNotAssign(y: string, rhs: string)
    requires IsWord(y) && '=' !in rhs
    ensures !HasAssign(EqualityLine(y, rhs), y)
  {
    var line := EqualityLine(y, rhs);
    var n := |y|;
    EqualityLineSpelled(y, rhs);
    HasAssignIff(line, y);
    forall p: nat, e: nat | p + n <= e
      ensures !(OccursAt(line, p, y) && NoEqualsBetween(line, p + n, e) && LoneEqualsAt(line, e))
    {
      if p == 0 {
        if e > n + 1 {
          assert line[n + 1] == '=';
        } else if e < n + 1 {
          assert line[e] != '=';
        }
      } else if p <= n {
        assert !CharMatches(y[n - p], line[n]);
      } else if p < n + 4 {
        assert !CharMatches(y[0], line[p]);
      } else if e < |line| {
        assert line[e] == rhs[e - n - 4] && rhs[e - n - 4] in rhs;
      }
    }
  }

  // ------------------------------------------------ a small file, end to end

  /** A four-line file: a tree created, a branch of it, a comment naming the
      branch's value variable, and an assignment to that variable. */
  function SampleFile(t: string, owner: string, tname: string, title: string, bname: string,
                      x: string, leaf: string, note: string, rhs: string): seq<string> {
    [CreateLine(t, owner, tname, title, ""), LeafLine(t, bname, 1, x, leaf, ""), CommentLine(x, note), AssignLine(x, rhs)]
  }

  /** What the sample needs of its parts: words where the patterns want
      words, a scalar leaf `w` + `tail`, no `B` outside the Branch call, no
      `=` outside the creation and the assignment, no `->` and no `n` in the
      assignment, no `/` outside the leaf and the comment marker, no mention
      of the value variable on the creation line, and no white space at the
      ends of the lines. */
  predicate SampleParts(t: string, owner: string, tname: string, title: string, bname: string,
                        x: string, w: string, tail: string, note: string, rhs: string) {
    IsWord(t) && IsWord(owner) && IsWord(tname) && IsWord(bname) && IsWord(x) && IsWord(w) && IsLeafTail(tail)
    && NoNewline(title) && NoQuoteIn(title) && '/' !in title && 'B' !in t + owner + tname + title + x
    && x[0] !in CreateLine(t, owner, tname, title, "")
    && '/' !in note && '=' !in note && 'B' !in note && (note == [] || !IsPySpace(note[|note| - 1]))
    && rhs != [] && rhs[0] != '=' && '/' !in rhs && '-' !in x + rhs && 'n' !in x + rhs && 'B' !in rhs
    && !IsPySpace(rhs[|rhs| - 1])
  }

  lemma CreateLineClean(t: string, owner: string, tname: string, title: string)
    requires IsWord(t)
    ensures Strip(CreateLine(t, owner, tname, title, "")) == CreateLine(t, owner, tname, title, "")
  {
    var l := CreateLine(t, owner, tname, title, "");
    assert l[0] == t[0] && l[|l| - 1] == ')';
    StripClean(l);
  }

  lemma LeafLineClean(t: string, bname: string, x: string, leaf: string)
    requires IsWord(t)
    ensures Strip(LeafLine(t, bname, 1, x, leaf, "")) == LeafLine(t, bname, 1, x, leaf, "")
  {
    var l := LeafLine(t, bname, 1, x, leaf, "");
    assert l[0] == t[0] && l[|l| - 1] == ')';
    StripClean(l);
  }

  lemma CommentLineClean(x: string, note: string)
    requires IsWord(x) && (note == [] || !IsPySpace(note[|note| - 1]))
    ensures Strip(CommentLine(x, note)) == CommentLine(x, note)
  {
    var l := CommentLine(x, note);
    assert l[|l| - 1] == (x + note)[|x + note| - 1];
    StripClean(l);
  }

  lemma AssignLineClean(x: string, rhs: string)
    requires IsWord(x) && rhs != [] && !IsPySpace(rhs[|rhs| - 1])
    ensures Strip(AssignLine(x, rhs)) == AssignLine(x, rhs)
  {
    var l := AssignLine(x, rhs);
    AssignLineSpelled(x, rhs);
    StripClean(l);
  }

  lemma CreateLineCreates(t: string, owner: string, tname: string, title: string)
    requires IsWord(t) && IsWord(owner) && IsWord(tname) && NoNewline(title) && NoQuoteIn(title)
    ensures FindCreation(CreateLine(t, owner, tname, title, "")) == Some(Creation(t, tname, title))
  {
    assert [] + CreateLine(t, owner, tname, title, "") == CreateLine(t, owner, tname, title, "");
    CreateLineFound([], t, owner, tname, title, "");
  }

  lemma LeafLineCreatesNothing(t: string, bname: string, x: string, w: string, tail: string)
    requires IsWord(t) && IsWord(bname) && IsWord(x) && IsWord(w) && IsLeafTail(tail)
    ensures FindCreation(LeafLine(t, bname, 1, x, w + tail, "")).None?
  {
    LeafLineLacksEquals(t, bname, x, w, tail);
    NoCreationWithoutEquals(LeafLine(t, bname, 1, x, w + tail, ""));
  }

  lemma CommentLineCreatesNothing(x: string, note: string)
    requires IsWord(x) && '=' !in note
    ensures FindCreation(CommentLine(x, note)).None?
  {
    WordLacks(x, '=');
    NoCreationWithoutEquals(CommentLine(x, note));
  }

  lemma AssignLineCreatesNothing(x: string, rhs: string)
    requires '-' !in x + rhs && 'n' !in x + rhs
    ensures FindCreation(AssignLine(x, rhs)).None?
  {
    NoCreationWithoutArrowOrN(AssignLine(x, rhs));
  }

  /** Tree discovery over four lines of which only the first creates a tree. */
  lemma TreesOfFirstLine(s: Scan, fn: string, fid: nat, lines: seq<string>, c: Creation)
    requires |lines| == 4 && s.failure.None?
    requires FindCreation(lines[0]) == Some(c)
    requires FindCreation(lines[1]).None? && FindCreation(lines[2]).None? && FindCreation(lines[3]).None?
    ensures TreesFrom(s, fn, fid, lines, 0) == TreeUpsert(s, fn, fid, c, 1)
  {
    var s1 := TreeUpsert(s, fn, fid, c, 1);
    assert TreesFrom(s, fn, fid, lines, 0) == TreesFrom(s1, fn, fid, lines, 1);
    if s1.failure.None? {
      assert TreesFrom(s1, fn, fid, lines, 1) == TreesFrom(s1, fn, fid, lines, 2);
      assert TreesFrom(s1, fn, fid, lines, 2) == TreesFrom(s1, fn, fid, lines, 3);
      assert TreesFrom(s1, fn, fid, lines, 3) == TreesFrom(s1, fn, fid, lines, 4);
    }
  }

  /** Branch discovery over four lines of which only the second holds a Branch call. */
  lemma BranchesOfSecondLine(s: Scan, fn: string, fid: nat, lines: seq<string>, tvar: string, bname: string, args: BranchArgs)
    requires |lines| == 4 && s.failure.None? && !args.NoShape?
    requires SearchFrom(MatchBranch, lines[0], 0).None? && BranchOn(lines[1], tvar, bname, args)
    requires SearchFrom(MatchBranch, lines[2], 0).None? && SearchFrom(MatchBranch, lines[3], 0).None?
    ensures BranchesFrom(s, fn, fid, lines, 0) == BranchRecord(s, fid, tvar, bname, args, 2)
  {
    var s2 := BranchRecord(s, fid, tvar, bname, args, 2);
    BranchRecordRow(s, fid, tvar, bname, args, 2);
    assert BranchesFrom(s, fn, fid, lines, 0) == BranchesFrom(s, fn, fid, lines, 1);
    BranchStepOn(s, fn, fid, lines[1], 2, tvar, bname, args);
    assert BranchesFrom(s, fn, fid, lines, 1) == BranchesFrom(s2, fn, fid, lines, 2);
    assert BranchesFrom(s2, fn, fid, lines, 2) == BranchesFrom(s2, fn, fid, lines, 3);
    assert BranchesFrom(s2, fn, fid, lines, 3) == BranchesFrom(s2, fn, fid, lines, 4);
  }

  /** No identifier passes the test: no row. */
  lemma {:induction false} NoteRowsNone(kind: NoteKind, l: string, ks: seq<string>, bids: map<string, nat>, fid: nat, n: nat)
    requires forall k | 0 <= k < |ks| :: ks[k] in bids && !Flags(kind, l, ks[k])
    ensures NoteRows(kind, l, ks, bids, fid, n) == []
    decreases |ks|
  {
    if ks != [] {
      NoteRowsNone(kind, l, ks[..|ks| - 1], bids, fid, n);
    }
  }

  /** One identifier: one row exactly when it passes the test. */
  lemma NoteRowsOne(kind: NoteKind, l: string, v: string, bids: map<string, nat>, fid: nat, n: nat)
    requires v in bids
    ensures NoteRows(kind, l, [v], bids, fid, n) == if Flags(kind, l, v) then [NoteRow(l, bids[v], fid, n)] else []
  {
    assert [v][..0] == [];
  }

  /** A line on which no known value identifier passes either test adds no row. */
  lemma QuietStep(t: Tables, bids: map<string, nat>, fid: nat, line: string, n: nat)
    requires forall bv | bv in bids :: !HasComment(Strip(line), bv) && !HasAssign(Strip(line), bv)
    ensures CorrelateStep(t, bids, fid, line, n) == t
  {
    var l := Strip(line);
    var ks := LineIdents(l, bids);
    NoteRowsNone(Comment, l, ks, bids, fid, n);
    NoteRowsNone(Assign, l, ks, bids, fid, n);
    assert t.srccomment + [] == t.srccomment && t.srcassign + [] == t.srcassign;
  }

  /** With one known identifier, the identifiers a line considers are that
      one when the line's tokens hold it, and none otherwise. */
  lemma {:induction false} KeyIdentsOne(tokens: seq<string>, v: string)
    ensures KeyIdents(tokens, {v}) == if v in tokens then [v] else []
    decreases |tokens|
  {
    if tokens != [] {
      var front := tokens[..|tokens| - 1];
      KeyIdentsOne(front, v);
      assert tokens == front + [tokens[|tokens| - 1]];
    }
  }

  /** A line whose only considered identifier passes the assignment test and
      not the comment test adds one assignment row holding the stripped line. */
  lemma AssignStep(t: Tables, bids: map<string, nat>, fid: nat, line: string, n: nat, v: string)
    requires LineIdents(Strip(line), bids) == [v]
    requires Flags(Assign, Strip(line), v) && !Flags(Comment, Strip(line), v)
    ensures CorrelateStep(t, bids, fid, line, n) == t.(srcassign := t.srcassign + [NoteRow(Strip(line), bids[v], fid, n)])
  {
    var l := Strip(line);
    assert v in bids by { assert [v][0] == v; }
    NoteRowsOne(Comment, l, v, bids, fid, n);
    NoteRowsOne(Assign, l, v, bids, fid, n);
    assert t.srccomment + [] == t.srccomment;
  }

  /** Correlation over four lines of which only the last assigns the one known identifier. */
  lemma NotesOfLastLine(t: Tables, v: string, id: nat, fid: nat, lines: seq<string>)
    requires |lines| == 4
    requires !HasComment(Strip(lines[0]), v) && !HasAssign(Strip(lines[0]), v)
    requires !HasComment(Strip(lines[1]), v) && !HasAssign(Strip(lines[1]), v)
    requires !HasComment(Strip(lines[2]), v) && !HasAssign(Strip(lines[2]), v)
    requires v in Lex(Strip(lines[3])) && HasAssign(Strip(lines[3]), v) && !HasComment(Strip(lines[3]), v)
    ensures CorrelateFrom(t, map[v := id], fid, lines, 0) == t.(srcassign := t.srcassign + [NoteRow(Strip(lines[3]), id, fid, 4)])
  {
    var bids := map[v := id];
    QuietStep(t, bids, fid, lines[0], 1);
    QuietStep(t, bids, fid, lines[1], 2);
    QuietStep(t, bids, fid, lines[2], 3);
    assert LineIdents(Strip(lines[3]), bids) == [v] by {
      KeyIdentsOne(Lex(Strip(lines[3])), v);
      assert bids.Keys == {v};
    }
    AssignStep(t, bids, fid, lines[3], 4, v);
    assert CorrelateFrom(t, bids, fid, lines, 0) == CorrelateFrom(t, bids, fid, lines, 1);
    assert CorrelateFrom(t, bids, fid, lines, 1) == CorrelateFrom(t, bids, fid, lines, 2);
    assert CorrelateFrom(t, bids, fid, lines, 2) == CorrelateFrom(t, bids, fid, lines, 3);
    var t4 := t.(srcassign := t.srcassign + [NoteRow(Strip(lines[3]), id, fid, 4)]);
    assert CorrelateStep(t, bids, fid, lines[3], 4) == t4;
    assert CorrelateFrom(t4, bids, fid, lines, 4) == t4;
    assert CorrelateFrom(t, bids, fid, lines, 3) == CorrelateFrom(t4, bids, fid, lines, 4);
  }

  /** A file new to an empty database gets id 1. */
  lemma FreshRegister(fn: string)
    ensures RegisterFile(Tables([], [], [], [], []), fn) == (Tables([fn], [], [], [], []), Some(1))
  {
    assert FileIds([], fn) == [];
    assert [] + [fn] == [fn];
  }

  /** The tree pass over a four-line file whose first line alone creates a
      tree, in a database holding only the file: one tree row, id 1. */
  lemma FirstLineTree(fn: string, l0: string, l1: string, l2: string, l3: string, c: Creation)
    requires FindCreation(l0) == Some(c)
    requires FindCreation(l1).None? && FindCreation(l2).None? && FindCreation(l3).None?
    ensures TreesFrom(Scan(Tables([fn], [], [], [], []), map[], map[], None), fn, 1, [l0, l1, l2, l3], 0)
         == Scan(Tables([fn], [TreeRow(c.treename, c.treetitle, c.tvarname, 1, 1)], [], [], []), map[c.tvarname := 1], map[], None)
  {
    var lines := [l0, l1, l2, l3];
    assert lines[0] == l0 && lines[1] == l1 && lines[2] == l2 && lines[3] == l3;
    TreesOfFirstLine(Scan(Tables([fn], [], [], [], []), map[], map[], None), fn, 1, lines, c);
    FirstTreeUpsert(fn, c);
  }

  /** The first creation in a database holding only the file: tree id 1. */
  lemma FirstTreeUpsert(fn: string, c: Creation)
    ensures TreeUpsert(Scan(Tables([fn], [], [], [], []), map[], map[], None), fn, 1, c, 1)
         == Scan(Tables([fn], [TreeRow(c.treename, c.treetitle, c.tvarname, 1, 1)], [], [], []), map[c.tvarname := 1], map[], None)
  {
    assert TreeIds([], c.treename, 1) == [];
    assert [] + [TreeRow(c.treename, c.treetitle, c.tvarname, 1, 1)] == [TreeRow(c.treename, c.treetitle, c.tvarname, 1, 1)];
  }

  /** The branch pass over a four-line file whose second line alone calls
      `Branch`, on the first tree: one branch row, id 1, and the value map
      sends its value identifier to it. */
  lemma SecondLineBranch(fn: string, l0: string, l1: string, l2: string, l3: string, tr: TreeRow, bname: string, args: BranchArgs)
    requires !args.NoShape?
    requires SearchFrom(MatchBranch, l0, 0).None? && BranchOn(l1, tr.tvarname, bname, args)
    requires SearchFrom(MatchBranch, l2, 0).None? && SearchFrom(MatchBranch, l3, 0).None?
    ensures BranchesFrom(Scan(Tables([fn], [tr], [], [], []), map[tr.tvarname := 1], map[], None), fn, 1, [l0, l1, l2, l3], 0)
         == Scan(Tables([fn], [tr], [BranchRow(1, bname, LeafDef(bname, args), ValVar(args), 1, 2)], [], []),
                 map[tr.tvarname := 1], map[ValVar(args) := 1], None)
  {
    var s1 := Scan(Tables([fn], [tr], [], [], []), map[tr.tvarname := 1], map[], None);
    var lines := [l0, l1, l2, l3];
    assert lines[0] == l0 && lines[1] == l1 && lines[2] == l2 && lines[3] == l3;
    BranchesOfSecondLine(s1, fn, 1, lines, tr.tvarname, bname, args);
    FirstBranchRecord(fn, tr, bname, args);
  }

  /** The first Branch call on a known tree, in a database holding only the
      file and that tree: branch id 1. */
  lemma FirstBranchRecord(fn: string, tr: TreeRow, bname: string, args: BranchArgs)
    requires !args.NoShape?
    ensures BranchRecord(Scan(Tables([fn], [tr], [], [], []), map[tr.tvarname := 1], map[], None), 1, tr.tvarname, bname, args, 2)
         == Scan(Tables([fn], [tr], [BranchRow(1, bname, LeafDef(bname, args), ValVar(args), 1, 2)], [], []),
                 map[tr.tvarname := 1], map[ValVar(args) := 1], None)
  {
    var row := BranchRow(1, bname, LeafDef(bname, args), ValVar(args), 1, 2);
    BranchIdsAppend([], row, 1, bname);
    assert [] + [row] == [row];
  }

  /** The correlation pass over a four-line file whose fourth line alone
      assigns the one known value identifier: one assignment row. */
  lemma FourthLineNote(fn: string, tr: TreeRow, row: BranchRow, v: string, l0: string, l1: string, l2: string, l3: string)
    requires !HasComment(Strip(l0), v) && !HasAssign(Strip(l0), v)
    requires !HasComment(Strip(l1), v) && !HasAssign(Strip(l1), v)
    requires !HasComment(Strip(l2), v) && !HasAssign(Strip(l2), v)
    requires v in Lex(Strip(l3)) && HasAssign(Strip(l3), v) && !HasComment(Strip(l3), v)
    ensures CorrelateFrom(Tables([fn], [tr], [row], [], []), map[v := 1], 1, [l0, l1, l2, l3], 0)
         == Tables([fn], [tr], [row], [], [NoteRow(Strip(l3), 1, 1, 4)])
  {
    var lines := [l0, l1, l2, l3];
    assert lines[0] == l0 && lines[1] == l1 && lines[2] == l2 && lines[3] == l3;
    NotesOfLastLine(Tables([fn], [tr], [row], [], []), v, 1, 1, lines);
    assert [] + [NoteRow(Strip(l3), 1, 1, 4)] == [NoteRow(Strip(l3), 1, 1, 4)];
  }

  /** How `ScanFile` composes its three passes, for a file with id 1. */
  lemma ProcessFresh(fn: string, lines: seq<string>, s1: Scan, s2: Scan, r: Tables)
    requires TreesFrom(Scan(Tables([fn], [], [], [], []), map[], map[], None), fn, 1, lines, 0) == s1 && s1.failure.None?
    requires BranchesFrom(Scan(s1.db, s1.tids, map[], None), fn, 1, lines, 0) == s2 && s2.failure.None?
    requires CorrelateFrom(s2.db, s2.bids, 1, lines, 0) == r
    ensures ProcessFile(Tables([], [], [], [], []), fn, lines) == Run(r, None)
  {
    FreshRegister(fn);
  }

  /** A four-line file processed into an empty database: the first line
      creates a tree, the second hangs a branch on it, the fourth assigns the
      branch's value variable and no line comments on it.  The tables end up
      with one row each of srcfile, tree, branch and srcassign, cross-linked
      by id 1. */
  lemma FourLineRun(fn: string, l0: string, l1: string, l2: string, l3: string, c: Creation, bname: string, args: BranchArgs)
    requires !args.NoShape?
    requires FindCreation(l0) == Some(c)
    requires FindCreation(l1).None? && FindCreation(l2).None? && FindCreation(l3).None?
    requires SearchFrom(MatchBranch, l0, 0).None? && BranchOn(l1, c.tvarname, bname, args)
    requires SearchFrom(MatchBranch, l2, 0).None? && SearchFrom(MatchBranch, l3, 0).None?
    requires !HasComment(Strip(l0), ValVar(args)) && !HasAssign(Strip(l0), ValVar(args))
    requires !HasComment(Strip(l1), ValVar(args)) && !HasAssign(Strip(l1), ValVar(args))
    requires !HasComment(Strip(l2), ValVar(args)) && !HasAssign(Strip(l2), ValVar(args))
    requires ValVar(args) in Lex(Strip(l3)) && HasAssign(Strip(l3), ValVar(args)) && !HasComment(Strip(l3), ValVar(args))
    ensures ProcessFile(Tables([], [], [], [], []), fn, [l0, l1, l2, l3])
         == Run(Tables([fn],
                       [TreeRow(c.treename, c.treetitle, c.tvarname, 1, 1)],
                       [BranchRow(1, bname, LeafDef(bname, args), ValVar(args), 1, 2)],
                       [],
                       [NoteRow(Strip(l3), 1, 1, 4)]), None)
  {
    var tr := TreeRow(c.treename, c.treetitle, c.tvarname, 1, 1);
    var row := BranchRow(1, bname, LeafDef(bname, args), ValVar(args), 1, 2);
    FirstLineTree(fn, l0, l1, l2, l3, c);
    SecondLineBranch(fn, l0, l1, l2, l3, tr, bname, args);
    FourthLineNote(fn, tr, row, ValVar(args), l0, l1, l2, l3);
    ProcessFresh(fn, [l0, l1, l2, l3],
                 Scan(Tables([fn], [tr], [], [], []), map[c.tvarname := 1], map[], None),
                 Scan(Tables([fn], [tr], [row], [], []), map[c.tvarname := 1], map[ValVar(args) := 1], None),
                 Tables([fn], [tr], [row], [], [NoteRow(Strip(l3), 1, 1, 4)]));
  }

  lemma CreateLineNoBranch(t: string, owner: string, tname: string, title: string)
    requires 'B' !in t + owner + tname + title
    ensures SearchFrom(MatchBranch, CreateLine(t, owner, tname, title, ""), 0).None?
  {
    assert 'B' !in t && 'B' !in owner && 'B' !in tname && 'B' !in title;
    NoBranchWithoutB(CreateLine(t, owner, tname, title, ""));
  }

  lemma CommentLineNoBranch(x: string, note: string)
    requires 'B' !in x + note
    ensures SearchFrom(MatchBranch, CommentLine(x, note), 0).None?
  {
    assert 'B' !in x && 'B' !in note;
    NoBranchWithoutB(CommentLine(x, note));
  }

  lemma AssignLineNoBranch(x: string, rhs: string)
    requires 'B' !in x + rhs
    ensures SearchFrom(MatchBranch, AssignLine(x, rhs), 0).None?
  {
    assert 'B' !in x && 'B' !in rhs;
    NoBranchWithoutB(AssignLine(x, rhs));
  }

  /** A scalar leaf list after a word value variable makes a shape-1 call. */
  lemma LeafLineBranches(t: string, bname: string, x: string, w: string, tail: string)
    requires IsWord(t) && IsWord(bname) && IsWord(x) && IsWord(w) && IsLeafTail(tail)
    ensures BranchOn(LeafLine(t, bname, 1, x, w + tail, ""), t, bname, Shape1(x, w + tail))
  {
    var line := LeafLine(t, bname, 1, x, w + tail, "");
    ScalarLeafOf(w, tail);
    assert IsValueName(x) by {
      assert forall k | 0 <= k < |x| :: IsWordChar(x[k]);
    }
    assert [] + line == line;
    LeafLineFound([], t, bname, 1, x, w + tail, "");
  }

  /** The creation line does not mention the value variable. */
  lemma CreateLineQuiet(t: string, owner: string, tname: string, title: string, x: string)
    requires IsWord(t) && IsWord(x) && x[0] !in CreateLine(t, owner, tname, title, "")
    ensures var l := Strip(CreateLine(t, owner, tname, title, ""));
      !HasComment(l, x) && !HasAssign(l, x)
  {
    CreateLineClean(t, owner, tname, title);
    WordLacks(x, '.');
    NoFlagsWithoutMention(CreateLine(t, owner, tname, title, ""), x);
  }

  /** The branch line mentions the value variable but has no comment marker. */
  lemma LeafLineNoComment(t: string, bname: string, x: string, w: string, tail: string)
    requires IsWord(t) && IsWord(bname) && IsWord(x) && IsWord(w) && IsLeafTail(tail)
    ensures !HasComment(Strip(LeafLine(t, bname, 1, x, w + tail, "")), x)
  {
    LeafLineClean(t, bname, x, w + tail);
    LeafLineNoMarker(t, bname, 1, x, w, tail, "");
    NoCommentWithoutMarker(LeafLine(t, bname, 1, x, w + tail, ""), x);
  }

  /** Nor has it an `=`. */
  lemma LeafLineNoAssign(t: string, bname: string, x: string, w: string, tail: string)
    requires IsWord(t) && IsWord(bname) && IsWord(x) && IsWord(w) && IsLeafTail(tail)
    ensures !HasAssign(Strip(LeafLine(t, bname, 1, x, w + tail, "")), x)
  {
    LeafLineClean(t, bname, x, w + tail);
    LeafLineLacksEquals(t, bname, x, w, tail);
    NoAssignWithoutEquals(LeafLine(t, bname, 1, x, w + tail, ""), x);
  }

  lemma LeafLineLacksEquals(t: string, bname: string, x: string, w: string, tail: string)
    requires IsWord(t) && IsWord(bname) && IsWord(x) && IsWord(w) && IsLeafTail(tail)
    ensures '=' !in LeafLine(t, bname, 1, x, w + tail, "")
  {
    WordLacks(t, '='); WordLacks(bname, '='); WordLacks(x, '='); WordLacks(w, '=');
    SpacesLack(1, '=');
    assert '=' !in tail;
  }

  lemma CommentLineQuiet(x: string, note: string)
    requires IsWord(x) && '/' !in note && '=' !in note && (note == [] || !IsPySpace(note[|note| - 1]))
    ensures var l := Strip(CommentLine(x, note));
      !HasComment(l, x) && !HasAssign(l, x)
  {
    CommentLineClean(x, note);
    CommentLineFlags(x, note);
  }

  /** The assignment line lexes to the identifier first, and assigns it. */
  lemma AssignLineNotes(x: string, rhs: string)
    requires IsWord(x) && rhs != [] && rhs[0] != '=' && '/' !in rhs && !IsPySpace(rhs[|rhs| - 1])
    ensures var l := Strip(AssignLine(x, rhs));
      x in Lex(l) && HasAssign(l, x) && !HasComment(l, x)
  {
    AssignLineClean(x, rhs);
    LexWordThen(x, "=" + (" " + rhs));
    AssignLineFlags(x, rhs);
  }

  /** The tree pass over the sample: the tree of the first line, id 1. */
  lemma SampleTrees(fn: string, t: string, owner: string, tname: string, title: string, bname: string, x: string, w: string, tail: string, note: string, rhs: string)
    requires SampleParts(t, owner, tname, title, bname, x, w, tail, note, rhs)
    ensures TreesFrom(Scan(Tables([fn], [], [], [], []), map[], map[], None), fn, 1, SampleFile(t, owner, tname, title, bname, x, w + tail, note, rhs), 0)
         == Scan(Tables([fn], [TreeRow(tname, title, t, 1, 1)], [], [], []), map[t := 1], map[], None)
  {
    CreateLineCreates(t, owner, tname, title);
    LeafLineCreatesNothing(t, bname, x, w, tail);
    CommentLineCreatesNothing(x, note);
    AssignLineCreatesNothing(x, rhs);
    FirstLineTree(fn, CreateLine(t, owner, tname, title, ""), LeafLine(t, bname, 1, x, w + tail, ""), CommentLine(x, note), AssignLine(x, rhs), Creation(t, tname, title));
  }

  /** The branch pass over the sample: the branch of the second line on that
      tree, its leaf list as its definition. */
  lemma SampleBranches(fn: string, t: string, owner: string, tname: string, title: string, bname: string, x: string, w: string, tail: string, note: string, rhs: string)
    requires SampleParts(t, owner, tname, title, bname, x, w, tail, note, rhs)
    ensures var tr := TreeRow(tname, title, t, 1, 1);
      BranchesFrom(Scan(Tables([fn], [tr], [], [], []), map[t := 1], map[], None), fn, 1, SampleFile(t, owner, tname, title, bname, x, w + tail, note, rhs), 0)
      == Scan(Tables([fn], [tr], [BranchRow(1, bname, w + tail, x, 1, 2)], [], []), map[t := 1], map[x := 1], None)
  {
    CreateLineNoBranch(t, owner, tname, title);
    LeafLineBranches(t, bname, x, w, tail);
    CommentLineNoBranch(x, note);
    AssignLineNoBranch(x, rhs);
    SecondLineBranch(fn, CreateLine(t, owner, tname, title, ""), LeafLine(t, bname, 1, x, w + tail, ""), CommentLine(x, note), AssignLine(x, rhs), TreeRow(tname, title, t, 1, 1), bname, Shape1(x, w + tail));
  }

  /** The correlation pass over the sample: one assignment row, for the
      fourth line. */
  lemma SampleNotes(fn: string, t: string, owner: string, tname: string, title: string, bname: string, x: string, w: string, tail: string, note: string, rhs: string)
    requires SampleParts(t, owner, tname, title, bname, x, w, tail, note, rhs)
    ensures var tr := TreeRow(tname, title, t, 1, 1);
      var row := BranchRow(1, bname, w + tail, x, 1, 2);
      CorrelateFrom(Tables([fn], [tr], [row], [], []), map[x := 1], 1, SampleFile(t, owner, tname, title, bname, x, w + tail, note, rhs), 0)
      == Tables([fn], [tr], [row], [], [NoteRow(AssignLine(x, rhs), 1, 1, 4)])
  {
    CreateLineQuiet(t, owner, tname, title, x);
    LeafLineNoComment(t, bname, x, w, tail);
    LeafLineNoAssign(t, bname, x, w, tail);
    CommentLineQuiet(x, note);
    AssignLineNotes(x, rhs);
    AssignLineClean(x, rhs);
    FourthLineNote(fn, TreeRow(tname, title, t, 1, 1), BranchRow(1, bname, w + tail, x, 1, 2), x, CreateLine(t, owner, tname, title, ""), LeafLine(t, bname, 1, x, w + tail, ""), CommentLine(x, note), AssignLine(x, rhs));
  }

  /** The sample file processed into an empty database: one file, the tree
      of the first line, the branch of the second with the leaf list as its
      definition, and one assignment row for the fourth line; the comment
      line, whose marker precedes the identifier, gives no comment row. */
  lemma SampleFileRun(fn: string, t: string, owner: string, tname: string, title: string, bname: string, x: string, w: string, tail: string, note: string, rhs: string)
    requires SampleParts(t, owner, tname, title, bname, x, w, tail, note, rhs)
    ensures ProcessFile(Tables([], [], [], [], []), fn, SampleFile(t, owner, tname, title, bname, x, w + tail, note, rhs))
         == Run(Tables([fn],
                       [TreeRow(tname, title, t, 1, 1)],
                       [BranchRow(1, bname, w + tail, x, 1, 2)],
                       [],
                       [NoteRow(AssignLine(x, rhs), 1, 1, 4)]), None)
  {
    var tr := TreeRow(tname, title, t, 1, 1);
    var row := BranchRow(1, bname, w + tail, x, 1, 2);
    SampleTrees(fn, t, owner, tname, title, bname, x, w, tail, note, rhs);
    SampleBranches(fn, t, owner, tname, title, bname, x, w, tail, note, rhs);
    SampleNotes(fn, t, owner, tname, title, bname, x, w, tail, note, rhs);
    ProcessFresh(fn, SampleFile(t, owner, tname, title, bname, x, w + tail, note, rhs),
                 Scan(Tables([fn], [tr], [], [], []), map[t := 1], map[], None),
                 Scan(Tables([fn], [tr], [row], [], []), map[t := 1], map[x := 1], None),
                 Tables([fn], [tr], [row], [], [NoteRow(AssignLine(x, rhs), 1, 1, 4)]));
  }
}
