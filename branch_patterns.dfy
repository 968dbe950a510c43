/** The branch patterns of the scraper:
      RE_BRANCH         (\w+) *-> *Branch *\( *"(\w+)" *
      RE_BRANCH_ARGS_1  , *&?([\w.]+) *, *"(\w+/?\w?)" *[,)]
      RE_BRANCH_ARGS_2  , *([\w.]+) *, *"(\w+\[\w+\]/?\w?)" *[,)]
      RE_BRANCH_ARGS_3  , *("[^"]+") *, *&?([\w.]+) *[,)]
      RE_BRANCH_ARGS_4  , *&?([\w.]+) *[,)]
    and the first-match-wins cascade over the four argument shapes. */
module BranchPatterns {
  import opened Strings
  import opened Pieces

  const BranchKeywords: seq<string> := ["Branch"]

  /** `tvar->Branch("bname"`. */
  datatype BranchCall = BranchCall(tree: Operand, kgaps: seq<nat>, name: NameArg) {
    function TVar(): string { tree.word }
    function BName(): string { name.name }
  }

  predicate ValidBranch(b: BranchCall) {
    IsWord(b.tree.word) && |b.kgaps| == |BranchKeywords| && IsWord(b.name.name)
  }

  function BranchText(b: BranchCall, rest: string): string
    requires |b.kgaps| == |BranchKeywords|
  {
    OperandText(b.tree, "->", KeywordsText(BranchKeywords, b.kgaps, NameArgText(b.name, rest)))
  }

  /** RE_BRANCH anchored at the start of `s`. */
  function MatchBranch(s: string): (r: Option<Match<BranchCall>>)
    ensures r.Some? ==> ValidBranch(r.value.parts) && s == BranchText(r.value.parts, r.value.rest)
    ensures r.Some? ==> NoLeadingBlank(r.value.rest)
  {
    var t :- MatchOperand(s, "->");
    var k :- MatchKeywords(t.rest, BranchKeywords);
    var n :- MatchNameArg(k.rest);
    Some(Match(BranchCall(t.parts, k.parts, n.parts), n.rest))
  }

  lemma MatchBranchText(b: BranchCall, rest: string)
    requires ValidBranch(b) && NoLeadingBlank(rest)
    ensures MatchBranch(BranchText(b, rest)) == Some(Match(b, rest))
  {
    var t2 := NameArgText(b.name, rest);
    var t1 := KeywordsText(BranchKeywords, b.kgaps, t2);
    MatchNameArgText(b.name, rest);
    MatchKeywordsText(BranchKeywords, b.kgaps, t2);
    assert t1 == "Branch" + Sp(b.kgaps[0], KeywordsText(BranchKeywords[1..], b.kgaps[1..], t2));
    MatchOperandText(b.tree, "->", t1);
  }

  /** A word character in front of a Branch call extends its tree variable. */
  lemma BranchTextCons(c: char, b: BranchCall, rest: string)
    requires IsWordChar(c) && ValidBranch(b) && NoLeadingBlank(rest)
    ensures MatchBranch([c] + BranchText(b, rest)).Some?
  {
    var b' := b.(tree := b.tree.(word := [c] + b.tree.word));
    IsWordCons(c, b.tree.word);
    OperandTextCons(c, b.tree, "->", KeywordsText(BranchKeywords, b.kgaps, NameArgText(b.name, rest)));
    MatchBranchText(b', rest);
  }

  lemma BranchExtends(c: char, t: string)
    requires IsWordChar(c) && MatchBranch(t).Some?
    ensures MatchBranch([c] + t).Some?
  {
    var h := MatchBranch(t).value;
    BranchTextCons(c, h.parts, h.rest);
  }

  /** The search is leftmost, so the tree variable of a Branch call is a whole word. */
  lemma BranchVarIsWholeWord(s: string)
    requires SearchFrom(MatchBranch, s, 0).Some?
    ensures var f := SearchFrom(MatchBranch, s, 0).value;
            f.start == 0 || !IsWordChar(s[f.start - 1])
  {
    forall c, t | IsWordChar(c) && MatchBranch(t).Some? ensures MatchBranch([c] + t).Some? {
      BranchExtends(c, t);
    }
    LeftmostNotExtended(MatchBranch, IsWordChar, s);
  }

  /** `&?([\w.]+) *`: an optional address-of sign, the value variable, blanks. */
  datatype ValueArg = ValueArg(amp: bool, name: string, gap: nat)

  function ValueArgText(v: ValueArg, rest: string): string {
    (if v.amp then "&" else "") + (v.name + Sp(v.gap, rest))
  }

  /** `&?([\w.]+) *` when `ampOk`, `([\w.]+) *` otherwise. */
  function MatchValueArg(s: string, ampOk: bool): (r: Option<Match<ValueArg>>)
    ensures r.Some? ==> IsValueName(r.value.parts.name) && (r.value.parts.amp ==> ampOk)
    ensures r.Some? ==> NoLeadingBlank(r.value.rest) && s == ValueArgText(r.value.parts, r.value.rest)
  {
    var amp := ampOk && s != [] && s[0] == '&';
    var t := if amp then s[1..] else s;
    assert s == (if amp then "&" else "") + t;
    var w :- TakeSome(t, IsValueChar);
    var g := SkipSpaces(w.rest);
    Some(Match(ValueArg(amp, w.piece, g.width), g.rest))
  }

  lemma MatchValueArgText(v: ValueArg, ampOk: bool, rest: string)
    requires IsValueName(v.name) && (v.amp ==> ampOk) && NoLeadingBlank(rest)
    requires rest == [] || !IsValueChar(rest[0])
    ensures MatchValueArg(ValueArgText(v, rest), ampOk) == Some(Match(v, rest))
  {
    var t := v.name + Sp(v.gap, rest);
    assert ValueArgText(v, rest) == (if v.amp then "&" else "") + t;
    if !v.amp {
      assert ValueArgText(v, rest) == t;
    } else {
      assert ValueArgText(v, rest)[1..] == t;
    }
    SpHeadOrEmpty(v.gap, rest);
    TakeSomeOf(v.name, Sp(v.gap, rest), IsValueChar);
    SkipSpacesOf(v.gap, rest);
  }

  /** Blanks followed by a text that does not start with a value character do
      not start with one either. */
  lemma SpHeadOrEmpty(n: nat, t: string)
    requires t == [] || !IsValueChar(t[0])
    ensures Sp(n, t) == [] || !IsValueChar(Sp(n, t)[0])
  {
    if t != [] { SpHead(n, t); }
  }

  /** `"body" *`: a quoted, non-empty run of characters from one class. */
  datatype Quoted = Quoted(body: string, gap: nat)

  function QuotedText(q: Quoted, rest: string): string {
    "\"" + (q.body + ("\"" + Sp(q.gap, rest)))
  }

  /** `"(p+)" *` for a class `p` that does not contain the quote. */
  function MatchQuoted(s: string, p: char -> bool): (r: Option<Match<Quoted>>)
    ensures r.Some? ==> |r.value.parts.body| > 0 && forall k | 0 <= k < |r.value.parts.body| :: p(r.value.parts.body[k])
    ensures r.Some? ==> NoLeadingBlank(r.value.rest) && s == QuotedText(r.value.parts, r.value.rest)
  {
    var t :- TakeLit(s, "\"");
    var b :- TakeSome(t, p);
    var e :- LitGap(b.rest, "\"");
    Some(Match(Quoted(b.piece, e.parts), e.rest))
  }

  lemma MatchQuotedText(q: Quoted, p: char -> bool, rest: string)
    requires |q.body| > 0 && (forall k | 0 <= k < |q.body| :: p(q.body[k])) && !p('"')
    requires NoLeadingBlank(rest)
    ensures MatchQuoted(QuotedText(q, rest), p) == Some(Match(q, rest))
  {
    var t := "\"" + Sp(q.gap, rest);
    TakeLitOf("\"", q.body + t);
    TakeSomeOf(q.body, t, p);
    LitGapOf("\"", q.gap, rest);
  }

  lemma Assoc(a: string, b: string, c: string)
    ensures (a + b) + c == a + (b + c)
  {
  }

  /** A longest run stops at the first character outside its class. */
  lemma TakeRunAppend(s: string, x: string, p: char -> bool)
    requires TakeRun(s, p).rest != []
    ensures TakeRun(s + x, p) == Cut(TakeRun(s, p).piece, TakeRun(s, p).rest + x)
  {
    var c := TakeRun(s, p);
    var y := c.rest + x;
    assert y[0] == c.rest[0];
    Assoc(c.piece, c.rest, x);
    TakeRunOf(c.piece, y, p);
  }

  /** When the quoted text holds a character outside the class, `"(p+)"` does
      not match it. */
  lemma MatchQuotedStops(q: Quoted, p: char -> bool, rest: string, k: nat)
    requires k < |q.body| && !p(q.body[k]) && q.body[k] != '"'
    requires forall i | 0 <= i < k :: q.body[i] != '"'
    ensures MatchQuoted(QuotedText(q, rest), p).None?
  {
    var t := "\"" + Sp(q.gap, rest);
    TakeLitOf("\"", q.body + t);
    var c := TakeRun(q.body, p);
    TakeRunAppend(q.body, t, p);
    assert c.rest[0] == q.body[|c.piece|];
  }

  /** `/?\w?` after the leading word of a leaf: nothing, a slash, or a slash and one word character. */
  predicate IsLeafTail(t: string) {
    t == "" || t == "/" || (|t| == 2 && t[0] == '/' && IsWordChar(t[1]))
  }

  /** The text of `\w+/?\w?`, such as `run/I`. */
  predicate IsScalarLeaf(t: string) {
    var a := TakeRun(t, IsWordChar);
    a.piece != [] && IsLeafTail(a.rest)
  }

  /** The text of `\w+\[\w+\]/?\w?`, such as `w[nw]/D`. */
  predicate IsArrayLeaf(t: string) {
    var a := TakeRun(t, IsWordChar);
    a.piece != [] && a.rest != [] && a.rest[0] == '[' &&
    var b := TakeRun(a.rest[1..], IsWordChar);
    b.piece != [] && b.rest != [] && b.rest[0] == ']' && IsLeafTail(b.rest[1..])
  }

  /** A leaf is a word followed by a tail; the word is the leading run. */
  lemma ScalarLeafOf(w: string, tail: string)
    requires IsWord(w) && IsLeafTail(tail)
    ensures IsScalarLeaf(w + tail)
    ensures forall k | 0 <= k < |w + tail| :: IsScalarLeafChar((w + tail)[k])
  {
    TakeRunOf(w, tail, IsWordChar);
  }

  lemma ArrayLeafOf(w: string, index: string, tail: string)
    requires IsWord(w) && IsWord(index) && IsLeafTail(tail)
    ensures IsArrayLeaf(w + ("[" + (index + ("]" + tail))))
    ensures var t := w + ("[" + (index + ("]" + tail)));
            forall k | 0 <= k < |t| :: IsArrayLeafChar(t[k])
  {
    var u := "[" + (index + ("]" + tail));
    TakeRunOf(w, u, IsWordChar);
    assert u[1..] == index + ("]" + tail);
    IndexTail(index, tail);
    ArrayLeafChars(w + u);
  }

  lemma IndexTail(index: string, tail: string)
    requires IsWord(index) && IsLeafTail(tail)
    ensures var b := TakeRun(index + ("]" + tail), IsWordChar);
            b.piece == index && b.rest == "]" + tail && IsLeafTail(b.rest[1..])
  {
    TakeRunOf(index, "]" + tail, IsWordChar);
    assert ("]" + tail)[1..] == tail;
  }

  /** Every character of a scalar leaf is one `[\w/]` can take, and there is no `[`. */
  lemma ScalarLeafChars(t: string)
    requires IsScalarLeaf(t)
    ensures forall k | 0 <= k < |t| :: IsScalarLeafChar(t[k])
  {
    var a := TakeRun(t, IsWordChar);
    assert t == a.piece + a.rest;
  }

  lemma ArrayLeafChars(t: string)
    requires IsArrayLeaf(t)
    ensures forall k | 0 <= k < |t| :: IsArrayLeafChar(t[k])
  {
    var a := TakeRun(t, IsWordChar);
    var b := TakeRun(a.rest[1..], IsWordChar);
    assert a.rest == [a.rest[0]] + (b.piece + b.rest);
    assert b.rest == [b.rest[0]] + b.rest[1..];
    assert t == a.piece + a.rest;
  }

  /** The argument text of shapes 1 and 2: `, *VALUE *, *"LEAF" *[,)]`. */
  datatype LeafArgs = LeafArgs(gap0: nat, val: ValueArg, gap1: nat, leaf: Quoted, closer: string)

  function LeafArgsText(a: LeafArgs, rest: string): string {
    "," + Sp(a.gap0, ValueArgText(a.val, "," + Sp(a.gap1, QuotedText(a.leaf, a.closer + rest))))
  }

  /** The closing `[,)]`. */
  predicate IsCloser(c: string) { c == "," || c == ")" }

  /** `, *` followed by `VALUE *, *"LEAF" *[,)]`, where the value may carry `&`
      when `ampOk`, the leaf is a run of `leafChar` and `isLeaf` accepts it. */
  function MatchLeafArgs(s: string, ampOk: bool, leafChar: char -> bool, isLeaf: string -> bool): (r: Option<Match<LeafArgs>>)
    ensures r.Some? ==> s == LeafArgsText(r.value.parts, r.value.rest)
    ensures r.Some? ==> IsValueName(r.value.parts.val.name) && (r.value.parts.val.amp ==> ampOk)
    ensures r.Some? ==> isLeaf(r.value.parts.leaf.body) && IsCloser(r.value.parts.closer)
  {
    var c0 :- LitGap(s, ",");
    var v :- MatchValueArg(c0.rest, ampOk);
    var c1 :- LitGap(v.rest, ",");
    var q :- MatchQuoted(c1.rest, leafChar);
    if !isLeaf(q.parts.body) then None
    else
      var k :- TakeCloser(q.rest);
      Some(Match(LeafArgs(c0.parts, v.parts, c1.parts, q.parts, k.piece), k.rest))
  }

  lemma MatchLeafArgsText(a: LeafArgs, ampOk: bool, leafChar: char -> bool, isLeaf: string -> bool, rest: string)
    requires IsValueName(a.val.name) && (a.val.amp ==> ampOk)
    requires |a.leaf.body| > 0 && (forall k | 0 <= k < |a.leaf.body| :: leafChar(a.leaf.body[k])) && !leafChar('"')
    requires isLeaf(a.leaf.body) && IsCloser(a.closer)
    ensures MatchLeafArgs(LeafArgsText(a, rest), ampOk, leafChar, isLeaf) == Some(Match(a, rest))
  {
    var t2 := QuotedText(a.leaf, a.closer + rest);
    var t1 := "," + Sp(a.gap1, t2);
    var t0 := ValueArgText(a.val, t1);
    TakeCloserOf(a.closer, rest);
    MatchQuotedText(a.leaf, leafChar, a.closer + rest);
    LitGapOf(",", a.gap1, t2);
    MatchValueArgText(a.val, ampOk, t1);
    assert t0[0] == '&' || t0[0] == a.val.name[0];
    LitGapOf(",", a.gap0, t0);
  }

  /** RE_BRANCH_ARGS_1. */
  function MatchShape1(s: string): (r: Option<Match<LeafArgs>>)
    ensures r.Some? ==> s == LeafArgsText(r.value.parts, r.value.rest) && IsScalarLeaf(r.value.parts.leaf.body)
  {
    MatchLeafArgs(s, true, IsScalarLeafChar, IsScalarLeaf)
  }

  /** RE_BRANCH_ARGS_2: no `&`, and an array leaf. */
  function MatchShape2(s: string): (r: Option<Match<LeafArgs>>)
    ensures r.Some? ==> s == LeafArgsText(r.value.parts, r.value.rest) && IsArrayLeaf(r.value.parts.leaf.body)
    ensures r.Some? ==> !r.value.parts.val.amp
  {
    MatchLeafArgs(s, false, IsArrayLeafChar, IsArrayLeaf)
  }

  /** Shape 3: `, *("[^"]+") *, *&?([\w.]+) *[,)]`. */
  datatype TypeArgs = TypeArgs(gap0: nat, classname: Quoted, gap1: nat, val: ValueArg, closer: string)

  function TypeArgsText(a: TypeArgs, rest: string): string {
    "," + Sp(a.gap0, QuotedText(a.classname, "," + Sp(a.gap1, ValueArgText(a.val, a.closer + rest))))
  }

  /** RE_BRANCH_ARGS_3. */
  function MatchShape3(s: string): (r: Option<Match<TypeArgs>>)
    ensures r.Some? ==> s == TypeArgsText(r.value.parts, r.value.rest)
    ensures r.Some? ==> |r.value.parts.classname.body| > 0 && NoQuoteIn(r.value.parts.classname.body)
    ensures r.Some? ==> IsValueName(r.value.parts.val.name) && IsCloser(r.value.parts.closer)
  {
    var c0 :- LitGap(s, ",");
    var q :- MatchQuoted(c0.rest, NotQuote);
    var c1 :- LitGap(q.rest, ",");
    var v :- MatchValueArg(c1.rest, true);
    var k :- TakeCloser(v.rest);
    Some(Match(TypeArgs(c0.parts, q.parts, c1.parts, v.parts, k.piece), k.rest))
  }

  lemma MatchShape3Text(a: TypeArgs, rest: string)
    requires |a.classname.body| > 0 && NoQuoteIn(a.classname.body)
    requires IsValueName(a.val.name) && IsCloser(a.closer)
    ensures MatchShape3(TypeArgsText(a, rest)) == Some(Match(a, rest))
  {
    var t2 := ValueArgText(a.val, a.closer + rest);
    var t1 := "," + Sp(a.gap1, t2);
    TakeCloserOf(a.closer, rest);
    MatchValueArgText(a.val, true, a.closer + rest);
    assert t2[0] == '&' || t2[0] == a.val.name[0];
    LitGapOf(",", a.gap1, t2);
    MatchQuotedText(a.classname, NotQuote, t1);
    LitGapOf(",", a.gap0, QuotedText(a.classname, t1));
  }

  /** Shape 4: `, *&?([\w.]+) *[,)]`. */
  datatype ObjectArgs = ObjectArgs(gap0: nat, val: ValueArg, closer: string)

  function ObjectArgsText(a: ObjectArgs, rest: string): string {
    "," + Sp(a.gap0, ValueArgText(a.val, a.closer + rest))
  }

  /** RE_BRANCH_ARGS_4. */
  function MatchShape4(s: string): (r: Option<Match<ObjectArgs>>)
    ensures r.Some? ==> s == ObjectArgsText(r.value.parts, r.value.rest)
    ensures r.Some? ==> IsValueName(r.value.parts.val.name) && IsCloser(r.value.parts.closer)
  {
    var c0 :- LitGap(s, ",");
    var v :- MatchValueArg(c0.rest, true);
    var k :- TakeCloser(v.rest);
    Some(Match(ObjectArgs(c0.parts, v.parts, k.piece), k.rest))
  }

  lemma MatchShape4Text(a: ObjectArgs, rest: string)
    requires IsValueName(a.val.name) && IsCloser(a.closer)
    ensures MatchShape4(ObjectArgsText(a, rest)) == Some(Match(a, rest))
  {
    var t0 := ValueArgText(a.val, a.closer + rest);
    TakeCloserOf(a.closer, rest);
    MatchValueArgText(a.val, true, a.closer + rest);
    assert t0[0] == '&' || t0[0] == a.val.name[0];
    LitGapOf(",", a.gap0, t0);
  }

  /** The outcome of the argument cascade: the shape that matched first, with
      its captured groups, or none. */
  datatype BranchArgs =
    | NoShape
    | Shape1(val: string, leaf: string)
    | Shape2(val: string, leaf: string)
    | Shape3(quoted: string, val: string)
    | Shape4(val: string)

  /** The cascade: RE_BRANCH_ARGS_1 to _4 are tried in that order on the text
      after the Branch call, and the first that matches decides. */
  function ClassifyArgs(s: string): (r: BranchArgs)
  {
    match MatchShape1(s)
    case Some(m) => Shape1(m.parts.val.name, m.parts.leaf.body)
    case None =>
      match MatchShape2(s)
      case Some(m) => Shape2(m.parts.val.name, m.parts.leaf.body)
      case None =>
        match MatchShape3(s)
        case Some(m) => Shape3("\"" + m.parts.classname.body + "\"", m.parts.val.name)
        case None =>
          match MatchShape4(s)
          case Some(m) => Shape4(m.parts.val.name)
          case None => NoShape
  }

  /** First match wins: shape `k` is chosen exactly when the patterns of the
      shapes before it fail on the text and its own matches; the groups
      captured satisfy that shape's character classes. */
  lemma ClassifyArgsOrder(s: string)
    ensures var r := ClassifyArgs(s);
      (r.Shape1? <==> MatchShape1(s).Some?)
      && (r.Shape2? <==> MatchShape1(s).None? && MatchShape2(s).Some?)
      && (r.Shape3? <==> MatchShape1(s).None? && MatchShape2(s).None? && MatchShape3(s).Some?)
      && (r.Shape4? <==> MatchShape1(s).None? && MatchShape2(s).None? && MatchShape3(s).None? && MatchShape4(s).Some?)
      && (r.Shape1? ==> IsValueName(r.val) && IsScalarLeaf(r.leaf))
      && (r.Shape2? ==> IsValueName(r.val) && IsArrayLeaf(r.leaf))
      && (r.Shape3? ==> IsValueName(r.val) && |r.quoted| >= 3 && r.quoted[0] == '"' && r.quoted[|r.quoted| - 1] == '"')
      && (r.Shape4? ==> IsValueName(r.val))
  {
  }

  /** The value variable, `bvalvarname`: the first argument in shapes 1, 2
      and 4, the second in shape 3. */
  function ValVar(r: BranchArgs): (v: string)
    requires !r.NoShape?
  {
    r.val
  }

  /** `bleafdef`: the leaf text for shapes 1 and 2, the branch name with the
      quoted class name (quotes kept) for shape 3, and the branch name with
      `(object)` for shape 4. */
  function LeafDef(bname: string, r: BranchArgs): (d: string)
    requires !r.NoShape?
  {
    match r
    case Shape1(_, leaf) => leaf
    case Shape2(_, leaf) => leaf
    case Shape3(quoted, _) => bname + " (" + quoted + ")"
    case Shape4(_) => bname + " (object)"
  }

  /** What the leaf definition holds: shapes 1 and 2 pass the captured leaf
      through; shapes 3 and 4 start with the branch name and end with `)`,
      shape 3 enclosing the quoted class name, shape 4 the word `object`. */
  lemma LeafDefParts(bname: string, r: BranchArgs)
    requires !r.NoShape?
    ensures r.Shape1? || r.Shape2? ==> LeafDef(bname, r) == r.leaf
    ensures r.Shape3? ==> var d := LeafDef(bname, r);
              d[..|bname|] == bname && d[|bname|..] == " (" + r.quoted + ")"
    ensures r.Shape4? ==> var d := LeafDef(bname, r);
              d[..|bname|] == bname && d[|bname|..] == " (object)"
  {
    if r.Shape3? {
      assert LeafDef(bname, r) == bname + (" (" + r.quoted + ")");
    }
  }

  /** The stored `bleafdef` tells the shapes apart: a leaf in the classes
      of shape 1 or 2 holds no blank, while the descriptor shapes 3 and 4
      synthesise always holds one, right after the branch name. */
  lemma LeafDefBlank(bname: string, r: BranchArgs)
    requires !r.NoShape?
    requires r.Shape1? ==> IsScalarLeaf(r.leaf)
    requires r.Shape2? ==> IsArrayLeaf(r.leaf)
    ensures (r.Shape1? || r.Shape2?) <==> ' ' !in LeafDef(bname, r)
  {
    var d := LeafDef(bname, r);
    if r.Shape1? {
      ScalarLeafChars(r.leaf);
      assert forall k | 0 <= k < |d| :: d[k] != ' ';
    } else if r.Shape2? {
      ArrayLeafChars(r.leaf);
      assert forall k | 0 <= k < |d| :: d[k] != ' ';
    } else {
      LeafDefParts(bname, r);
      assert d[|bname|] == ' ';
    }
  }

  /** So the shape of every classified argument text is read off its `bleafdef`. */
  lemma LeafDefShowsShape(bname: string, s: string)
    requires !ClassifyArgs(s).NoShape?
    ensures var r := ClassifyArgs(s);
      (r.Shape1? || r.Shape2?) <==> ' ' !in LeafDef(bname, r)
  {
    ClassifyArgsOrder(s);
    LeafDefBlank(bname, ClassifyArgs(s));
  }

  /** A value text never starts with a quote. */
  lemma ValueArgNotQuote(s: string, ampOk: bool)
    requires s != [] && s[0] == '"'
    ensures MatchValueArg(s, ampOk).None?
  {
  }

  /** A written shape-1 text is classified as shape 1, with its groups. */
  lemma ClassifyShape1Text(a: LeafArgs, rest: string)
    requires IsValueName(a.val.name) && IsScalarLeaf(a.leaf.body) && IsCloser(a.closer)
    ensures ClassifyArgs(LeafArgsText(a, rest)) == Shape1(a.val.name, a.leaf.body)
  {
    ScalarLeafChars(a.leaf.body);
    MatchLeafArgsText(a, true, IsScalarLeafChar, IsScalarLeaf, rest);
  }

  /** A written shape-2 text is not taken by shape 1 (its `[` stops the scalar
      leaf) and is classified as shape 2, with its groups. */
  lemma ClassifyShape2Text(a: LeafArgs, rest: string)
    requires IsValueName(a.val.name) && !a.val.amp && IsArrayLeaf(a.leaf.body) && IsCloser(a.closer)
    ensures ClassifyArgs(LeafArgsText(a, rest)) == Shape2(a.val.name, a.leaf.body)
  {
    ArrayLeafChars(a.leaf.body);
    MatchLeafArgsText(a, false, IsArrayLeafChar, IsArrayLeaf, rest);
    var t2 := QuotedText(a.leaf, a.closer + rest);
    var t1 := "," + Sp(a.gap1, t2);
    var t0 := ValueArgText(a.val, t1);
    MatchValueArgText(a.val, true, t1);
    assert t0[0] == a.val.name[0];
    LitGapOf(",", a.gap0, t0);
    LitGapOf(",", a.gap1, t2);
    var w := TakeRun(a.leaf.body, IsWordChar);
    assert a.leaf.body == w.piece + w.rest;
    assert a.leaf.body[|w.piece|] == '[';
    MatchQuotedStops(a.leaf, IsScalarLeafChar, a.closer + rest, |w.piece|);
  }

  /** A written shape-3 text is not taken by shapes 1 and 2 (a quote stands
      where they expect the value) and is classified as shape 3. */
  lemma ClassifyShape3Text(a: TypeArgs, rest: string)
    requires |a.classname.body| > 0 && NoQuoteIn(a.classname.body)
    requires IsValueName(a.val.name) && IsCloser(a.closer)
    ensures ClassifyArgs(TypeArgsText(a, rest)) == Shape3("\"" + a.classname.body + "\"", a.val.name)
  {
    MatchShape3Text(a, rest);
    var q := QuotedText(a.classname, "," + Sp(a.gap1, ValueArgText(a.val, a.closer + rest)));
    LitGapOf(",", a.gap0, q);
    ValueArgNotQuote(q, true);
    ValueArgNotQuote(q, false);
  }

  /** A written shape-4 text closed by `)` is not taken by shapes 1 to 3 and
      is classified as shape 4. */
  lemma ClassifyShape4Text(a: ObjectArgs, rest: string)
    requires IsValueName(a.val.name) && a.closer == ")"
    ensures ClassifyArgs(ObjectArgsText(a, rest)) == Shape4(a.val.name)
  {
    MatchShape4Text(a, rest);
    ObjectNotLeaf(a, true, IsScalarLeafChar, IsScalarLeaf, rest);
    ObjectNotLeaf(a, false, IsArrayLeafChar, IsArrayLeaf, rest);
    ObjectNotType(a, rest);
  }

  /** The value of a shape-4 text is not quoted, as shape 3 needs. */
  lemma ObjectNotType(a: ObjectArgs, rest: string)
    requires IsValueName(a.val.name)
    ensures MatchShape3(ObjectArgsText(a, rest)).None?
  {
    var t0 := ValueArgText(a.val, a.closer + rest);
    assert t0[0] == '&' || t0[0] == a.val.name[0];
    LitGapOf(",", a.gap0, t0);
  }

  /** The value of a shape-4 text is followed by `)`, not by the comma shapes
      1 and 2 need. */
  lemma ObjectNotLeaf(a: ObjectArgs, ampOk: bool, leafChar: char -> bool, isLeaf: string -> bool, rest: string)
    requires IsValueName(a.val.name) && a.closer == ")"
    ensures MatchLeafArgs(ObjectArgsText(a, rest), ampOk, leafChar, isLeaf).None?
  {
    var t0 := ValueArgText(a.val, a.closer + rest);
    assert t0[0] == '&' || t0[0] == a.val.name[0];
    LitGapOf(",", a.gap0, t0);
    if a.val.amp ==> ampOk {
      MatchValueArgText(a.val, ampOk, a.closer + rest);
    }
  }

  /** Order matters: every shape-1 text also matches RE_BRANCH_ARGS_4 (its
      value is followed by a comma), so the cascade must try shape 1 first. */
  lemma Shape1ShadowsShape4(a: LeafArgs, rest: string)
    requires IsValueName(a.val.name) && IsScalarLeaf(a.leaf.body) && IsCloser(a.closer)
    ensures MatchShape4(LeafArgsText(a, rest)).Some?
    ensures MatchShape4(LeafArgsText(a, rest)).value.parts.val == a.val
    ensures ClassifyArgs(LeafArgsText(a, rest)).Shape1?
  {
    var tail := Sp(a.gap1, QuotedText(a.leaf, a.closer + rest));
    assert LeafArgsText(a, rest) == ObjectArgsText(ObjectArgs(a.gap0, a.val, ","), tail);
    MatchShape4Text(ObjectArgs(a.gap0, a.val, ","), tail);
    ClassifyShape1Text(a, rest);
  }
}
