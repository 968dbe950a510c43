/** The tree-creation patterns of the scraper:
      RE_TTREE_1    (\w+) *= *\w+ *-> *make *< *TTree *> *\( *"(\w+)" *
      RE_TTREE_2    (\w+) *= *new *TTree *\( *"(\w+)" *
      RE_TTREE_ARGS , *"(.*)" *\)
    Each anchored pattern is a function from the text to its parts and the
    text after the match; each comes with the function that writes those parts
    back out, and a lemma that the matcher reads back exactly what was written. */
module TreePatterns {
  import opened Strings
  import opened Pieces

  const MakeKeywords: seq<string> := ["make", "<", "TTree", ">"]
  const NewKeywords: seq<string> := ["new", "TTree"]

  /** `tvar = owner->make<TTree>("tname"`: the binding `tvar =`, the owner
      `owner ->`, the blanks among the keywords, and the quoted tree name. */
  datatype MakeCall = MakeCall(binding: Operand, owner: Operand, kgaps: seq<nat>, name: NameArg) {
    function TVar(): string { binding.word }
    function TName(): string { name.name }
  }

  predicate ValidMake(m: MakeCall) {
    IsWord(m.binding.word) && IsWord(m.owner.word) && |m.kgaps| == |MakeKeywords| && IsWord(m.name.name)
  }

  function MakeText(m: MakeCall, rest: string): string
    requires |m.kgaps| == |MakeKeywords|
  {
    OperandText(m.binding, "=", OperandText(m.owner, "->",
      KeywordsText(MakeKeywords, m.kgaps, NameArgText(m.name, rest))))
  }

  /** RE_TTREE_1 anchored at the start of `s`. */
  function MatchMake(s: string): (r: Option<Match<MakeCall>>)
    ensures r.Some? ==> ValidMake(r.value.parts) && s == MakeText(r.value.parts, r.value.rest)
    ensures r.Some? ==> NoLeadingBlank(r.value.rest)
  {
    var b :- MatchOperand(s, "=");
    var o :- MatchOperand(b.rest, "->");
    var k :- MatchKeywords(o.rest, MakeKeywords);
    var n :- MatchNameArg(k.rest);
    Some(Match(MakeCall(b.parts, o.parts, k.parts, n.parts), n.rest))
  }

  /** Round trip: the matcher reads back every text written from valid parts. */
  lemma MatchMakeText(m: MakeCall, rest: string)
    requires ValidMake(m) && NoLeadingBlank(rest)
    ensures MatchMake(MakeText(m, rest)) == Some(Match(m, rest))
  {
    var t2 := NameArgText(m.name, rest);
    var t1 := KeywordsText(MakeKeywords, m.kgaps, t2);
    var t0 := OperandText(m.owner, "->", t1);
    MatchNameArgText(m.name, rest);
    KeywordListsOk();
    KeywordsTail(MakeKeywords, m.kgaps, m.name, rest);
    assert NoLeadingBlank(t1);
    MatchOperandText(m.owner, "->", t1);
    OperandTextHead(m.owner, "->", t1);
    MatchOperandText(m.binding, "=", t0);
  }

  /** The keywords and the quoted name after them read back, and the text
      starts with the first keyword's first character. */
  lemma KeywordsTail(lits: seq<string>, gaps: seq<nat>, name: NameArg, rest: string)
    requires KeywordList(lits) && lits != []
    requires |gaps| == |lits| && IsWord(name.name) && NoLeadingBlank(rest)
    ensures var t := KeywordsText(lits, gaps, NameArgText(name, rest));
            MatchKeywords(t, lits) == Some(Match(gaps, NameArgText(name, rest)))
            && t != [] && t[0] == lits[0][0]
  {
    var t2 := NameArgText(name, rest);
    MatchNameArgText(name, rest);
    MatchKeywordsText(lits, gaps, t2);
  }

  lemma KeywordListsOk()
    ensures KeywordList(MakeKeywords) && KeywordList(NewKeywords)
  {
  }

  /** `tvar = new TTree("tname"`. */
  datatype NewCall = NewCall(binding: Operand, kgaps: seq<nat>, name: NameArg) {
    function TVar(): string { binding.word }
    function TName(): string { name.name }
  }

  predicate ValidNew(m: NewCall) {
    IsWord(m.binding.word) && |m.kgaps| == |NewKeywords| && IsWord(m.name.name)
  }

  function NewText(m: NewCall, rest: string): string
    requires |m.kgaps| == |NewKeywords|
  {
    OperandText(m.binding, "=", KeywordsText(NewKeywords, m.kgaps, NameArgText(m.name, rest)))
  }

  /** RE_TTREE_2 anchored at the start of `s`. */
  function MatchNew(s: string): (r: Option<Match<NewCall>>)
    ensures r.Some? ==> ValidNew(r.value.parts) && s == NewText(r.value.parts, r.value.rest)
    ensures r.Some? ==> NoLeadingBlank(r.value.rest)
  {
    var b :- MatchOperand(s, "=");
    var k :- MatchKeywords(b.rest, NewKeywords);
    var n :- MatchNameArg(k.rest);
    Some(Match(NewCall(b.parts, k.parts, n.parts), n.rest))
  }

  lemma MatchNewText(m: NewCall, rest: string)
    requires ValidNew(m) && NoLeadingBlank(rest)
    ensures MatchNew(NewText(m, rest)) == Some(Match(m, rest))
  {
    var t1 := KeywordsText(NewKeywords, m.kgaps, NameArgText(m.name, rest));
    MatchNameArgText(m.name, rest);
    KeywordListsOk();
    KeywordsTail(NewKeywords, m.kgaps, m.name, rest);
    assert NoLeadingBlank(t1);
    MatchOperandText(m.binding, "=", t1);
  }

  /** Because the search is leftmost, the tree variable found by RE_TTREE_1 is
      a whole word: no word character stands right before it (and the pattern
      itself puts a blank or `=` right after it). */
  lemma MakeVarIsWholeWord(s: string)
    requires SearchFrom(MatchMake, s, 0).Some?
    ensures var f := SearchFrom(MatchMake, s, 0).value;
            f.start == 0 || !IsWordChar(s[f.start - 1])
  {
    forall c, t | IsWordChar(c) && MatchMake(t).Some? ensures MatchMake([c] + t).Some? {
      var h := MatchMake(t).value;
      MakeTextCons(c, h.parts, h.rest);
    }
    LeftmostNotExtended(MatchMake, IsWordChar, s);
  }

  /** A word character in front of a match of RE_TTREE_1 extends its first word. */
  lemma MakeTextCons(c: char, m: MakeCall, rest: string)
    requires IsWordChar(c) && ValidMake(m) && NoLeadingBlank(rest)
    ensures MatchMake([c] + MakeText(m, rest)).Some?
  {
    var m' := m.(binding := m.binding.(word := [c] + m.binding.word));
    IsWordCons(c, m.binding.word);
    OperandTextCons(c, m.binding, "=", OperandText(m.owner, "->", KeywordsText(MakeKeywords, m.kgaps, NameArgText(m.name, rest))));
    MatchMakeText(m', rest);
  }

  /** The same for RE_TTREE_2. */
  lemma NewVarIsWholeWord(s: string)
    requires SearchFrom(MatchNew, s, 0).Some?
    ensures var f := SearchFrom(MatchNew, s, 0).value;
            f.start == 0 || !IsWordChar(s[f.start - 1])
  {
    forall c, t | IsWordChar(c) && MatchNew(t).Some? ensures MatchNew([c] + t).Some? {
      var h := MatchNew(t).value;
      NewTextCons(c, h.parts, h.rest);
    }
    LeftmostNotExtended(MatchNew, IsWordChar, s);
  }

  /** A word character in front of a match of RE_TTREE_2 extends its first word. */
  lemma NewTextCons(c: char, m: NewCall, rest: string)
    requires IsWordChar(c) && ValidNew(m) && NoLeadingBlank(rest)
    ensures MatchNew([c] + NewText(m, rest)).Some?
  {
    var m' := m.(binding := m.binding.(word := [c] + m.binding.word));
    IsWordCons(c, m.binding.word);
    OperandTextCons(c, m.binding, "=", KeywordsText(NewKeywords, m.kgaps, NameArgText(m.name, rest)));
    MatchNewText(m', rest);
  }

  /** `, "title" )`: the blanks after the comma, the title, and the blanks
      before the closing parenthesis. */
  datatype TitleArgs = TitleArgs(gap0: nat, title: string, gap1: nat)

  /** `.` does not match a newline. */
  predicate ValidTitle(a: TitleArgs) { NoNewline(a.title) }

  function TitleText(a: TitleArgs, rest: string): string {
    "," + Sp(a.gap0, "\"" + (a.title + ("\"" + Sp(a.gap1, ")" + rest))))
  }

  /** ` *\)` matches at the start of `v`. */
  predicate ParenAfterBlanks(v: string)
    decreases |v|
  {
    v != [] && (v[0] == ')' || (v[0] == ' ' && ParenAfterBlanks(v[1..])))
  }

  lemma {:induction false} ParenAfterBlanksSkip(v: string)
    ensures ParenAfterBlanks(v) <==> SkipSpaces(v).rest != [] && SkipSpaces(v).rest[0] == ')'
    decreases |v|
  {
    if v != [] && v[0] == ' ' {
      ParenAfterBlanksSkip(v[1..]);
    }
  }

  /** The quote at `e` of `u` can close the title: no newline before it, and
      ` *\)` after it. */
  predicate ClosesAt(u: string, e: nat) {
    e < |u| && u[e] == '"' && (forall k | 0 <= k < e :: u[k] != '\n') && ParenAfterBlanks(u[e + 1..])
  }

  /** The greedy `.*`: the last position below `n` at which a quote closes the title. */
  function LastClose(u: string, n: nat): (r: Option<nat>)
    requires n <= |u|
    ensures r.Some? ==> r.value < n && ClosesAt(u, r.value)
    ensures r.Some? ==> forall e | r.value < e < n :: !ClosesAt(u, e)
    ensures r.None? ==> forall e | 0 <= e < n :: !ClosesAt(u, e)
  {
    if n == 0 then None
    else if ClosesAt(u, n - 1) then Some(n - 1)
    else LastClose(u, n - 1)
  }

  /** Splitting the text at a quote that closes the title. */
  lemma ClosesAtSplit(u: string, e: nat)
    requires ClosesAt(u, e)
    ensures NoNewline(u[..e])
    ensures var g := SkipSpaces(u[e + 1..]);
            g.rest != [] && g.rest[0] == ')' && u == u[..e] + ("\"" + Sp(g.width, ")" + g.rest[1..]))
  {
    NoNewlineBefore(u, e);
    ParenSplit(u[e + 1..]);
    SplitAt(u, e);
  }

  lemma NoNewlineBefore(u: string, e: nat)
    requires e <= |u| && forall k | 0 <= k < e :: u[k] != '\n'
    ensures NoNewline(u[..e])
  {
  }

  lemma ParenSplit(v: string)
    requires ParenAfterBlanks(v)
    ensures var g := SkipSpaces(v);
            g.rest != [] && g.rest[0] == ')' && v == Sp(g.width, ")" + g.rest[1..])
  {
    ParenAfterBlanksSkip(v);
    var g := SkipSpaces(v);
    assert g.rest == ")" + g.rest[1..];
  }

  lemma SplitAt(u: string, e: nat)
    requires e < |u| && u[e] == '"'
    ensures u == u[..e] + ("\"" + u[e + 1..])
  {
    assert u[e..] == [u[e]] + u[e + 1..];
    assert u == u[..e] + u[e..];
  }

  /** RE_TTREE_ARGS anchored at the start of `s` (`re.match`). */
  function MatchTitle(s: string): (r: Option<Match<TitleArgs>>)
    ensures r.Some? ==> ValidTitle(r.value.parts) && s == TitleText(r.value.parts, r.value.rest)
  {
    var p :- LitGap(s, ",");
    var u :- TakeLit(p.rest, "\"");
    var e :- LastClose(u, |u|);
    var g1 := SkipSpaces(u[e + 1..]);
    ClosesAtSplit(u, e);
    var rest :- TakeLit(g1.rest, ")");
    Some(Match(TitleArgs(p.parts, u[..e], g1.width), rest))
  }

  lemma ClosesAtText(t: string, n: nat, rest: string)
    requires NoNewline(t)
    ensures ClosesAt(t + ("\"" + Sp(n, ")" + rest)), |t|)
  {
    var u := t + ("\"" + Sp(n, ")" + rest));
    assert u[..|t|] == t;
    assert u[|t| + 1..] == Sp(n, ")" + rest);
    SkipSpacesOf(n, ")" + rest);
    ParenAfterBlanksSkip(Sp(n, ")" + rest));
  }

  /** The text after the comma and the opening quote of a written title. */
  lemma TitleTextHead(a: TitleArgs, rest: string)
    ensures var u := a.title + ("\"" + Sp(a.gap1, ")" + rest));
            LitGap(TitleText(a, rest), ",") == Some(Match(a.gap0, "\"" + u))
            && TakeLit("\"" + u, "\"") == Some(u)
  {
    var u := a.title + ("\"" + Sp(a.gap1, ")" + rest));
    LitGapOf(",", a.gap0, "\"" + u);
    TakeLitOf("\"", u);
  }

  /** `.*` is greedy: whenever some valid title can be read from `s`, the
      matcher succeeds and its title is at least as long as that one. */
  lemma MatchTitleIsGreedy(s: string, a: TitleArgs, rest: string)
    requires ValidTitle(a) && s == TitleText(a, rest)
    ensures MatchTitle(s).Some?
    ensures |a.title| <= |MatchTitle(s).value.parts.title|
  {
    var u := a.title + ("\"" + Sp(a.gap1, ")" + rest));
    TitleTextHead(a, rest);
    ClosesAtText(a.title, a.gap1, rest);
    var e := LastClose(u, |u|);
    assert e.Some? && |a.title| <= e.value;
    MatchTitleAt(s, a.gap0, u, e.value);
  }

  /** When a quote closes the title, the matcher takes the title up to the
      last such quote. */
  lemma MatchTitleAt(s: string, n: nat, u: string, e: nat)
    requires LitGap(s, ",") == Some(Match(n, "\"" + u))
    requires LastClose(u, |u|) == Some(e)
    ensures MatchTitle(s).Some? && MatchTitle(s).value.parts.title == u[..e]
  {
    TakeLitOf("\"", u);
    ClosesAtSplit(u, e);
    var g1 := SkipSpaces(u[e + 1..]);
    TakeLitOf(")", g1.rest[1..]);
    assert ")" + g1.rest[1..] == g1.rest;
  }

  /** Read back exactly: when the title written contains no quote, the matcher
      returns precisely the parts it was written from. */
  lemma MatchTitleText(a: TitleArgs, rest: string)
    requires ValidTitle(a) && NoQuoteIn(a.title) && NoQuoteIn(rest)
    ensures MatchTitle(TitleText(a, rest)) == Some(Match(a, rest))
  {
    var u := a.title + ("\"" + Sp(a.gap1, ")" + rest));
    TitleTextHead(a, rest);
    ClosesAtText(a.title, a.gap1, rest);
    forall e | |a.title| < e < |u| ensures !ClosesAt(u, e) {
      NoCloseAfter(a, rest, e);
    }
    var e := LastClose(u, |u|);
    assert e == Some(|a.title|);
    assert u[..|a.title|] == a.title;
    assert u[|a.title| + 1..] == Sp(a.gap1, ")" + rest);
    SkipSpacesOf(a.gap1, ")" + rest);
    TakeLitOf(")", rest);
  }

  /** No quote after the one that ends a written title, when the text after
      the call has none: the title cannot extend into it. */
  lemma NoCloseAfter(a: TitleArgs, rest: string, e: nat)
    requires NoQuoteIn(rest)
    requires |a.title| < e < |a.title| + 1 + a.gap1 + 1 + |rest|
    ensures (a.title + ("\"" + Sp(a.gap1, ")" + rest)))[e] != '"'
  {
    var v := Sp(a.gap1, ")" + rest);
    var u := a.title + ("\"" + v);
    var d := e - |a.title| - 1;
    assert u[e] == v[d];
    if d > a.gap1 {
      assert v[d] == rest[d - 1 - a.gap1];
    }
  }

  /** One tree-creation statement: captured variable, tree name and title. */
  datatype Creation = Creation(tvarname: string, treename: string, treetitle: string)

  /** The title after the name match: the group of RE_TTREE_ARGS, or, when that
      does not match, the whole raw line. */
  function TitleFor(line: string, after: string): (t: string)
    ensures MatchTitle(after).Some? ==> t == MatchTitle(after).value.parts.title
    ensures MatchTitle(after).None? ==> t == line
  {
    match MatchTitle(after)
    case Some(a) => a.parts.title
    case None => line
  }

  /** Tree discovery on one line: RE_TTREE_1 is searched first, RE_TTREE_2
      only when RE_TTREE_1 finds nothing; then the title is probed on what
      follows the match. */
  function FindCreation(line: string): (r: Option<Creation>)
    ensures r.Some? ==> IsWord(r.value.tvarname) && IsWord(r.value.treename)
  {
    match SearchFrom(MatchMake, line, 0)
    case Some(f) => Some(Creation(f.hit.parts.TVar(), f.hit.parts.TName(), TitleFor(line, f.hit.rest)))
    case None =>
      match SearchFrom(MatchNew, line, 0)
      case Some(f) => Some(Creation(f.hit.parts.TVar(), f.hit.parts.TName(), TitleFor(line, f.hit.rest)))
      case None => None
  }

  /** At most one creation per line: the leftmost RE_TTREE_1 match when there
      is one, else the leftmost RE_TTREE_2 match, else none; the variable
      and the tree name are its two groups and the title is probed after it. */
  lemma FindCreationOrder(line: string)
    ensures var r := FindCreation(line);
      (SearchFrom(MatchMake, line, 0).Some? ==>
         var h := SearchFrom(MatchMake, line, 0).value.hit;
         r == Some(Creation(h.parts.TVar(), h.parts.TName(), TitleFor(line, h.rest))))
      && (SearchFrom(MatchMake, line, 0).None? && SearchFrom(MatchNew, line, 0).Some? ==>
         var h := SearchFrom(MatchNew, line, 0).value.hit;
         r == Some(Creation(h.parts.TVar(), h.parts.TName(), TitleFor(line, h.rest))))
      && (r.None? <==> SearchFrom(MatchMake, line, 0).None? && SearchFrom(MatchNew, line, 0).None?)
  {
  }
}
