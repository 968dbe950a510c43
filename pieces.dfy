/** Pieces shared by the scraper's regular expressions.  Each anchored
    matcher returns its parts and the remaining text, states that the text is
    exactly what the matching `...Text` function writes from those parts, and
    has a lemma that it reads back every text written from valid parts. */
module Pieces {
  import opened Strings

  /** `lit *` */
  function LitGap(s: string, lit: string): (r: Option<Match<nat>>)
    ensures r.Some? ==> s == lit + Sp(r.value.parts, r.value.rest) && NoLeadingBlank(r.value.rest)
    ensures r.None? <==> !(lit <= s)
  {
    var t :- TakeLit(s, lit);
    var g := SkipSpaces(t);
    Some(Match(g.width, g.rest))
  }

  lemma LitGapOf(lit: string, n: nat, rest: string)
    requires NoLeadingBlank(rest)
    ensures LitGap(lit + Sp(n, rest), lit) == Some(Match(n, rest))
  {
    TakeLitOf(lit, Sp(n, rest));
    SkipSpacesOf(n, rest);
  }

  /** A text that neither starts with a blank nor continues a word. */
  predicate Delimited(s: string) { s == [] || (s[0] != ' ' && !IsWordChar(s[0])) }

  /** `\w+ *op *`, as in `(\w+) *= *` and `\w+ *-> *`: the word and the
      blanks on both sides of the operator. */
  datatype Operand = Operand(word: string, gap0: nat, gap1: nat)

  function OperandText(o: Operand, op: string, rest: string): string {
    o.word + Sp(o.gap0, op + Sp(o.gap1, rest))
  }

  function MatchOperand(s: string, op: string): (r: Option<Match<Operand>>)
    ensures r.Some? ==> IsWord(r.value.parts.word) && NoLeadingBlank(r.value.rest)
    ensures r.Some? ==> s == OperandText(r.value.parts, op, r.value.rest)
  {
    var w :- TakeSome(s, IsWordChar);
    var g := SkipSpaces(w.rest);
    var o :- LitGap(g.rest, op);
    Some(Match(Operand(w.piece, g.width, o.parts), o.rest))
  }

  lemma MatchOperandText(o: Operand, op: string, rest: string)
    requires IsWord(o.word) && Delimited(op) && op != []
    requires NoLeadingBlank(rest)
    ensures MatchOperand(OperandText(o, op, rest), op) == Some(Match(o, rest))
  {
    var t := op + Sp(o.gap1, rest);
    SpHead(o.gap0, t);
    TakeSomeOf(o.word, Sp(o.gap0, t), IsWordChar);
    SkipSpacesOf(o.gap0, t);
    LitGapOf(op, o.gap1, rest);
  }

  lemma OperandTextHead(o: Operand, op: string, rest: string)
    requires o.word != []
    ensures OperandText(o, op, rest) != [] && OperandText(o, op, rest)[0] == o.word[0]
  {
  }

  /** Prefixing a word character to the word of an operand text gives the
      operand text of the longer word. */
  lemma OperandTextCons(c: char, o: Operand, op: string, rest: string)
    ensures [c] + OperandText(o, op, rest) == OperandText(o.(word := [c] + o.word), op, rest)
  {
  }

  /** A word character in front of a word gives a longer word. */
  lemma IsWordCons(c: char, w: string)
    requires IsWordChar(c) && IsWord(w)
    ensures IsWord([c] + w)
  {
    assert forall k | 1 <= k < |w| + 1 :: ([c] + w)[k] == w[k - 1];
  }

  /** Keywords that are not empty and do not start with a blank. */
  predicate KeywordList(lits: seq<string>) {
    forall k | 0 <= k < |lits| :: lits[k] != [] && lits[k][0] != ' '
  }

  /** A fixed sequence of keywords, each followed by ` *`, as in
      `make *< *TTree *> *`. */
  function KeywordsText(lits: seq<string>, gaps: seq<nat>, rest: string): string
    requires |gaps| == |lits|
  {
    if lits == [] then rest else lits[0] + Sp(gaps[0], KeywordsText(lits[1..], gaps[1..], rest))
  }

  function MatchKeywords(s: string, lits: seq<string>): (r: Option<Match<seq<nat>>>)
    ensures r.Some? ==> |r.value.parts| == |lits| && s == KeywordsText(lits, r.value.parts, r.value.rest)
    ensures r.Some? && lits != [] ==> NoLeadingBlank(r.value.rest)
    decreases |lits|
  {
    if lits == [] then Some(Match([], s))
    else
      var k :- LitGap(s, lits[0]);
      var ks :- MatchKeywords(k.rest, lits[1..]);
      assert k.rest == KeywordsText(lits[1..], ks.parts, ks.rest);
      Some(Match([k.parts] + ks.parts, ks.rest))
  }

  lemma {:induction false} MatchKeywordsText(lits: seq<string>, gaps: seq<nat>, rest: string)
    requires |gaps| == |lits| && KeywordList(lits)
    requires NoLeadingBlank(rest)
    ensures MatchKeywords(KeywordsText(lits, gaps, rest), lits) == Some(Match(gaps, rest))
    decreases |lits|
  {
    if lits != [] {
      var t := KeywordsText(lits[1..], gaps[1..], rest);
      MatchKeywordsText(lits[1..], gaps[1..], rest);
      if lits[1..] != [] {
        assert lits[1..][0] == lits[1];
        assert t == lits[1] + Sp(gaps[1..][0], KeywordsText(lits[2..], gaps[2..], rest));
      }
      assert NoLeadingBlank(t);
      LitGapOf(lits[0], gaps[0], t);
      assert [gaps[0]] + gaps[1..] == gaps;
    }
  }

  /** `\( *"(\w+)" *`: the opening parenthesis, the quoted name, trailing blanks. */
  datatype NameArg = NameArg(gap0: nat, name: string, gap1: nat)

  function NameArgText(a: NameArg, rest: string): string {
    "(" + Sp(a.gap0, "\"" + (a.name + ("\"" + Sp(a.gap1, rest))))
  }

  function MatchNameArg(s: string): (r: Option<Match<NameArg>>)
    ensures r.Some? ==> IsWord(r.value.parts.name) && NoLeadingBlank(r.value.rest)
    ensures r.Some? ==> s == NameArgText(r.value.parts, r.value.rest)
  {
    var p :- LitGap(s, "(");
    var q :- TakeLit(p.rest, "\"");
    var w :- TakeSome(q, IsWordChar);
    var e :- LitGap(w.rest, "\"");
    Some(Match(NameArg(p.parts, w.piece, e.parts), e.rest))
  }

  lemma MatchNameArgText(a: NameArg, rest: string)
    requires IsWord(a.name) && NoLeadingBlank(rest)
    ensures MatchNameArg(NameArgText(a, rest)) == Some(Match(a, rest))
  {
    var t := "\"" + Sp(a.gap1, rest);
    LitGapOf("(", a.gap0, "\"" + (a.name + t));
    TakeLitOf("\"", a.name + t);
    TakeSomeOf(a.name, t, IsWordChar);
    LitGapOf("\"", a.gap1, rest);
  }
}
