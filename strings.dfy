/** Character classes and the small "take a prefix" steps out of which the
    scraper's regular expressions are hand-coded.  Every step works on the
    remaining text and returns what it consumed together with what is left,
    so that a chain of steps proves `text == consumed + rest` piece by piece. */
module Strings {

  datatype Option<+T> = None | Some(value: T) {
    predicate IsFailure() { None? }
    function PropagateFailure<U>(): Option<U>
      requires None?
    {
      None
    }
    function Extract(): T
      requires Some?
    {
      value
    }
  }

  /** A prefix `piece` cut off a text, leaving `rest`. */
  datatype Cut = Cut(piece: string, rest: string)

  /** A run of `width` blanks cut off a text, leaving `rest`. */
  datatype Gap = Gap(width: nat, rest: string)

  /** `\w`, restricted to ASCII: letters, digits and underscore. */
  predicate IsWordChar(c: char) {
    ('a' <= c <= 'z') || ('A' <= c <= 'Z') || ('0' <= c <= '9') || c == '_'
  }

  /** `[\w.]`, the characters of a value variable such as `fEvt.run`. */
  predicate IsValueChar(c: char) { IsWordChar(c) || c == '.' }

  /** The characters that `\w+/?\w?` can consume. */
  predicate IsScalarLeafChar(c: char) { IsWordChar(c) || c == '/' }

  /** The characters that `\w+\[\w+\]/?\w?` can consume. */
  predicate IsArrayLeafChar(c: char) { IsWordChar(c) || c == '/' || c == '[' || c == ']' }

  /** `[^"]` */
  predicate NotQuote(c: char) { c != '"' }

  /** `[^"]*` as a whole string. */
  predicate NoQuoteIn(s: string) { forall k | 0 <= k < |s| :: s[k] != '"' }

  predicate AllWordChars(s: string) { forall k | 0 <= k < |s| :: IsWordChar(s[k]) }

  /** `\w+` as a whole string. */
  predicate IsWord(s: string) { |s| > 0 && AllWordChars(s) }

  /** `[\w.]+` as a whole string. */
  predicate IsValueName(s: string) { |s| > 0 && forall k | 0 <= k < |s| :: IsValueChar(s[k]) }

  predicate NoNewline(s: string) { forall k | 0 <= k < |s| :: s[k] != '\n' }

  /** What ` *` leaves behind: text that does not start with a blank. */
  predicate NoLeadingBlank(s: string) { s == [] || s[0] != ' ' }

  function Spaces(n: nat): (s: string)
    ensures |s| == n
    ensures forall k | 0 <= k < n :: s[k] == ' '
  {
    if n == 0 then "" else " " + Spaces(n - 1)
  }

  /** `n` blanks followed by `rest`; texts of patterns are written with it so
      that they nest to the right. */
  function Sp(n: nat, rest: string): string { Spaces(n) + rest }

  lemma SpCons(n: nat, rest: string)
    ensures Sp(n + 1, rest) == " " + Sp(n, rest)
  {
    assert Spaces(n + 1) == " " + Spaces(n);
  }

  /** ` *`: all leading blanks (the star is greedy and what follows it in every
      pattern of the scraper is not a blank, so it never gives any back). */
  function SkipSpaces(s: string): (g: Gap)
    ensures s == Sp(g.width, g.rest)
    ensures NoLeadingBlank(g.rest)
    decreases |s|
  {
    if s != [] && s[0] == ' ' then
      var g := SkipSpaces(s[1..]);
      SpCons(g.width, g.rest);
      assert s == [s[0]] + s[1..];
      Gap(g.width + 1, g.rest)
    else
      Gap(0, s)
  }

  lemma {:induction false} SkipSpacesOf(n: nat, rest: string)
    requires NoLeadingBlank(rest)
    ensures SkipSpaces(Sp(n, rest)) == Gap(n, rest)
  {
    if n > 0 {
      assert Spaces(n) == " " + Spaces(n - 1);
      assert Sp(n, rest) == " " + Sp(n - 1, rest);
      assert Sp(n, rest)[1..] == Sp(n - 1, rest);
      SkipSpacesOf(n - 1, rest);
    }
  }

  /** The longest prefix whose characters all satisfy `p`. */
  function TakeRun(s: string, p: char -> bool): (c: Cut)
    ensures s == c.piece + c.rest
    ensures forall k | 0 <= k < |c.piece| :: p(c.piece[k])
    ensures c.rest == [] || !p(c.rest[0])
    decreases |s|
  {
    if s != [] && p(s[0]) then
      var c := TakeRun(s[1..], p);
      ConsCut(s, c.piece, c.rest);
      Cut([s[0]] + c.piece, c.rest)
    else
      Cut([], s)
  }

  lemma ConsCut(s: string, piece: string, rest: string)
    requires s != [] && s[1..] == piece + rest
    ensures s == ([s[0]] + piece) + rest
  {
    assert s == [s[0]] + s[1..];
  }

  lemma {:induction false} TakeRunOf(w: string, rest: string, p: char -> bool)
    requires forall k | 0 <= k < |w| :: p(w[k])
    requires rest == [] || !p(rest[0])
    ensures TakeRun(w + rest, p) == Cut(w, rest)
  {
    if w != [] {
      assert (w + rest)[0] == w[0];
      assert (w + rest)[1..] == w[1..] + rest;
      TakeRunOf(w[1..], rest, p);
      assert [w[0]] + w[1..] == w;
    } else {
      assert w + rest == rest;
    }
  }

  /** A non-empty run, as `\w+` or `[\w.]+` demands. */
  function TakeSome(s: string, p: char -> bool): (r: Option<Cut>)
    ensures r.Some? ==> s == r.value.piece + r.value.rest && |r.value.piece| > 0
    ensures r.Some? ==> forall k | 0 <= k < |r.value.piece| :: p(r.value.piece[k])
    ensures r.Some? ==> r.value.rest == [] || !p(r.value.rest[0])
    ensures r.None? <==> s == [] || !p(s[0])
  {
    var c := TakeRun(s, p);
    if c.piece == [] then None else Some(c)
  }

  lemma TakeSomeOf(w: string, rest: string, p: char -> bool)
    requires |w| > 0 && forall k | 0 <= k < |w| :: p(w[k])
    requires rest == [] || !p(rest[0])
    ensures TakeSome(w + rest, p) == Some(Cut(w, rest))
  {
    TakeRunOf(w, rest, p);
  }

  /** A literal. */
  function TakeLit(s: string, lit: string): (r: Option<string>)
    ensures r.Some? <==> lit <= s
    ensures r.Some? ==> s == lit + r.value
  {
    if lit <= s then
      assert s == s[..|lit|] + s[|lit|..];
      Some(s[|lit|..])
    else None
  }

  lemma TakeLitOf(lit: string, rest: string)
    ensures TakeLit(lit + rest, lit) == Some(rest)
  {
    assert (lit + rest)[..|lit|] == lit;
    assert (lit + rest)[|lit|..] == rest;
  }

  /** `[,)]`: one comma or closing parenthesis. */
  function TakeCloser(s: string): (r: Option<Cut>)
    ensures r.Some? ==> s == r.value.piece + r.value.rest && (r.value.piece == "," || r.value.piece == ")")
    ensures r.None? <==> s == [] || (s[0] != ',' && s[0] != ')')
  {
    if s != [] && (s[0] == ',' || s[0] == ')') then
      assert s == [s[0]] + s[1..];
      Some(Cut([s[0]], s[1..]))
    else None
  }

  lemma TakeCloserOf(closer: string, rest: string)
    requires closer == "," || closer == ")"
    ensures TakeCloser(closer + rest) == Some(Cut(closer, rest))
  {
    assert (closer + rest)[1..] == rest;
  }

  /** What an anchored pattern matched: its captured parts and the text after it. */
  datatype Match<T> = Match(parts: T, rest: string)

  /** Where `re.search` found a match, and the match. */
  datatype Found<T> = Found(start: nat, hit: Match<T>)

  /** `re.search`: the leftmost start at `i` or later at which the anchored
      matcher `m` succeeds.  Each of the scraper's patterns matches in at most
      one way at a given start, so the leftmost start decides the match. */
  function SearchFrom<T>(m: string -> Option<Match<T>>, s: string, i: nat): (r: Option<Found<T>>)
    requires i <= |s|
    ensures r.Some? ==> i <= r.value.start <= |s| && m(s[r.value.start..]) == Some(r.value.hit)
    decreases |s| - i
  {
    match m(s[i..])
    case Some(h) => Some(Found(i, h))
    case None => if i == |s| then None else SearchFrom(m, s, i + 1)
  }

  /** The start found is the leftmost: the matcher fails at every earlier
      start, and at every start when nothing is found. */
  lemma {:induction false} SearchFromLeftmost<T>(m: string -> Option<Match<T>>, s: string, i: nat)
    requires i <= |s|
    ensures var r := SearchFrom(m, s, i);
      (r.Some? ==> forall j | i <= j < r.value.start :: m(s[j..]).None?)
      && (r.None? ==> forall j | i <= j <= |s| :: m(s[j..]).None?)
    decreases |s| - i
  {
    if m(s[i..]).None? && i < |s| {
      SearchFromLeftmost(m, s, i + 1);
    }
  }

  /** When a match at some start implies a match one character earlier (the
      character before being of kind `ext`), the leftmost match is not
      preceded by such a character. */
  lemma LeftmostNotExtended<T>(m: string -> Option<Match<T>>, ext: char -> bool, s: string)
    requires SearchFrom(m, s, 0).Some?
    requires forall c, t | ext(c) && m(t).Some? :: m([c] + t).Some?
    ensures var f := SearchFrom(m, s, 0).value;
            f.start == 0 || !ext(s[f.start - 1])
  {
    var f := SearchFrom(m, s, 0).value;
    SearchFromLeftmost(m, s, 0);
    if f.start > 0 {
      var j := f.start - 1;
      assert s[j..] == [s[j]] + s[f.start..];
      assert m(s[j..]).None?;
    }
  }

  /** Blanks followed by a text that starts with a non-blank character `c`
      start with a blank or with `c`. */
  lemma SpHead(n: nat, t: string)
    requires t != []
    ensures Sp(n, t) != [] && Sp(n, t)[0] == (if n > 0 then ' ' else t[0])
  {
  }

  /** The characters Python's `str.isspace` accepts. */
  predicate IsPySpace(c: char) {
    c == ' ' || ('\t' <= c <= '\r') || ('\U{1C}' <= c <= '\U{1F}') || c == '\U{85}' || c == '\U{A0}'
    || c == '\U{1680}' || ('\U{2000}' <= c <= '\U{200A}') || c == '\U{2028}' || c == '\U{2029}'
    || c == '\U{202F}' || c == '\U{205F}' || c == '\U{3000}'
  }

  predicate AllPySpace(s: string) { forall k | 0 <= k < |s| :: IsPySpace(s[k]) }

  /** Index of the first character that is not white space. */
  function LeadingWhite(s: string, i: nat): (j: nat)
    requires i <= |s|
    ensures i <= j <= |s|
    ensures forall k | i <= k < j :: IsPySpace(s[k])
    ensures j == |s| || !IsPySpace(s[j])
    decreases |s| - i
  {
    if i < |s| && IsPySpace(s[i]) then LeadingWhite(s, i + 1) else i
  }

  /** Index just past the last character at or after `lo` that is not white space. */
  function TrailingWhite(s: string, lo: nat, j: nat): (e: nat)
    requires lo <= j <= |s|
    ensures lo <= e <= j
    ensures forall k | e <= k < j :: IsPySpace(s[k])
    ensures e == lo || !IsPySpace(s[e - 1])
    decreases j
  {
    if j > lo && IsPySpace(s[j - 1]) then TrailingWhite(s, lo, j - 1) else j
  }

  /** `str.strip()` with no argument. */
  function Strip(s: string): (r: string)
    ensures r == [] || (!IsPySpace(r[0]) && !IsPySpace(r[|r| - 1]))
    ensures exists lead | 0 <= lead <= |s| - |r| ::
              r == s[lead..lead + |r|] && AllPySpace(s[..lead]) && AllPySpace(s[lead + |r|..])
  {
    var a := LeadingWhite(s, 0);
    var b := TrailingWhite(s, a, |s|);
    assert AllPySpace(s[..a]);
    assert AllPySpace(s[b..]);
    s[a..b]
  }
}
