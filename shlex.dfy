/** The tokeniser the correlation pass runs over each stripped line: Python's
    `shlex.shlex(line)` in its default, non-POSIX mode, iterated to the end.
    Word characters are the ASCII letters, digits and `_`; white space is
    blank, tab, carriage return and newline; `'` and `"` are quotes; `#`
    starts a comment that runs through the next newline. */
module Shlex {
  import opened Strings

  predicate IsLexWhite(c: char) { c == ' ' || c == '\t' || c == '\r' || c == '\n' }

  predicate IsQuote(c: char) { c == '\'' || c == '"' }

  /** Neither white space, nor a word character, nor a quote, nor `#`: such a
      character is a token by itself. */
  predicate IsPunct(c: char) { !IsLexWhite(c) && !IsWordChar(c) && !IsQuote(c) && c != '#' }

  /** A word: a word character, then word characters and quotes (outside a
      quoted string a quote does not end a word). */
  predicate IsWordToken(t: string) {
    |t| > 0 && IsWordChar(t[0]) && forall k | 1 <= k < |t| :: IsWordChar(t[k]) || IsQuote(t[k])
  }

  /** A quoted string, quotes included. */
  predicate IsQuotedToken(t: string) {
    |t| >= 2 && IsQuote(t[0]) && t[|t| - 1] == t[0] && forall k | 1 <= k < |t| - 1 :: t[k] != t[0]
  }

  /** A quoted string still open at the end of the text. */
  predicate IsOpenQuoteToken(t: string) {
    |t| >= 1 && IsQuote(t[0]) && forall k | 1 <= k < |t| :: t[k] != t[0]
  }

  predicate IsToken(t: string) {
    IsWordToken(t) || IsQuotedToken(t) || IsOpenQuoteToken(t) || (|t| == 1 && IsPunct(t[0]))
  }

  /** `readline` after a `#`: everything through the next newline. */
  function SkipComment(s: string): (t: string)
    ensures |t| <= |s|
    decreases |s|
  {
    if s == [] then []
    else if s[0] == '\n' then s[1..]
    else SkipComment(s[1..])
  }

  /** What the tokeniser skips between tokens: white space and comments. */
  function SkipBlank(s: string): (t: string)
    ensures |t| <= |s|
    ensures t == [] || (!IsLexWhite(t[0]) && t[0] != '#')
    decreases |s|
  {
    if s == [] then []
    else if IsLexWhite(s[0]) then SkipBlank(s[1..])
    else if s[0] == '#' then SkipBlank(SkipComment(s[1..]))
    else s
  }

  /** The rest of a word: word characters and quotes are appended, a comment
      is skipped without ending the word, white space ends it and is consumed,
      any other character ends it and is left for the next token. */
  function WordRest(s: string): (c: Cut)
    ensures forall k | 0 <= k < |c.piece| :: IsWordChar(c.piece[k]) || IsQuote(c.piece[k])
    ensures |c.rest| <= |s|
    decreases |s|
  {
    if s == [] then Cut([], [])
    else if IsLexWhite(s[0]) then Cut([], s[1..])
    else if s[0] == '#' then WordRest(SkipComment(s[1..]))
    else if IsWordChar(s[0]) || IsQuote(s[0]) then
      var c := WordRest(s[1..]);
      Cut([s[0]] + c.piece, c.rest)
    else Cut([], s)
  }

  /** The rest of a string quoted by `q`, through the closing quote; an
      unclosed string runs to the end of the text. */
  function QuoteRest(s: string, q: char): (c: Cut)
    ensures s == c.piece + c.rest
    ensures forall k | 0 <= k < |c.piece| - 1 :: c.piece[k] != q
    ensures (c.piece != [] && c.piece[|c.piece| - 1] == q) || (c.rest == [] && forall k | 0 <= k < |c.piece| :: c.piece[k] != q)
    decreases |s|
  {
    if s == [] then Cut([], [])
    else if s[0] == q then
      assert s == [s[0]] + s[1..];
      Cut([s[0]], s[1..])
    else
      var c := QuoteRest(s[1..], q);
      assert s == [s[0]] + s[1..];
      Cut([s[0]] + c.piece, c.rest)
  }

  /** One token read from a text that starts with neither white space nor `#`. */
  function NextToken(s: string): (c: Cut)
    requires s != [] && !IsLexWhite(s[0]) && s[0] != '#'
    ensures |c.rest| < |s|
  {
    if IsWordChar(s[0]) then
      var w := WordRest(s[1..]);
      Cut([s[0]] + w.piece, w.rest)
    else if IsQuote(s[0]) then
      var w := QuoteRest(s[1..], s[0]);
      Cut([s[0]] + w.piece, w.rest)
    else
      Cut([s[0]], s[1..])
  }

  /** Every token read is a word, a quoted string (perhaps unclosed) or a
      single punctuation character. */
  lemma NextTokenIsToken(s: string)
    requires s != [] && !IsLexWhite(s[0]) && s[0] != '#'
    ensures IsToken(NextToken(s).piece)
  {
  }

  /** All tokens of a text, in order. */
  function Lex(s: string): seq<string>
    decreases |s|
  {
    var t := SkipBlank(s);
    if t == [] then []
    else
      var c := NextToken(t);
      [c.piece] + Lex(c.rest)
  }

  lemma {:induction false} LexTokens(s: string)
    ensures forall i | 0 <= i < |Lex(s)| :: IsToken(Lex(s)[i])
    decreases |s|
  {
    var t := SkipBlank(s);
    if t != [] {
      var c := NextToken(t);
      NextTokenIsToken(t);
      LexTokens(c.rest);
      assert Lex(s) == [c.piece] + Lex(c.rest);
    }
  }

  /** Words separated by single blanks. */
  function JoinWords(ws: seq<string>): string {
    if ws == [] then ""
    else if |ws| == 1 then ws[0]
    else ws[0] + (" " + JoinWords(ws[1..]))
  }

  lemma {:induction false} WordRestOf(u: string, rest: string)
    requires AllWordChars(u)
    ensures WordRest(u + (" " + rest)) == Cut(u, rest)
    ensures WordRest(u) == Cut(u, [])
  {
    if u != [] {
      assert (u + (" " + rest))[1..] == u[1..] + (" " + rest);
      WordRestOf(u[1..], rest);
      assert [u[0]] + u[1..] == u;
    } else {
      assert (" " + rest)[1..] == rest;
    }
  }

  /** A word followed by a blank is one token, and tokenising goes on after the blank. */
  lemma LexWordThen(w: string, after: string)
    requires IsWord(w)
    ensures Lex(w + (" " + after)) == [w] + Lex(after)
    ensures Lex(w) == [w]
  {
    var x := w + (" " + after);
    assert x[0] == w[0];
    assert x[1..] == w[1..] + (" " + after);
    WordRestOf(w[1..], after);
    assert [w[0]] + w[1..] == w;
    assert NextToken(x) == Cut(w, after);
    assert NextToken(w) == Cut(w, []);
  }

  /** The tokeniser reads back words written with blanks between them. */
  lemma {:induction false} LexJoinWords(ws: seq<string>)
    requires forall i | 0 <= i < |ws| :: IsWord(ws[i])
    ensures Lex(JoinWords(ws)) == ws
    decreases |ws|
  {
    if |ws| == 1 {
      LexWordThen(ws[0], "");
    } else if |ws| > 1 {
      var tail := ws[1..];
      assert forall i | 0 <= i < |tail| :: tail[i] == ws[i + 1];
      LexJoinWords(tail);
      LexJoinCons(ws);
    }
  }

  /** One more word in front. */
  lemma LexJoinCons(ws: seq<string>)
    requires |ws| > 1 && IsWord(ws[0])
    requires Lex(JoinWords(ws[1..])) == ws[1..]
    ensures Lex(JoinWords(ws)) == ws
  {
    var tail := ws[1..];
    var j := JoinWords(tail);
    assert JoinWords(ws) == ws[0] + (" " + j);
    assert Lex(ws[0] + (" " + j)) == [ws[0]] + tail by {
      LexWordThen(ws[0], j);
    }
    assert ws == [ws[0]] + tail;
  }

  /** So a value name with a `.` in it (`fEvt.run`) is never a token, and
      cannot be correlated; only the one-character name `.` can be. */
  lemma DottedNameNotToken(s: string, v: string)
    requires IsValueName(v) && |v| > 1 && exists k | 0 <= k < |v| :: v[k] == '.'
    ensures v !in Lex(s)
  {
    LexTokens(s);
    DottedNameIsNotToken(v);
  }

  lemma DottedNameIsNotToken(v: string)
    requires IsValueName(v) && |v| > 1 && exists k | 0 <= k < |v| :: v[k] == '.'
    ensures !IsToken(v)
  {
  }
}
