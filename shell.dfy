/**
 * How `/bin/sh` splits a command line into the argument vector of the program
 * it runs, for the part of the shell language a bombardier command uses:
 * blanks separate words, and single quotes make everything up to the next
 * single quote part of the current word. Characters that may carry a shell
 * meaning are outside the model: `Words` answers None for a line that holds
 * one unquoted.
 */
module Shell {
  import opened Wrappers

  predicate IsBlank(c: char) {
    c == ' ' || c == '\t'
  }

  /**
   * Characters that stand for themselves outside quotes in every position of a
   * word: letters, digits and a few punctuation marks. Every other character
   * (expansions, redirections, globbing, other quotes, comments, line breaks,
   * non-ASCII text) is outside the model.
   */
  predicate IsPlainChar(c: char) {
    'a' <= c <= 'z' || 'A' <= c <= 'Z' || '0' <= c <= '9'
      || c == '-' || c == '_' || c == '.' || c == '/' || c == ':' || c == ',' || c == '+' || c == '@'
  }

  /** A word that needs no quoting. */
  predicate IsPlainWord(w: string) {
    |w| > 0 && forall i :: 0 <= i < |w| ==> IsPlainChar(w[i])
  }

  lemma PlainConcat(a: string, b: string)
    requires IsPlainWord(a) && IsPlainWord(b)
    ensures IsPlainWord(a + b)
  {
    forall i | 0 <= i < |a + b| ensures IsPlainChar((a + b)[i]) {
      if i >= |a| {
        assert (a + b)[i] == b[i - |a|];
      }
    }
  }

  /** Scanner state: finished words, the word being read (if any), and whether inside quotes. */
  datatype Lexer = Lexer(words: seq<string>, word: Option<string>, quoted: bool) | Unsupported

  /** The current word with `c` appended; reading `c` between words starts a word. */
  function Extend(w: Option<string>, c: char): string {
    match w
    case None => [c]
    case Some(x) => x + [c]
  }

  function Step(l: Lexer, c: char): Lexer {
    match l
    case Unsupported => Unsupported
    case Lexer(ws, w, q) =>
      if q then
        if c == '\'' then Lexer(ws, w, false) else Lexer(ws, Some(Extend(w, c)), true)
      else if IsBlank(c) then
        if w.Some? then Lexer(ws + [w.value], None, false) else l
      else if c == '\'' then Lexer(ws, Some(w.GetOr("")), true)
      else if IsPlainChar(c) then Lexer(ws, Some(Extend(w, c)), false)
      else Unsupported
  }

  /** The state after reading `s`, one character at a time from the left. */
  function Scan(l: Lexer, s: string): Lexer {
    if s == [] then l else Step(Scan(l, s[..|s| - 1]), s[|s| - 1])
  }

  /** Between words, with `ws` already read. */
  function Between(ws: seq<string>): Lexer {
    Lexer(ws, None, false)
  }

  /** The argument vector of a command line, or None outside the modelled fragment or on an open quote. */
  function Words(s: string): Option<seq<string>> {
    match Scan(Between([]), s)
    case Unsupported => None
    case Lexer(ws, w, q) => if q then None else Some(ws + if w.Some? then [w.value] else [])
  }

  lemma {:induction false} ScanAppend(l: Lexer, a: string, b: string)
    ensures Scan(l, a + b) == Scan(Scan(l, a), b)
    decreases |b|
  {
    if b == [] {
      assert a + b == a;
    } else {
      var n := |b| - 1;
      assert (a + b)[..|a + b| - 1] == a + b[..n];
      ScanAppend(l, a, b[..n]);
    }
  }

  /** Plain characters extend the current word. */
  lemma {:induction false} ScanPlain(ws: seq<string>, w: string, p: string)
    requires forall i :: 0 <= i < |p| ==> IsPlainChar(p[i])
    ensures Scan(Lexer(ws, Some(w), false), p) == Lexer(ws, Some(w + p), false)
    decreases |p|
  {
    if p == [] {
      assert w + p == w;
    } else {
      var n := |p| - 1;
      ScanPlain(ws, w, p[..n]);
      assert w + p == (w + p[..n]) + [p[n]];
    }
  }

  /** Inside quotes, everything but a quote extends the current word. */
  lemma {:induction false} ScanQuoted(ws: seq<string>, w: string, q: string)
    requires '\'' !in q
    ensures Scan(Lexer(ws, Some(w), true), q) == Lexer(ws, Some(w + q), true)
    decreases |q|
  {
    if q == [] {
      assert w + q == w;
    } else {
      var n := |q| - 1;
      assert q[n] in q;
      ScanQuoted(ws, w, q[..n]);
      assert w + q == (w + q[..n]) + [q[n]];
    }
  }

  /** Between words, a plain word is read as the current word. */
  lemma ScanWord(ws: seq<string>, p: string)
    requires IsPlainWord(p)
    ensures Scan(Between(ws), p) == Lexer(ws, Some(p), false)
  {
    assert p == [p[0]] + p[1..];
    ScanAppend(Between(ws), [p[0]], p[1..]);
    assert [p[0]][..0] == [];
    assert IsPlainChar(p[0]);
    ScanPlain(ws, [p[0]], p[1..]);
  }

  /** A plain word and a blank add the word. */
  lemma ScanPlainWord(ws: seq<string>, p: string)
    requires IsPlainWord(p)
    ensures Scan(Between(ws), p + " ") == Between(ws + [p])
  {
    ScanAppend(Between(ws), p, " ");
    ScanWord(ws, p);
    assert " "[..0] == [];
  }

  /** A single-quoted string and a blank add the string, quotes removed. */
  lemma ScanQuotedWord(ws: seq<string>, q: string)
    requires '\'' !in q
    ensures Scan(Between(ws), "'" + q + "'" + " ") == Between(ws + [q])
  {
    assert "'"[..0] == [];
    ScanAppend(Between(ws), "'", q);
    ScanQuoted(ws, "", q);
    assert "" + q == q;
    ScanAppend(Between(ws), "'" + q, "'");
    ScanAppend(Between(ws), "'" + q + "'", " ");
  }

  /** Between words, an extra blank changes nothing. */
  lemma ScanBlank(ws: seq<string>)
    ensures Scan(Between(ws), " ") == Between(ws)
  {
  }

  /** A plain word and a blank, then anything: the word is added before the rest is read. */
  lemma ScanPlainThen(ws: seq<string>, p: string, rest: string)
    requires IsPlainWord(p)
    ensures Scan(Between(ws), p + " " + rest) == Scan(Between(ws + [p]), rest)
  {
    ScanAppend(Between(ws), p + " ", rest);
    ScanPlainWord(ws, p);
  }

  /** A plain word at the end of the line is the last argument. */
  lemma WordsLast(ws: seq<string>, s: string, p: string)
    requires Scan(Between([]), s) == Between(ws)
    requires IsPlainWord(p)
    ensures Words(s + p) == Some(ws + [p])
  {
    ScanAppend(Between([]), s, p);
    ScanWord(ws, p);
  }
}
