/**
 * The fragment of ECMAScript regular expressions that the bombardier report
 * parser uses: literal text, the greedy repetitions `\s+`, `\d+` and
 * `[\d.]+`, and capture groups around a repetition. None of those patterns
 * has an anchor or a lookbehind, so whether a pattern matches at position
 * `i` of a string depends on the suffix `s[i..]` alone; matching is therefore
 * defined on suffixes.
 *
 * `MatchPrefix` is the backtracking semantics of the standard (a greedy
 * repetition tries its longest run first, then ever shorter ones);
 * `Munch` is the simpler maximal-munch matcher, and `GreedyIsBacktracking`
 * proves the two agree on the patterns where every repetition is followed by
 * something it cannot consume. `Search` is `String.prototype.match` with a
 * non-global pattern: the leftmost position where the pattern matches.
 */
module Regex {
  import opened Wrappers
  import Numerals
  import Seqs

  /** `\s`, `\d` and `[\d.]`. */
  datatype CharClass = Space | Digit | DigitOrDot

  /** A literal, or a `+` repetition of a class, captured in a group or not. */
  datatype Elem = Lit(text: string) | Plus(cls: CharClass, capture: bool)

  type Pattern = seq<Elem>

  /** Leftmost match: where it starts and what each group captured, in order. */
  datatype Match = Match(index: nat, groups: seq<string>)

  /** The ECMAScript `\s` class: white space and line terminators. */
  predicate IsSpace(c: char) {
    var n := c as int;
    n == 0x09 || n == 0x0A || n == 0x0B || n == 0x0C || n == 0x0D || n == 0x20 ||
    n == 0xA0 || n == 0x1680 || (0x2000 <= n <= 0x200A) || n == 0x2028 ||
    n == 0x2029 || n == 0x202F || n == 0x205F || n == 0x3000 || n == 0xFEFF
  }

  predicate InClass(c: char, k: CharClass) {
    match k
    case Space => IsSpace(c)
    case Digit => Numerals.IsDigit(c)
    case DigitOrDot => Numerals.IsDigit(c) || c == '.'
  }

  /** No character belongs to both classes. */
  predicate Disjoint(k1: CharClass, k2: CharClass) {
    (k1 == Space) != (k2 == Space)
  }

  lemma DisjointClasses(c: char, k1: CharClass, k2: CharClass)
    requires Disjoint(k1, k2)
    ensures !(InClass(c, k1) && InClass(c, k2))
  {
  }

  /** Length of the longest prefix of `s` made of `k`-characters. */
  function Run(s: string, k: CharClass): (n: nat)
    ensures n <= |s|
    ensures forall j :: 0 <= j < n ==> InClass(s[j], k)
    ensures n == |s| || !InClass(s[n], k)
  {
    if s != [] && InClass(s[0], k) then 1 + Run(s[1..], k) else 0
  }

  /**
   * Backtracking semantics: the groups captured when `pat` matches at the
   * start of `s`, or None.
   */
  function MatchPrefix(s: string, pat: Pattern): Option<seq<string>>
    decreases |pat|, |s| + 1
  {
    if pat == [] then Some([])
    else match pat[0]
      case Lit(t) =>
        if t <= s then MatchPrefix(s[|t|..], pat[1..]) else None
      case Plus(k, capture) =>
        Backtrack(s, capture, pat[1..], Run(s, k))
  }

  /**
   * A greedy repetition that has consumed a run of length `n` available:
   * try the continuation after `n` characters, then after `n - 1`, ... down to 1.
   */
  function Backtrack(s: string, capture: bool, rest: Pattern, n: nat): Option<seq<string>>
    requires n <= |s|
    decreases |rest| + 1, n
  {
    if n == 0 then None
    else match MatchPrefix(s[n..], rest)
      case Some(groups) => Some(if capture then [s[..n]] + groups else groups)
      case None => Backtrack(s, capture, rest, n - 1)
  }

  /** Maximal munch: every repetition takes its longest run and never gives it back. */
  function Munch(s: string, pat: Pattern): Option<seq<string>>
    decreases |pat|
  {
    if pat == [] then Some([])
    else match pat[0]
      case Lit(t) =>
        if t <= s then Munch(s[|t|..], pat[1..]) else None
      case Plus(k, capture) =>
        var n := Run(s, k);
        if n == 0 then None
        else match Munch(s[n..], pat[1..])
          case Some(groups) => Some(if capture then [s[..n]] + groups else groups)
          case None => None
  }

  /** `e` cannot begin with a character of class `k`. */
  predicate Excludes(k: CharClass, e: Elem) {
    match e
    case Lit(t) => |t| > 0 && !InClass(t[0], k)
    case Plus(k2, _) => Disjoint(k, k2)
  }

  /** Every repetition is followed by something that cannot extend it. */
  predicate Separated(pat: Pattern) {
    forall j :: 0 <= j < |pat| - 1 && pat[j].Plus? ==> Excludes(pat[j].cls, pat[j + 1])
  }

  lemma SeparatedTail(pat: Pattern)
    requires pat != [] && Separated(pat)
    ensures Separated(pat[1..])
  {
    forall j | 0 <= j < |pat[1..]| - 1 && pat[1..][j].Plus?
      ensures Excludes(pat[1..][j].cls, pat[1..][j + 1])
    {
      assert pat[1..][j] == pat[j + 1] && pat[1..][j + 1] == pat[j + 2];
    }
  }

  /** When the next element cannot start inside the run, giving characters back never helps. */
  lemma {:induction false} ShorterRunsFail(s: string, k: CharClass, capture: bool, rest: Pattern, n: nat)
    requires n < Run(s, k)
    requires rest != [] && Excludes(k, rest[0])
    ensures Backtrack(s, capture, rest, n) == None
  {
    if n > 0 {
      var t := s[n..];
      assert InClass(t[0], k);
      match rest[0] {
        case Lit(l) =>
          assert !(l <= t);
        case Plus(k2, c2) =>
          DisjointClasses(t[0], k, k2);
          assert Run(t, k2) == 0;
      }
      assert MatchPrefix(t, rest) == None;
      ShorterRunsFail(s, k, capture, rest, n - 1);
    }
  }

  /** On separated patterns the backtracking semantics is maximal munch. */
  lemma {:induction false} GreedyIsBacktracking(s: string, pat: Pattern)
    requires Separated(pat)
    ensures MatchPrefix(s, pat) == Munch(s, pat)
    decreases |pat|
  {
    if pat != [] {
      SeparatedTail(pat);
      match pat[0]
      case Lit(t) =>
        if t <= s {
          GreedyIsBacktracking(s[|t|..], pat[1..]);
        }
      case Plus(k, capture) =>
        var n := Run(s, k);
        if n > 0 {
          GreedyIsBacktracking(s[n..], pat[1..]);
          if MatchPrefix(s[n..], pat[1..]).None? {
            assert pat[1..] != [];
            ShorterRunsFail(s, k, capture, pat[1..], n - 1);
          }
        }
    }
  }

  /** Leftmost-first search from position `from`, as `String.prototype.match` advances `lastIndex`. */
  function SearchFrom(s: string, pat: Pattern, from: nat): (m: Option<Match>)
    requires from <= |s|
    ensures m.Some? ==>
      && from <= m.value.index <= |s|
      && MatchPrefix(s[m.value.index..], pat) == Some(m.value.groups)
    decreases |s| - from
  {
    match MatchPrefix(s[from..], pat)
    case Some(groups) => Some(Match(from, groups))
    case None => if from == |s| then None else SearchFrom(s, pat, from + 1)
  }

  /** The search finds the leftmost position where the pattern matches, and finds nothing only when it matches nowhere. */
  lemma {:induction false} SearchFromLeftmost(s: string, pat: Pattern, from: nat)
    requires from <= |s|
    ensures var m := SearchFrom(s, pat, from);
      forall j :: from <= j <= |s| && (m.None? || j < m.value.index) ==> MatchPrefix(s[j..], pat).None?
    decreases |s| - from
  {
    var here := MatchPrefix(s[from..], pat);
    if here.None? && from < |s| {
      var m := SearchFrom(s, pat, from + 1);
      assert SearchFrom(s, pat, from) == m;
      SearchFromLeftmost(s, pat, from + 1);
      forall j | from <= j <= |s| && (m.None? || j < m.value.index)
        ensures MatchPrefix(s[j..], pat).None?
      {
        if j == from {
          assert MatchPrefix(s[j..], pat) == here;
        }
      }
    }
  }

  /** `s.match(pat)` for a pattern without the global flag. */
  function Search(s: string, pat: Pattern): (m: Option<Match>)
    ensures m.Some? ==> m.value.index <= |s| && MatchPrefix(s[m.value.index..], pat) == Some(m.value.groups)
    ensures forall j :: 0 <= j <= |s| && (m.None? || j < m.value.index) ==> MatchPrefix(s[j..], pat).None?
  {
    SearchFromLeftmost(s, pat, 0);
    SearchFrom(s, pat, 0)
  }

  /** The classes of the capturing repetitions, in order. */
  function GroupClasses(pat: Pattern): seq<CharClass> {
    if pat == [] then []
    else match pat[0]
      case Lit(_) => GroupClasses(pat[1..])
      case Plus(k, capture) => (if capture then [k] else []) + GroupClasses(pat[1..])
  }

  /** `g` is a non-empty run of `k`-characters. */
  predicate IsRunOf(g: string, k: CharClass) {
    |g| > 0 && forall j :: 0 <= j < |g| ==> InClass(g[j], k)
  }

  /** One captured string per group, each a non-empty run of its group's class. */
  predicate GroupsFit(classes: seq<CharClass>, groups: seq<string>) {
    |groups| == |classes| && forall g :: 0 <= g < |groups| ==> IsRunOf(groups[g], classes[g])
  }

  /** Whatever a match captures fits the pattern's groups. */
  lemma {:induction false} MatchGroupsFit(s: string, pat: Pattern)
    requires MatchPrefix(s, pat).Some?
    ensures GroupsFit(GroupClasses(pat), MatchPrefix(s, pat).value)
    decreases |pat|, |s| + 1
  {
    if pat != [] {
      match pat[0]
      case Lit(t) =>
        MatchGroupsFit(s[|t|..], pat[1..]);
      case Plus(k, capture) =>
        BacktrackGroupsFit(s, k, capture, pat[1..], Run(s, k));
    }
  }

  lemma {:induction false} BacktrackGroupsFit(s: string, k: CharClass, capture: bool, rest: Pattern, n: nat)
    requires n <= Run(s, k)
    requires Backtrack(s, capture, rest, n).Some?
    ensures GroupsFit((if capture then [k] else []) + GroupClasses(rest), Backtrack(s, capture, rest, n).value)
    decreases |rest| + 1, n
  {
    match MatchPrefix(s[n..], rest)
    case Some(groups) =>
      MatchGroupsFit(s[n..], rest);
      var r := Backtrack(s, capture, rest, n).value;
      if capture {
        assert r == [s[..n]] + groups;
        forall g | 0 <= g < |r|
          ensures IsRunOf(r[g], ([k] + GroupClasses(rest))[g])
        {
          if g > 0 { assert r[g] == groups[g - 1]; }
        }
      }
    case None =>
      BacktrackGroupsFit(s, k, capture, rest, n - 1);
  }

  /** `t` occurs in `s` at position `p`. */
  predicate OccursAt(t: string, s: string, p: nat) {
    p + |t| <= |s| && s[p..p + |t|] == t
  }

  predicate Occurs(t: string, s: string) {
    exists p :: 0 <= p <= |s| && OccursAt(t, s, p)
  }

  lemma OccursInSuffix(t: string, s: string, i: nat)
    requires i <= |s| && Occurs(t, s[i..])
    ensures Occurs(t, s)
  {
    var p: nat :| p <= |s[i..]| && OccursAt(t, s[i..], p);
    assert s[i..][p..p + |t|] == s[i + p..i + p + |t|];
    assert OccursAt(t, s, i + p);
  }

  /** A literal that some match passed over occurs in the text. */
  lemma {:induction false} MatchedLiteralOccurs(s: string, pat: Pattern, j: nat)
    requires MatchPrefix(s, pat).Some?
    requires j < |pat| && pat[j].Lit?
    ensures Occurs(pat[j].text, s)
    decreases |pat|, |s| + 1
  {
    match pat[0]
    case Lit(t) =>
      if j == 0 {
        assert OccursAt(t, s, 0);
      } else {
        assert pat[1..][j - 1] == pat[j];
        MatchedLiteralOccurs(s[|t|..], pat[1..], j - 1);
        OccursInSuffix(pat[j].text, s, |t|);
      }
    case Plus(k, capture) =>
      assert j > 0;
      BacktrackLiteralOccurs(s, capture, pat[1..], Run(s, k), j - 1);
  }

  lemma {:induction false} BacktrackLiteralOccurs(s: string, capture: bool, rest: Pattern, n: nat, j: nat)
    requires n <= |s|
    requires Backtrack(s, capture, rest, n).Some?
    requires j < |rest| && rest[j].Lit?
    ensures Occurs(rest[j].text, s)
    decreases |rest| + 1, n
  {
    if MatchPrefix(s[n..], rest).Some? {
      MatchedLiteralOccurs(s[n..], rest, j);
      OccursInSuffix(rest[j].text, s, n);
    } else {
      BacktrackLiteralOccurs(s, capture, rest, n - 1, j);
    }
  }

  /** A pattern with a literal cannot be found in a text where that literal does not occur. */
  lemma AbsentLiteralNoMatch(s: string, pat: Pattern, j: nat)
    requires j < |pat| && pat[j].Lit? && !Occurs(pat[j].text, s)
    ensures Search(s, pat).None?
  {
    if Search(s, pat).Some? {
      var m := Search(s, pat).value;
      MatchedLiteralOccurs(s[m.index..], pat, j);
      OccursInSuffix(pat[j].text, s, m.index);
    }
  }

  lemma AbsentCharNotOccurs(t: string, s: string, k: nat)
    requires k < |t| && t[k] !in s
    ensures !Occurs(t, s)
  {
  }
  /** A character of class `k`, standing for a repetition that captures nothing. */
  function Sample(k: CharClass): (c: char)
    ensures InClass(c, k)
  {
    match k
    case Space => ' '
    case Digit => '0'
    case DigitOrDot => '0'
  }

  /**
   * A text that `pat` matches capturing `groups`: each literal as written,
   * each captured repetition as its group, each other repetition as one character.
   */
  function Render(pat: Pattern, groups: seq<string>): string
    requires |groups| == |GroupClasses(pat)|
  {
    if pat == [] then []
    else match pat[0]
      case Lit(t) => t + Render(pat[1..], groups)
      case Plus(k, capture) =>
        if capture then groups[0] + Render(pat[1..], groups[1..])
        else [Sample(k)] + Render(pat[1..], groups)
  }

  /** `s` does not begin with a `k`-character. */
  predicate StartsOutside(s: string, k: CharClass) {
    s == [] || !InClass(s[0], k)
  }

  /** Text after a match cannot extend the pattern's final repetition. */
  predicate FitsAfter(pat: Pattern, rest: string) {
    pat != [] && pat[|pat| - 1].Plus? ==> StartsOutside(rest, pat[|pat| - 1].cls)
  }

  lemma {:induction false} RunConcat(a: string, b: string, k: CharClass)
    requires forall j :: 0 <= j < |a| ==> InClass(a[j], k)
    requires StartsOutside(b, k)
    ensures Run(a + b, k) == |a|
  {
    if a != [] {
      assert (a + b)[1..] == a[1..] + b;
      RunConcat(a[1..], b, k);
    }
  }

  lemma RenderStartsOutside(k: CharClass, pat: Pattern, groups: seq<string>, rest: string)
    requires pat != [] && Excludes(k, pat[0])
    requires GroupsFit(GroupClasses(pat), groups)
    ensures StartsOutside(Render(pat, groups) + rest, k)
  {
    match pat[0]
    case Lit(t) =>
      assert (Render(pat, groups) + rest)[0] == t[0];
    case Plus(k2, capture) =>
      var c := (Render(pat, groups) + rest)[0];
      if capture {
        assert c == groups[0][0] && InClass(c, k2);
      } else {
        assert c == Sample(k2);
      }
      DisjointClasses(c, k, k2);
  }

  /** The first group fits the first class, and the other groups the other classes. */
  lemma GroupsFitDrop(classes: seq<CharClass>, groups: seq<string>)
    requires GroupsFit(classes, groups) && groups != []
    ensures IsRunOf(groups[0], classes[0])
    ensures GroupsFit(classes[1..], groups[1..])
  {
    forall g | 0 <= g < |groups[1..]|
      ensures IsRunOf(groups[1..][g], classes[1..][g])
    {
      assert groups[1..][g] == groups[g + 1] && classes[1..][g] == classes[g + 1];
    }
  }

  /** Dropping a leading repetition from a pattern drops its group, if it has one. */
  lemma GroupsFitTail(pat: Pattern, groups: seq<string>)
    requires pat != [] && pat[0].Plus?
    requires GroupsFit(GroupClasses(pat), groups)
    ensures pat[0].capture ==> groups != [] && GroupsFit([pat[0].cls], [groups[0]])
    ensures GroupsFit(GroupClasses(pat[1..]), if pat[0].capture then groups[1..] else groups)
  {
    var classes, tail := GroupClasses(pat), GroupClasses(pat[1..]);
    if pat[0].capture {
      assert classes == [pat[0].cls] + tail;
      GroupsFitDrop(classes, groups);
      assert classes[1..] == tail;
    } else {
      assert classes == tail;
    }
  }

  /** Matching a rendered text recovers exactly the groups it was rendered from. */
  lemma {:induction false} RenderMunch(pat: Pattern, groups: seq<string>, rest: string)
    requires Separated(pat)
    requires GroupsFit(GroupClasses(pat), groups)
    requires FitsAfter(pat, rest)
    ensures Munch(Render(pat, groups) + rest, pat) == Some(groups)
    decreases |pat|, 1
  {
    if pat != [] {
      SeparatedTail(pat);
      var tail := pat[1..];
      assert tail != [] ==> tail[|tail| - 1] == pat[|pat| - 1];
      match pat[0]
      case Lit(t) =>
        var s := Render(pat, groups) + rest;
        assert s == t + (Render(tail, groups) + rest);
        assert s[|t|..] == Render(tail, groups) + rest;
        RenderMunch(tail, groups, rest);
      case Plus(k, capture) =>
        RenderMunchPlus(pat, groups, rest);
    }
  }

  lemma {:induction false} RenderMunchPlus(pat: Pattern, groups: seq<string>, rest: string)
    requires pat != [] && pat[0].Plus?
    requires Separated(pat)
    requires GroupsFit(GroupClasses(pat), groups)
    requires FitsAfter(pat, rest)
    ensures Munch(Render(pat, groups) + rest, pat) == Some(groups)
    decreases |pat|, 0
  {
    var part, more := RenderPlusSplit(pat, groups, rest);
    var tail := pat[1..];
    assert tail != [] ==> tail[|tail| - 1] == pat[|pat| - 1];
    SeparatedTail(pat);
    RenderMunch(tail, more, rest);
    var s := Render(pat, groups) + rest;
    assert s[|part|..] == Render(tail, more) + rest;
    MunchAfterRun(s, pat, |part|, more);
    assert s[..|part|] == part;
  }

  /** The rendering of a pattern that starts with a repetition: the repetition's text, then the rest. */
  lemma RenderHead(pat: Pattern, groups: seq<string>) returns (part: string, more: seq<string>)
    requires pat != [] && pat[0].Plus?
    requires GroupsFit(GroupClasses(pat), groups)
    ensures GroupsFit(GroupClasses(pat[1..]), more)
    ensures Render(pat, groups) == part + Render(pat[1..], more)
    ensures IsRunOf(part, pat[0].cls)
    ensures groups == if pat[0].capture then [part] + more else more
  {
    GroupsFitTail(pat, groups);
    var k, capture := pat[0].cls, pat[0].capture;
    part := if capture then groups[0] else [Sample(k)];
    more := if capture then groups[1..] else groups;
    if capture {
      assert IsRunOf(part, k) by {
        assert GroupsFit([k], [groups[0]]);
        assert [groups[0]][0] == part;
      }
    }
  }

  /**
   * The rendering of a pattern that starts with a repetition, followed by
   * text that fits after it: the repetition's text is exactly the run the
   * matcher takes.
   */
  lemma RenderPlusSplit(pat: Pattern, groups: seq<string>, rest: string) returns (part: string, more: seq<string>)
    requires pat != [] && pat[0].Plus?
    requires Separated(pat)
    requires GroupsFit(GroupClasses(pat), groups)
    requires FitsAfter(pat, rest)
    ensures GroupsFit(GroupClasses(pat[1..]), more)
    ensures Render(pat, groups) + rest == part + (Render(pat[1..], more) + rest)
    ensures 0 < |part| && Run(Render(pat, groups) + rest, pat[0].cls) == |part|
    ensures groups == if pat[0].capture then [part] + more else more
  {
    part, more := RenderHead(pat, groups);
    var k, tail := pat[0].cls, pat[1..];
    var after := Render(tail, more) + rest;
    if tail != [] {
      assert Excludes(k, tail[0]) by { assert pat[1] == tail[0]; }
      RenderStartsOutside(k, tail, more, rest);
    } else {
      assert after == rest;
    }
    RunConcat(part, after, k);
    Seqs.AppendAssoc(part, Render(tail, more), rest);
  }


  /** A repetition that takes a run of `n` characters, followed by a match of the rest of the pattern. */
  lemma MunchAfterRun(s: string, pat: Pattern, n: nat, more: seq<string>)
    requires pat != [] && pat[0].Plus?
    requires 0 < n <= |s| && Run(s, pat[0].cls) == n
    requires Munch(s[n..], pat[1..]) == Some(more)
    ensures Munch(s, pat) == Some(if pat[0].capture then [s[..n]] + more else more)
  {
  }

  /** In a text that begins with a rendering of a separated pattern, the leftmost match is at 0 with the rendered groups. */
  lemma SearchRendered(pat: Pattern, groups: seq<string>, rest: string)
    requires Separated(pat)
    requires GroupsFit(GroupClasses(pat), groups)
    requires FitsAfter(pat, rest)
    ensures Search(Render(pat, groups) + rest, pat) == Some(Match(0, groups))
  {
    var s := Render(pat, groups) + rest;
    RenderMunch(pat, groups, rest);
    GreedyIsBacktracking(s, pat);
    assert s[0..] == s;
  }
}
