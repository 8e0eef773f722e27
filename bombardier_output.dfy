/**
 * The bombardier report parser: fourteen regular expressions, each pulling
 * one field out of the tool's text. A field whose pattern does not match is 0;
 * there is no rejection path and no field is derived from another.
 *
 * Count fields (bytes, status classes, total requests) are captured by `\d+`
 * and read as natural numbers. Decimal fields (time taken, latencies,
 * requests per second) are captured by `[\d.]+`; the model keeps the captured
 * text, because `parseFloat` is floating point.
 */
module BombardierOutput {
  import opened Wrappers
  import Numerals
  import opened Regex

  /** A decimal field: 0 when its pattern did not match, else the captured digits and dots. */
  datatype Decimal = Zero | Text(digits: string)

  /** The record `parseBombardierOutput` returns. */
  datatype Stats = Stats(
    bytesRead: nat,
    bytesWritten: nat,
    timeTakenSeconds: Decimal,
    req1xx: nat,
    req2xx: nat,
    req3xx: nat,
    req4xx: nat,
    req5xx: nat,
    latencyMean: Decimal,
    latencyP50: Decimal,
    latencyP95: Decimal,
    latencyP99: Decimal,
    rps: Decimal,
    reqs: nat)

  datatype Field =
    | BytesRead | BytesWritten | TimeTakenSeconds
    | Req1xx | Req2xx | Req3xx | Req4xx | Req5xx
    | LatencyMean | LatencyP50 | LatencyP95 | LatencyP99
    | Rps | Reqs

  /** The value of one field, of either kind. */
  datatype Value = Count(n: nat) | Reading(d: Decimal)

  /** Fields captured by `\d+`. */
  predicate IsCount(f: Field) {
    match f
    case BytesRead | BytesWritten | Req1xx | Req2xx | Req3xx | Req4xx | Req5xx | Reqs => true
    case _ => false
  }

  function GroupClass(f: Field): CharClass {
    if IsCount(f) then Digit else DigitOrDot
  }

  /** `<anchor>\s+(\d+)`. */
  function CountAfter(anchor: string): (p: Pattern)
    ensures Separated(p) && GroupClasses(p) == [Digit]
  {
    var p := [Lit(anchor), Plus(Space, false), Plus(Digit, true)];
    assert p[2..][1..] == [] && GroupClasses(p[2..]) == [Digit];
    assert p[1..][1..] == p[2..];
    p
  }

  /** `<anchor>(\d+)`, the status-class counts. */
  function StatusCount(anchor: string): (p: Pattern)
    ensures Separated(p) && GroupClasses(p) == [Digit]
  {
    var p := [Lit(anchor), Plus(Digit, true)];
    assert p[1..][1..] == [] && GroupClasses(p[1..]) == [Digit];
    p
  }

  /** `<anchor>\s+([\d.]+)<suffix>`. */
  function DecimalAfter(anchor: string, suffix: Pattern): (p: Pattern)
    requires Separated(suffix) && GroupClasses(suffix) == []
    requires suffix != [] ==> Excludes(DigitOrDot, suffix[0])
    ensures Separated(p) && GroupClasses(p) == [DigitOrDot]
  {
    var p := [Lit(anchor), Plus(Space, false), Plus(DigitOrDot, true)] + suffix;
    assert p[3..] == suffix;
    assert GroupClasses(p[2..]) == [DigitOrDot] + GroupClasses(suffix);
    p
  }

  /** ` seconds` after the time taken. */
  const Seconds: Pattern := [Plus(Space, false), Lit("seconds")]

  /** What follows the captured reading of a decimal field. */
  function SuffixOf(f: Field): (p: Pattern)
    ensures Separated(p) && GroupClasses(p) == []
    ensures p != [] ==> Excludes(DigitOrDot, p[0])
  {
    if f == TimeTakenSeconds then
      assert Separated(Seconds) by {
        assert !IsSpace('s');
      }
      assert Seconds[1..][1..] == [];
      Seconds
    else if f == Rps then []
    else [Lit("ms")]
  }

  /** The literal text of each field's pattern. */
  function Anchor(f: Field): (t: string)
    ensures |t| > 0
  {
    match f
    case BytesRead => "Bytes read:"
    case BytesWritten => "Bytes written:"
    case TimeTakenSeconds => "Time taken for tests:"
    case Req1xx => "1xx - "
    case Req2xx => "2xx - "
    case Req3xx => "3xx - "
    case Req4xx => "4xx - "
    case Req5xx => "5xx - "
    case LatencyMean => "mean:"
    case LatencyP50 => "50%:"
    case LatencyP95 => "95%:"
    case LatencyP99 => "99%:"
    case Rps => "Reqs/sec:"
    case Reqs => "requests in"
  }

  /** The status classes: their literal is followed by the digits directly. */
  predicate IsStatusClass(f: Field) {
    f == Req1xx || f == Req2xx || f == Req3xx || f == Req4xx || f == Req5xx
  }

  /**
   * The regular expression of each field, as written in the parser: the total
   * is the digits before "requests in", a status class the digits right after
   * its label, any other count the digits after its label and blanks, and a
   * reading the digits and dots after its label and blanks, then its suffix.
   */
  function PatternOf(f: Field): (p: Pattern)
    ensures Separated(p)
    ensures GroupClasses(p) == [GroupClass(f)]
  {
    if f == Reqs then
      var p := [Plus(Digit, true), Plus(Space, false), Lit(Anchor(Reqs))];
      assert Separated(p) by {
        assert !IsSpace('r');
      }
      assert p[1..][1..][1..] == [];
      p
    else if IsStatusClass(f) then StatusCount(Anchor(f))
    else if IsCount(f) then CountAfter(Anchor(f))
    else DecimalAfter(Anchor(f), SuffixOf(f))
  }

  /** Position of the literal in the field's pattern; any match must contain it. */
  function AnchorIndex(f: Field): (j: nat)
    ensures j < |PatternOf(f)| && PatternOf(f)[j] == Lit(Anchor(f))
  {
    if f == Reqs then 2 else 0
  }

  /** A pattern matches only where its literal occurs. */
  lemma AnchorOccurs(text: string, f: Field)
    ensures Search(text, PatternOf(f)).Some? ==> Occurs(Anchor(f), text)
  {
    if !Occurs(Anchor(f), text) {
      AbsentLiteralNoMatch(text, PatternOf(f), AnchorIndex(f));
    }
  }

  /** `text.match(pattern)?.[1]`: the text of the group at the leftmost match. */
  function FirstGroup(text: string, f: Field): (g: Option<string>)
    ensures g.Some? ==> IsRunOf(g.value, GroupClass(f))
    ensures g.Some? ==> Occurs(Anchor(f), text)
  {
    AnchorOccurs(text, f);
    match Search(text, PatternOf(f))
    case None => None
    case Some(m) =>
      MatchGroupsFit(text[m.index..], PatternOf(f));
      Some(m.groups[0])
  }

  /** What a field is when its pattern does not match. */
  function ZeroOf(f: Field): Value {
    if IsCount(f) then Count(0) else Reading(Zero)
  }

  /** `extractNumber` on a count field: the captured digits' value, or 0. */
  function ExtractCount(text: string, f: Field): (n: nat)
    requires IsCount(f)
    ensures n > 0 ==> Occurs(Anchor(f), text)
  {
    match FirstGroup(text, f)
    case None => 0
    case Some(g) => Numerals.DigitsValue(g)
  }

  /** `extractNumber` on a decimal field, before `parseFloat`: the captured text, or 0. */
  function ExtractDecimal(text: string, f: Field): (d: Decimal)
    requires !IsCount(f)
    ensures d.Text? ==> Occurs(Anchor(f), text) && IsRunOf(d.digits, DigitOrDot)
  {
    match FirstGroup(text, f)
    case None => Zero
    case Some(g) => Text(g)
  }

  /** `extractNumber` on either kind of field. */
  function ExtractNumber(text: string, f: Field): (v: Value)
    ensures v.Count? <==> IsCount(f)
    ensures v != ZeroOf(f) ==> Occurs(Anchor(f), text)
  {
    if IsCount(f) then Count(ExtractCount(text, f)) else Reading(ExtractDecimal(text, f))
  }

  /** The field `f` of a record. */
  function ValueOf(st: Stats, f: Field): Value {
    match f
    case BytesRead => Count(st.bytesRead)
    case BytesWritten => Count(st.bytesWritten)
    case TimeTakenSeconds => Reading(st.timeTakenSeconds)
    case Req1xx => Count(st.req1xx)
    case Req2xx => Count(st.req2xx)
    case Req3xx => Count(st.req3xx)
    case Req4xx => Count(st.req4xx)
    case Req5xx => Count(st.req5xx)
    case LatencyMean => Reading(st.latencyMean)
    case LatencyP50 => Reading(st.latencyP50)
    case LatencyP95 => Reading(st.latencyP95)
    case LatencyP99 => Reading(st.latencyP99)
    case Rps => Reading(st.rps)
    case Reqs => Count(st.reqs)
  }

  /** `parseBombardierOutput`. */
  function ParseBombardierOutput(output: string): Stats {
    Stats(
      bytesRead := ExtractCount(output, BytesRead),
      bytesWritten := ExtractCount(output, BytesWritten),
      timeTakenSeconds := ExtractDecimal(output, TimeTakenSeconds),
      req1xx := ExtractCount(output, Req1xx),
      req2xx := ExtractCount(output, Req2xx),
      req3xx := ExtractCount(output, Req3xx),
      req4xx := ExtractCount(output, Req4xx),
      req5xx := ExtractCount(output, Req5xx),
      latencyMean := ExtractDecimal(output, LatencyMean),
      latencyP50 := ExtractDecimal(output, LatencyP50),
      latencyP95 := ExtractDecimal(output, LatencyP95),
      latencyP99 := ExtractDecimal(output, LatencyP99),
      rps := ExtractDecimal(output, Rps),
      reqs := ExtractCount(output, Reqs))
  }

  /** Every field is extracted by its own pattern, and by nothing else. */
  lemma FieldIsOwnExtraction(output: string, f: Field)
    ensures ValueOf(ParseBombardierOutput(output), f) == ExtractNumber(output, f)
  {
    match f
    case BytesRead =>
    case BytesWritten =>
    case TimeTakenSeconds =>
    case Req1xx =>
    case Req2xx =>
    case Req3xx =>
    case Req4xx =>
    case Req5xx =>
    case LatencyMean =>
    case LatencyP50 =>
    case LatencyP95 =>
    case LatencyP99 =>
    case Rps =>
    case Reqs =>
  }

  /** A field of the parsed record is non-zero only when its label occurs in the output. */
  lemma NonZeroFieldsOccur(output: string)
    ensures forall f :: ValueOf(ParseBombardierOutput(output), f) != ZeroOf(f) ==> Occurs(Anchor(f), output)
  {
    forall f ensures ValueOf(ParseBombardierOutput(output), f) != ZeroOf(f) ==> Occurs(Anchor(f), output) {
      FieldIsOwnExtraction(output, f);
    }
  }

  /** The record of a text in which no pattern matches. */
  const AllZero := Stats(0, 0, Zero, 0, 0, 0, 0, 0, Zero, Zero, Zero, Zero, Zero, 0)

  /** A pattern whose literal does not occur in the text captures nothing. */
  lemma MissingAnchorNoGroup(output: string, f: Field)
    requires !Occurs(Anchor(f), output)
    ensures FirstGroup(output, f) == None
  {
    AbsentLiteralNoMatch(output, PatternOf(f), AnchorIndex(f));
  }

  /** A field whose anchor text does not occur is 0, whatever else the text holds. */
  lemma MissingFieldIsZero(output: string, f: Field)
    requires !Occurs(Anchor(f), output)
    ensures ValueOf(ParseBombardierOutput(output), f) == ZeroOf(f)
  {
    MissingAnchorNoGroup(output, f);
    FieldIsOwnExtraction(output, f);
  }

  /**
   * Text holding none of the anchors is not rejected: it yields the all-zero
   * record. The empty output is one such text.
   */
  lemma UnrecognizedOutputIsAllZero(output: string)
    requires forall f :: !Occurs(Anchor(f), output)
    ensures ParseBombardierOutput(output) == AllZero
  {
    MissingAnchorNoGroup(output, BytesRead);
    MissingAnchorNoGroup(output, BytesWritten);
    MissingAnchorNoGroup(output, TimeTakenSeconds);
    MissingAnchorNoGroup(output, Req1xx);
    MissingAnchorNoGroup(output, Req2xx);
    MissingAnchorNoGroup(output, Req3xx);
    MissingAnchorNoGroup(output, Req4xx);
    MissingAnchorNoGroup(output, Req5xx);
    MissingAnchorNoGroup(output, LatencyMean);
    MissingAnchorNoGroup(output, LatencyP50);
    MissingAnchorNoGroup(output, LatencyP95);
    MissingAnchorNoGroup(output, LatencyP99);
    MissingAnchorNoGroup(output, Rps);
    MissingAnchorNoGroup(output, Reqs);
  }

  /** The report line of field `f` showing `g`: the pattern written out with one blank. */
  function Line(f: Field, g: string): string {
    Render(PatternOf(f), [g])
  }

  /**
   * A report holding the line of `f` yields that line's value for `f`, whatever
   * follows, provided no match of the field's pattern starts in the text
   * before the line (the leftmost match wins).
   */
  lemma FieldRoundTrip(pre: string, f: Field, g: string, rest: string)
    requires IsRunOf(g, GroupClass(f))
    requires FitsAfter(PatternOf(f), rest)
    requires forall j :: 0 <= j < |pre| ==> MatchPrefix((pre + Line(f, g) + rest)[j..], PatternOf(f)).None?
    ensures ValueOf(ParseBombardierOutput(pre + Line(f, g) + rest), f) ==
      if IsCount(f) then Count(Numerals.DigitsValue(g)) else Reading(Text(g))
  {
    var s := pre + Line(f, g) + rest;
    assert s[|pre|..] == Line(f, g) + rest;
    LineMatches(f, g, rest);
    FieldAtLeftmost(s, f, |pre|, g);
  }

  /** The field's value is read from the group its pattern captures. */
  lemma GroupValue(output: string, f: Field, g: string)
    requires IsRunOf(g, GroupClass(f)) && FirstGroup(output, f) == Some(g)
    ensures ValueOf(ParseBombardierOutput(output), f) ==
      if IsCount(f) then Count(Numerals.DigitsValue(g)) else Reading(Text(g))
  {
    FieldIsOwnExtraction(output, f);
  }

  /**
   * A field whose pattern matches nowhere in the text is 0, even where its
   * label occurs (a label followed by something else, say).
   */
  lemma NoMatchIsZero(text: string, f: Field)
    requires forall j :: 0 <= j <= |text| ==> MatchPrefix(text[j..], PatternOf(f)).None?
    ensures ValueOf(ParseBombardierOutput(text), f) == ZeroOf(f)
  {
    NoMatchNoGroup(text, f);
    FieldIsOwnExtraction(text, f);
  }

  lemma NoMatchNoGroup(text: string, f: Field)
    requires forall j :: 0 <= j <= |text| ==> MatchPrefix(text[j..], PatternOf(f)).None?
    ensures FirstGroup(text, f) == None
  {
    assert Search(text, PatternOf(f)).None?;
  }

  /**
   * The field's value is that of the group captured at the leftmost position
   * where its pattern matches, however the line is laid out.
   */
  lemma FieldAtLeftmost(text: string, f: Field, p: nat, g: string)
    requires p <= |text| && IsRunOf(g, GroupClass(f))
    requires MatchPrefix(text[p..], PatternOf(f)) == Some([g])
    requires forall j :: 0 <= j < p ==> MatchPrefix(text[j..], PatternOf(f)).None?
    ensures ValueOf(ParseBombardierOutput(text), f) ==
      if IsCount(f) then Count(Numerals.DigitsValue(g)) else Reading(Text(g))
  {
    assert FirstGroup(text, f) == Some(g) by {
      var m := Search(text, PatternOf(f));
      assert m.Some?;
      assert m.value.index == p;
    }
    GroupValue(text, f, g);
  }

  /**
   * A byte count whose label is followed by any run of blanks, as `\s+`
   * allows (several spaces, a tab), still reads the digits after them.
   */
  lemma PaddedCountLine(f: Field, pad: string, g: string, rest: string)
    requires f == BytesRead || f == BytesWritten
    requires IsRunOf(pad, Space) && IsRunOf(g, Digit) && StartsOutside(rest, Digit)
    ensures ValueOf(ParseBombardierOutput(Anchor(f) + pad + g + rest), f) == Count(Numerals.DigitsValue(g))
  {
    var text := Anchor(f) + pad + g + rest;
    PaddedCountMatches(f, pad, g, rest);
    assert text[0..] == text;
    FieldAtLeftmost(text, f, 0, g);
  }

  lemma PaddedCountMatches(f: Field, pad: string, g: string, rest: string)
    requires f == BytesRead || f == BytesWritten
    requires IsRunOf(pad, Space) && IsRunOf(g, Digit) && StartsOutside(rest, Digit)
    ensures MatchPrefix(Anchor(f) + pad + g + rest, PatternOf(f)) == Some([g])
  {
    var a := Anchor(f);
    var pat := [Lit(a), Plus(Space, false), Plus(Digit, true)];
    assert PatternOf(f) == pat;
    PaddedMunch(a, pad, g, rest);
    GreedyIsBacktracking(a + pad + g + rest, pat);
  }

  /** Maximal munch of `<a>\s+(\d+)` over the label, blanks and digits. */
  lemma PaddedMunch(a: string, pad: string, g: string, rest: string)
    requires IsRunOf(pad, Space) && IsRunOf(g, Digit) && StartsOutside(rest, Digit)
    ensures Munch(a + pad + g + rest, [Lit(a), Plus(Space, false), Plus(Digit, true)]) == Some([g])
  {
    var pat := [Lit(a), Plus(Space, false), Plus(Digit, true)];
    var text := a + pad + g + rest;
    assert a <= text && text[|a|..] == pad + (g + rest);
    assert !InClass(g[0], Space);
    RunConcat(pad, g + rest, Space);
    assert (pad + (g + rest))[|pad|..] == g + rest;
    RunConcat(g, rest, Digit);
    assert (g + rest)[..|g|] == g && (g + rest)[|g|..] == rest;
    assert pat[1..] == [Plus(Space, false), Plus(Digit, true)] && pat[1..][1..] == [Plus(Digit, true)];
    assert Munch(g + rest, pat[1..][1..]) == Some([g]) by {
      var last := [Plus(Digit, true)];
      assert pat[1..][1..] == last && last[1..] == [];
      assert Run(g + rest, Digit) == |g|;
      assert Munch(rest, last[1..]) == Some([]);
      assert [(g + rest)[..|g|]] + [] == [g];
    }
    assert Munch(pad + (g + rest), pat[1..]) == Some([g]);
  }

  /** A field's line, followed by text that cannot extend it, matches the field's pattern with its reading as the group. */
  lemma LineMatches(f: Field, g: string, rest: string)
    requires IsRunOf(g, GroupClass(f))
    requires FitsAfter(PatternOf(f), rest)
    ensures MatchPrefix(Line(f, g) + rest, PatternOf(f)) == Some([g])
  {
    var pat := PatternOf(f);
    assert GroupsFit(GroupClasses(pat), [g]);
    RenderMunch(pat, [g], rest);
    GreedyIsBacktracking(Line(f, g) + rest, pat);
  }

  /** A count written in decimal on its line reads back as the same natural number. */
  lemma CountRoundTrip(pre: string, f: Field, n: nat, rest: string)
    requires IsCount(f)
    requires FitsAfter(PatternOf(f), rest)
    requires forall j :: 0 <= j < |pre| ==>
      MatchPrefix((pre + Line(f, Numerals.NatToDigits(n)) + rest)[j..], PatternOf(f)).None?
    ensures ValueOf(ParseBombardierOutput(pre + Line(f, Numerals.NatToDigits(n)) + rest), f) == Count(n)
  {
    FieldRoundTrip(pre, f, Numerals.NatToDigits(n), rest);
    Numerals.DigitsRoundTrip(n);
  }

  /** A field is 0 when some character of its anchor is missing from the text. */
  lemma MissingCharIsZero(output: string, f: Field, k: nat)
    requires k < |Anchor(f)| && Anchor(f)[k] !in output
    ensures ValueOf(ParseBombardierOutput(output), f) == ZeroOf(f)
  {
    AbsentCharNotOccurs(Anchor(f), output, k);
    MissingFieldIsZero(output, f);
  }

  lemma NoCharInRun(c: char, g: string, k: CharClass)
    requires IsRunOf(g, k) && !InClass(c, k)
    ensures c !in g
  {
  }

  /** The total's line: the digits, one blank, "requests in"; it has no 'x'. */
  lemma TotalLine(digits: string)
    requires IsRunOf(digits, Digit)
    ensures 'x' !in Line(Reqs, digits)
  {
    var pat := PatternOf(Reqs);
    var none: seq<string> := [];
    assert Render(pat[2..], none) == "requests in" by {
      assert pat[2..][1..] == [];
      assert Render(pat[2..][1..], none) == [];
    }
    assert Render(pat[1..], none) == " requests in" by { assert pat[1..][1..] == pat[2..]; }
    assert [digits][1..] == none;
    assert Line(Reqs, digits) == digits + " requests in";
    assert 'x' !in " requests in";
    NoCharInRun('x', digits, Digit);
  }

  lemma StatusClassesZero(output: string)
    requires 'x' !in output
    ensures forall f :: IsStatusClass(f) ==> ValueOf(ParseBombardierOutput(output), f) == Count(0)
  {
    forall f | IsStatusClass(f) ensures ValueOf(ParseBombardierOutput(output), f) == Count(0) {
      MissingCharIsZero(output, f, 1);
    }
  }

  /** The total is read from its own line, not summed from the status classes. */
  lemma TotalIsNotDerived(n: nat)
    ensures var st := ParseBombardierOutput(Line(Reqs, Numerals.NatToDigits(n)));
      && ValueOf(st, Reqs) == Count(n)
      && forall f :: IsStatusClass(f) ==> ValueOf(st, f) == Count(0)
  {
    var text := Line(Reqs, Numerals.NatToDigits(n));
    TotalLine(Numerals.NatToDigits(n));
    StatusClassesZero(text);
    assert "" + text + "" == text;
    CountRoundTrip("", Reqs, n, "");
  }

  /** The mean's line: "mean:", one blank, the reading, "ms". */
  lemma MeanLineText(mean: string)
    requires IsRunOf(mean, DigitOrDot)
    ensures Line(LatencyMean, mean) == "mean:" + ([' '] + (mean + "ms"))
  {
    var pat: Pattern := [Lit("mean:"), Plus(Space, false), Plus(DigitOrDot, true), Lit("ms")];
    var none: seq<string> := [];
    assert Render(pat[3..], none) == "ms" by {
      assert pat[3..][1..] == [];
      assert Render(pat[3..][1..], none) == [];
    }
    assert [mean][1..] == none;
    assert Render(pat[2..], [mean]) == mean + "ms" by { assert pat[2..][1..] == pat[3..]; }
    assert Render(pat[1..], [mean]) == [' '] + (mean + "ms") by { assert pat[1..][1..] == pat[2..]; }
    assert PatternOf(LatencyMean) == pat;
  }

  /** The mean's line has no '%'. */
  lemma MeanLine(mean: string)
    requires IsRunOf(mean, DigitOrDot)
    ensures '%' !in Line(LatencyMean, mean)
  {
    MeanLineText(mean);
    assert "mean:" + ([' '] + (mean + "ms")) == "mean: " + mean + "ms";
    assert '%' !in "mean: " && '%' !in "ms";
    NoCharInRun('%', mean, DigitOrDot);
  }

  predicate IsPercentile(f: Field) {
    f == LatencyP50 || f == LatencyP95 || f == LatencyP99
  }

  lemma PercentilesZero(output: string)
    requires '%' !in output
    ensures forall f :: IsPercentile(f) ==> ValueOf(ParseBombardierOutput(output), f) == Reading(Zero)
  {
    forall f | IsPercentile(f) ensures ValueOf(ParseBombardierOutput(output), f) == Reading(Zero) {
      MissingCharIsZero(output, f, 2);
    }
  }

  /** Percentiles the report does not print stay 0; none is synthesized from the mean. */
  lemma PercentilesNotSynthesized(mean: string)
    requires IsRunOf(mean, DigitOrDot)
    ensures var st := ParseBombardierOutput(Line(LatencyMean, mean));
      && ValueOf(st, LatencyMean) == Reading(Text(mean))
      && forall f :: IsPercentile(f) ==> ValueOf(st, f) == Reading(Zero)
  {
    var text := Line(LatencyMean, mean);
    MeanLine(mean);
    PercentilesZero(text);
    assert "" + text + "" == text;
    FieldRoundTrip("", LatencyMean, mean, "");
  }
}
