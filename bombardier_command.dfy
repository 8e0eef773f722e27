/**
 * The bombardier command line a benchmark cell runs: fixed connection count
 * and duration, the request method, an optional JSON body, and the target URL,
 * and the argument vector `/bin/sh` hands to bombardier for it.
 */
module BombardierCommand {
  import opened Wrappers
  import Numerals
  import Shell
  import Seqs

  const Connections: nat := 100
  /** `Connections` written in decimal, as a template literal renders it (see `ConnectionsText`). */
  const ConnectionsArg: string := "100"
  const Duration: string := "30s"
  const JsonHeader: string := "Content-Type: application/json"

  /** JavaScript truthiness of an optional body: both `undefined` and "" are false. */
  predicate HasBody(body: Option<string>) {
    body.Some? && body.value != ""
  }

  /** The body and content-type flags. */
  function BodyFlag(body: Option<string>): string {
    if HasBody(body) then "-b '" + body.value + "' -H '" + JsonHeader + "'" else ""
  }

  /** The flags are absent exactly when there is no body to send, and otherwise start with the quoted body. */
  lemma BodyFlagShape(body: Option<string>)
    ensures BodyFlag(body) == "" <==> !HasBody(body)
    ensures HasBody(body) ==> |BodyFlag(body)| > 4 && BodyFlag(body)[..4] == "-b '" && body.value <= BodyFlag(body)[4..]
  {
  }

  /** The command string. */
  function Command(url: string, httpMethod: string, body: Option<string>): string {
    "bombardier -c " + ConnectionsArg + " -d " + Duration
      + " -m " + httpMethod + " " + BodyFlag(body) + " " + url
  }

  /** The connection count in the command is its decimal numeral. */
  lemma ConnectionsText()
    ensures Numerals.NatToDigits(Connections) == ConnectionsArg
  {
    assert Numerals.NatToDigits(10) == "10" by {
      assert Numerals.NatToDigits(1) == "1";
    }
  }

  /** The fixed flags, written out. */
  lemma PrefixText()
    ensures "bombardier -c " + ConnectionsArg + " -d " + Duration + " -m " == "bombardier -c 100 -d 30s -m "
  {
  }

  /** The command opens with the fixed flags and the method, and closes with a blank and the URL. */
  lemma CommandLayout(url: string, httpMethod: string, body: Option<string>)
    ensures var c := Command(url, httpMethod, body);
      && "bombardier -c 100 -d 30s -m " + httpMethod + " " <= c
      && |c| > |url| && c[|c| - |url| - 1..] == " " + url
  {
    var c := Command(url, httpMethod, body);
    var head := "bombardier -c 100 -d 30s -m " + httpMethod + " ";
    var tail := BodyFlag(body) + " " + url;
    PrefixText();
    assert c == head + tail;
    assert c == (head + BodyFlag(body)) + (" " + url);
  }

  /** The arguments before the method, as bombardier receives them. */
  const Fixed: seq<string> := ["bombardier", "-c", "100", "-d", "30s", "-m"]

  /** The arguments bombardier receives. */
  function Argv(url: string, httpMethod: string, body: Option<string>): seq<string> {
    Fixed + [httpMethod] + BodyArgs(body) + [url]
  }

  function BodyArgs(body: Option<string>): seq<string> {
    if HasBody(body) then ["-b", body.value] + ["-H", JsonHeader] else []
  }

  lemma FixedPlain()
    ensures forall i :: 0 <= i < |Fixed| ==> Shell.IsPlainWord(Fixed[i])
  {
    assert Shell.IsPlainWord("bombardier");
    assert Shell.IsPlainWord("-c") && Shell.IsPlainWord("100");
    assert Shell.IsPlainWord("-d") && Shell.IsPlainWord("30s");
    assert Shell.IsPlainWord("-m");
  }

  /** The fixed start of the command, written as its words each followed by a blank. */
  lemma PrefixNested()
    ensures "bombardier -c " + ConnectionsArg + " -d " + Duration + " -m "
         == Fixed[0] + " " + (Fixed[1] + " " + (Fixed[2] + " " + (Fixed[3] + " " + (Fixed[4] + " " + (Fixed[5] + " " + "")))))
  {
  }

  /** The fixed start of the command splits into the fixed words. */
  lemma FixedWords()
    ensures Shell.Scan(Shell.Between([]), "bombardier -c " + ConnectionsArg + " -d " + Duration + " -m ") == Shell.Between(Fixed)
  {
    PrefixNested();
    FixedPlain();
    var f := Fixed;
    var w1 := [f[0]];
    var w2 := w1 + [f[1]];
    var w3 := w2 + [f[2]];
    var w4 := w3 + [f[3]];
    var w5 := w4 + [f[4]];
    Shell.ScanPlainThen([], f[0], f[1] + " " + (f[2] + " " + (f[3] + " " + (f[4] + " " + (f[5] + " " + "")))));
    assert [] + [f[0]] == w1;
    Shell.ScanPlainThen(w1, f[1], f[2] + " " + (f[3] + " " + (f[4] + " " + (f[5] + " " + ""))));
    Shell.ScanPlainThen(w2, f[2], f[3] + " " + (f[4] + " " + (f[5] + " " + "")));
    Shell.ScanPlainThen(w3, f[3], f[4] + " " + (f[5] + " " + ""));
    Shell.ScanPlainThen(w4, f[4], f[5] + " " + "");
    Shell.ScanPlainThen(w5, f[5], "");
    assert w5 + [f[5]] == Fixed;
  }

  /** The content-type header needs no escaping inside single quotes. */
  lemma HeaderUnquoted()
    ensures '\'' !in JsonHeader
  {
  }

  /** A plain flag, a blank, a single-quoted value and a blank add the flag and the value. */
  lemma FlagWords(ws: seq<string>, flag: string, value: string)
    requires Shell.IsPlainWord(flag) && '\'' !in value
    ensures Shell.Scan(Shell.Between(ws), flag + " " + ("'" + value + "'" + " ")) == Shell.Between(ws + [flag, value])
  {
    Shell.ScanAppend(Shell.Between(ws), flag + " ", "'" + value + "'" + " ");
    Shell.ScanPlainWord(ws, flag);
    Shell.ScanQuotedWord(ws + [flag], value);
    assert ws + [flag] + [value] == ws + [flag, value];
  }

  /** The body flag and the blank after it add the four body arguments. */
  lemma BodyFlagWords(ws: seq<string>, body: Option<string>)
    requires HasBody(body) && '\'' !in body.value
    ensures Shell.Scan(Shell.Between(ws), BodyFlag(body) + " ") == Shell.Between(ws + BodyArgs(body))
  {
    var b := body.value;
    var first := "-b" + " " + ("'" + b + "'" + " ");
    var second := "-H" + " " + ("'" + JsonHeader + "'" + " ");
    assert BodyFlag(body) + " " == first + second;
    assert Shell.IsPlainWord("-b") && Shell.IsPlainWord("-H");
    HeaderUnquoted();
    Shell.ScanAppend(Shell.Between(ws), first, second);
    FlagWords(ws, "-b", b);
    FlagWords(ws + ["-b", b], "-H", JsonHeader);
    Seqs.AppendAssoc(ws, ["-b", b], ["-H", JsonHeader]);
  }

  /** Without a body, the blank after the empty body flag adds nothing. */
  lemma NoBodyWords(ws: seq<string>, body: Option<string>)
    requires !HasBody(body)
    ensures Shell.Scan(Shell.Between(ws), BodyFlag(body) + " ") == Shell.Between(ws + BodyArgs(body))
  {
    assert BodyFlag(body) + " " == " ";
    Shell.ScanBlank(ws);
    assert ws + BodyArgs(body) == ws;
  }

  /** The method, the body flag and the blanks after them add the method and the body arguments. */
  lemma MethodAndFlagWords(ws: seq<string>, httpMethod: string, body: Option<string>)
    requires Shell.IsPlainWord(httpMethod)
    requires body.Some? ==> '\'' !in body.value
    ensures Shell.Scan(Shell.Between(ws), httpMethod + " " + BodyFlag(body) + " ")
         == Shell.Between(ws + [httpMethod] + BodyArgs(body))
  {
    var flag := BodyFlag(body);
    Seqs.AppendAssoc(httpMethod + " ", flag, " ");
    Shell.ScanAppend(Shell.Between(ws), httpMethod + " ", flag + " ");
    Shell.ScanPlainWord(ws, httpMethod);
    if HasBody(body) {
      BodyFlagWords(ws + [httpMethod], body);
    } else {
      NoBodyWords(ws + [httpMethod], body);
    }
  }

  /** A line that splits into `ws0`, followed by the method and the body flag. */
  lemma AfterPrefixWords(prefix: string, ws0: seq<string>, httpMethod: string, body: Option<string>)
    requires Shell.Scan(Shell.Between([]), prefix) == Shell.Between(ws0)
    requires Shell.IsPlainWord(httpMethod)
    requires body.Some? ==> '\'' !in body.value
    ensures Shell.Scan(Shell.Between([]), prefix + httpMethod + " " + BodyFlag(body) + " ")
         == Shell.Between(ws0 + [httpMethod] + BodyArgs(body))
  {
    var rest := httpMethod + " " + BodyFlag(body) + " ";
    assert prefix + httpMethod + " " + BodyFlag(body) + " " == prefix + rest;
    Shell.ScanAppend(Shell.Between([]), prefix, rest);
    MethodAndFlagWords(ws0, httpMethod, body);
  }

  /**
   * The shell splits the command into the intended arguments whenever the URL and
   * the method need no quoting and the body holds no single quote.
   */
  lemma CommandWords(url: string, httpMethod: string, body: Option<string>)
    requires Shell.IsPlainWord(url) && Shell.IsPlainWord(httpMethod)
    requires body.Some? ==> '\'' !in body.value
    ensures Shell.Words(Command(url, httpMethod, body)) == Some(Argv(url, httpMethod, body))
  {
    var prefix := "bombardier -c " + ConnectionsArg + " -d " + Duration + " -m ";
    var head := prefix + httpMethod + " " + BodyFlag(body) + " ";
    assert Command(url, httpMethod, body) == head + url;
    FixedWords();
    AfterPrefixWords(prefix, Fixed, httpMethod, body);
    Shell.WordsLast(Fixed + [httpMethod] + BodyArgs(body), head, url);
  }
}
