# API performance benchmark: a Dafny model

This project models the driver that compares the two HTTP servers (the legacy
Express one and the modern Hono one). It also models the unit selection of the
package-size report.

The driver runs the external load generator `bombardier` once for every
combination of server endpoint and request scenario: endpoints in the outer
loop, scenarios in the inner one. It waits two seconds before every
measurement except the first. For each measurement it:

- builds a shell command line from a fixed connection count (100), a fixed
  duration (`30s`), the scenario's method, an optional JSON body and the URL;
- runs that command;
- extracts fourteen numbers from bombardier's text report with one regular
  expression each;
- pushes a row tagged with the endpoint and scenario names.

When every measurement has succeeded, it writes a JSON report holding a
timestamp, the duration, the connection count and all rows. A failing command
is rethrown, and that ends the run before the report is written.

The project is split into these modules:

- `Numerals`: decimal digit strings and the numbers they denote.
- `Regex`: the fragment of ECMAScript regular expressions the parser uses.
  - It covers literals, `\s+`, `\d+`, `[\d.]+` and capture groups.
  - Matching follows the standard's backtracking semantics.
  - A maximal-munch matcher is proved to agree with backtracking on the parser's patterns.
  - Search is leftmost-first, like `String.prototype.match` with a non-global pattern.
- `BombardierOutput`: `extractNumber` and `parseBombardierOutput`.
  - Count fields are natural numbers.
  - Decimal fields keep the captured text.
- `Shell`: how `/bin/sh` splits the command line into bombardier's arguments, for the characters the command uses.
- `BombardierCommand`: the body flag and the command string, and the argument vector the shell makes of them.
- `ApiPerformance`: the matrix loop of `main`.
  - One run is a class, `BenchmarkRun`, whose `results` field is the pushed rows.
  - Its `trace` field records, in order, every pause, every command run and every file written.
  - Running a command is a parameter, `exec: string -> Exit`, that gives either the output or `Failed`.
  - The clock reading is a parameter, `timestamp`.
  - `Matrix` is generic over the endpoint and scenario lists and over the parser.
  - `Run` applies `Matrix` to the configured lists and to `ParseBombardierOutput`.
- `Size`: the loop of `formatSize` over exact reals.
- `Wrappers` and `Seqs`: Option and small sequence facts.

Some behaviours of the code are worth stating outright, because a reader
might expect otherwise:

- **Unrecognised text is not rejected.** The parser has no failure path: a text in which no label occurs parses to a record of zeros (`UnrecognizedOutputIsAllZero`).
- **A failing measurement aborts the run.** The error is rethrown and ends `main`: no report is written and no later cell runs (`AbortedRun`, `AbortedRunStops`).
- **The total is read, never derived.** The total request count comes from its own line; it is not checked against, or computed from, the status-class counts (`TotalIsNotDerived`).
- **Percentiles are never synthesised.** A report without percentile lines leaves them 0, whatever the mean is (`PercentilesNotSynthesized`).
- **There is a single report grammar.** Each field has exactly one pattern (`PatternOf`).
- **The command is a shell string.** It is handed to `/bin/sh`, which splits it into bombardier's arguments; `CommandWords` states when that split gives the intended arguments.

## Model

| member | source | states |
|---|---|---|
| Numerals.NatToDigits | benchmark/api-performance.ts:49 | the decimal digits of a natural number, non-empty and without a leading zero: what `${n}` renders for an integer below 2^53, such as the connection count 100 |
| Numerals.DigitsRoundTrip | benchmark/api-performance.ts:84 | reading the digits of a rendered number back gives the number |
| Regex.GreedyIsBacktracking | benchmark/api-performance.ts:83 | on patterns where each repetition is followed by something it cannot consume, backtracking matching and maximal munch give the same result |
| Regex.SearchFrom | benchmark/api-performance.ts:83 | a match found from a position lies at or after it, and the pattern matches the text from the reported index with the reported groups |
| Regex.SearchFromLeftmost | benchmark/api-performance.ts:83 | no position between the start and the match index matches; when nothing is found, no position from the start matches |
| Regex.Search | benchmark/api-performance.ts:83 | `text.match` with a non-global pattern: a reported match holds at its index with its groups, no earlier position matches, and no match is reported only when no position matches |
| Regex.MatchGroupsFit | benchmark/api-performance.ts:83-84 | each captured group is a non-empty run of its repetition's class |
| Regex.AbsentLiteralNoMatch | benchmark/api-performance.ts:83 | a pattern whose literal text does not occur in the input has no match |
| Regex.RenderMunch | benchmark/api-performance.ts:83 | a pattern written out with given groups and followed by a fitting rest is matched back into exactly those groups |
| Regex.SearchRendered | benchmark/api-performance.ts:83 | the search on such a text matches at index 0 with exactly the written groups |
| BombardierOutput.PatternOf | benchmark/api-performance.ts:63-76 | each field's regular expression has one capture group, of the field's class, and every repetition is followed by text it cannot consume |
| BombardierOutput.FirstGroup | benchmark/api-performance.ts:82-84 | the text `match(...)[1]` gives is a run of digits, or of digits and dots for decimal fields, and is found only where the field's label occurs |
| BombardierOutput.ExtractCount | benchmark/api-performance.ts:82-85 | `extractNumber` on a count field: non-zero only when the field's label occurs in the text |
| BombardierOutput.ExtractDecimal | benchmark/api-performance.ts:82-85 | `extractNumber` on a decimal field: a captured reading is a run of digits and dots, found only where the label occurs |
| BombardierOutput.ExtractNumber | benchmark/api-performance.ts:82-85 | the value is a count exactly for the `\d+` fields, and differs from 0 only when the field's label occurs |
| BombardierOutput.NonZeroFieldsOccur | benchmark/api-performance.ts:60-80 | every field of the record `parseBombardierOutput` returns is 0 unless its label occurs in the output |
| BombardierOutput.MissingAnchorNoGroup | benchmark/api-performance.ts:82-85 | a field whose label does not occur captures nothing |
| BombardierOutput.MissingFieldIsZero | benchmark/api-performance.ts:84 | a field whose label does not occur is 0, whatever else the text holds |
| BombardierOutput.MissingCharIsZero | benchmark/api-performance.ts:84 | a field one of whose label characters is absent from the text is 0 |
| BombardierOutput.NoMatchIsZero | benchmark/api-performance.ts:82-85 | a field whose pattern matches at no position is 0, even where its label occurs (a label followed by something other than the expected digits or unit) |
| BombardierOutput.FieldAtLeftmost | benchmark/api-performance.ts:82-85 | the field is the value of the group captured at the leftmost position where its pattern matches, whatever the line's layout |
| BombardierOutput.PaddedCountLine | benchmark/api-performance.ts:63-85 | a byte count's label followed by any run of `\s` characters (several blanks, a tab) and digits reads those digits |
| BombardierOutput.UnrecognizedOutputIsAllZero | benchmark/api-performance.ts:60-85 | text holding no label, the empty output among them, is not rejected; every field is 0 |
| BombardierOutput.FieldRoundTrip | benchmark/api-performance.ts:60-85 | a report holding a field's line, anywhere after text in which the field's pattern does not start a match, yields that line's value for the field, whatever follows |
| BombardierOutput.CountRoundTrip | benchmark/api-performance.ts:63-76 | a count written in decimal on its line, in such a report, reads back as the same number |
| BombardierOutput.StatusClassesZero | benchmark/api-performance.ts:66-70 | a text without 'x' has all five status-class counts 0 |
| BombardierOutput.TotalIsNotDerived | benchmark/api-performance.ts:66-76 | a text with only the total line reads the total while every status class stays 0 |
| BombardierOutput.PercentilesZero | benchmark/api-performance.ts:72-74 | a text without '%' has all three percentiles 0 |
| BombardierOutput.PercentilesNotSynthesized | benchmark/api-performance.ts:71-74 | a text with only a mean line reads the mean and leaves the percentiles 0 |
| Shell.ScanPlainWord | benchmark/api-performance.ts:49 | an unquoted plain word followed by a blank becomes one argument |
| Shell.ScanQuotedWord | benchmark/api-performance.ts:48 | a single-quoted text without a quote, followed by a blank, becomes one argument without its quotes |
| Shell.WordsLast | benchmark/api-performance.ts:49 | a plain word at the end of the line is the last argument |
| BombardierCommand.BodyFlagShape | benchmark/api-performance.ts:48 | the body flags are empty exactly when the body is absent or empty, and otherwise start with the single-quoted body |
| BombardierCommand.ConnectionsText | benchmark/api-performance.ts:22-49 | the connection count in the command is `${CONNECTIONS}` rendered in decimal |
| BombardierCommand.CommandLayout | benchmark/api-performance.ts:47-49 | every command opens with "bombardier -c 100 -d 30s -m ", the method and a blank, and closes with a blank and the URL |
| BombardierCommand.FixedWords | benchmark/api-performance.ts:49 | the fixed start of the command splits into bombardier, -c, 100, -d, 30s, -m |
| BombardierCommand.BodyFlagWords | benchmark/api-performance.ts:48 | the body flags split into -b, the body, -H and the header |
| BombardierCommand.NoBodyWords | benchmark/api-performance.ts:48 | without a body, the empty flag and its blank add no argument |
| BombardierCommand.MethodAndFlagWords | benchmark/api-performance.ts:48-49 | the method and the body flags split into the method followed by the body arguments |
| BombardierCommand.CommandWords | benchmark/api-performance.ts:47-52 | when the URL and method need no quoting and the body has no single quote, the shell gives bombardier exactly the fixed flags, the method, the body arguments and the URL |
| ApiPerformance.StartIsProduct | benchmark/api-performance.ts:90-91 | endpoint i's first cell comes after i times the number of scenarios |
| ApiPerformance.CellsLength | benchmark/api-performance.ts:90-91 | there is one cell per endpoint and scenario |
| ApiPerformance.CellAt | benchmark/api-performance.ts:90-91 | the cell after i full endpoints and j scenarios pairs endpoint i with scenario j |
| ApiPerformance.CellsFrom | benchmark/api-performance.ts:90-91 | every cell pairs a listed endpoint with a listed scenario |
| ApiPerformance.FailureFrom | benchmark/api-performance.ts:54-57 | the first failing cell from a position: every earlier cell succeeds, and the cell found fails, or none is left |
| ApiPerformance.RowsAt | benchmark/api-performance.ts:105-109 | row k holds cell k's endpoint name, scenario name and parsed statistics |
| ApiPerformance.EventsInterleave | benchmark/api-performance.ts:94-103 | attempting n cells gives 2n-1 events: the commands of cells 0..n-1 at even positions, a 2000 ms pause at every odd one |
| ApiPerformance.EventsNoReport | benchmark/api-performance.ts:90-111 | measuring writes no file |
| ApiPerformance.EventsWaits | benchmark/api-performance.ts:95-97 | the pauses sit exactly at the odd positions, so none comes before the first command |
| ApiPerformance.EventsCommands | benchmark/api-performance.ts:99-103 | every command run belongs to one of the cells attempted |
| ApiPerformance.FailedStep | benchmark/api-performance.ts:54-57 | a failing command at the next cell makes that cell the first failure and ends the run with its command as the last event |
| ApiPerformance.OkStep | benchmark/api-performance.ts:105-109 | a successful command at the next cell extends the rows by that cell's row and the trace by its pause and command |
| ApiPerformance.CellStep | benchmark/api-performance.ts:91-110 | one iteration of the inner loop for endpoint i and scenario j |
| ApiPerformance.FinishStep | benchmark/api-performance.ts:113-123 | after the last cell no cell has failed, and the report holding every row is the event that follows |
| ApiPerformance.BenchmarkRun.constructor | benchmark/api-performance.ts:88 | a run starts with no results and an empty trace |
| ApiPerformance.BenchmarkRun.Matrix | benchmark/api-performance.ts:87-123 | the run completes exactly when no command fails; the results are the rows of the cells before the first failure; the trace grows by the pauses, commands and, on completion only, the report |
| ApiPerformance.BenchmarkRun.MeasureAll | benchmark/api-performance.ts:90-111 | the two loops either measure every cell or stop at the first failure with that cell's command as the last event |
| ApiPerformance.BenchmarkRun.MeasureEndpoint | benchmark/api-performance.ts:91-110 | the inner loop measures every scenario of endpoint i or stops at the first failure |
| ApiPerformance.BenchmarkRun.Measure | benchmark/api-performance.ts:92-109 | one cell: pause unless it is the first cell, run the command, then push its row or abort without pushing |
| ApiPerformance.BenchmarkRun.WriteReport | benchmark/api-performance.ts:113-123 | the report with the timestamp, "30s", 100 and every row is written after the last command |
| ApiPerformance.BenchmarkRun.Run | benchmark/api-performance.ts:87-123 | `main` over the two configured endpoints and three scenarios, parsing with the bombardier parser |
| ApiPerformance.CompleteRun | benchmark/api-performance.ts:113-123 | a complete run has two events per cell; its last event writes the report with every row; no earlier event writes a file; pauses alternate with commands |
| ApiPerformance.AbortedRun | benchmark/api-performance.ts:54-57 | an aborted run ends with the failing cell's command after 2n earlier events and writes no report |
| ApiPerformance.AbortedRunStops | benchmark/api-performance.ts:54-57 | after a failure no later cell's command runs |
| ApiPerformance.ConfiguredMatrix | benchmark/api-performance.ts:23-45 | the configured matrix is six cells: each endpoint under the three scenarios in turn |
| ApiPerformance.EndpointUrlPlain | benchmark/api-performance.ts:23-26 | the configured URLs need no shell quoting |
| ApiPerformance.ConfiguredWordsPlain | benchmark/api-performance.ts:23-45 | the configured URLs, paths and methods need no quoting, and the POST body has no single quote |
| ApiPerformance.CellCommandsSplit | benchmark/api-performance.ts:47-52 | for every configured cell, bombardier receives the intended arguments |
| Size.UnitFor | benchmark/size.js:42-45 | the unit chosen is the largest one the size holds at least one of, or bytes below one kilobyte |
| Size.UnitIsDetermined | benchmark/size.js:42-45 | only one unit meets those conditions |
| Size.UnitForMonotone | benchmark/size.js:42-45 | a larger size never gets a smaller unit |
| Size.SelectUnit | benchmark/size.js:38-45 | the loop ends with the unit `UnitFor` chooses and a number that, times the unit, is the byte count |
| Size.FormatSize | benchmark/size.js:37-48 | the text is the scaled number, a blank and the unit label; below 1024 it is the bytes with "B" |

## Left out

- Running a command (`execSync`, benchmark/api-performance.ts:52): it is the parameter `exec`. Its output is taken as given, and any failure is one `Failed` value.
- The check that bombardier is installed, and `process.exit` (benchmark/api-performance.ts:139-146): this is process control outside the matrix.
- The start-up delay and the asynchronous call of `main` (benchmark/api-performance.ts:149-151): there is no clock. The two-second pause is a `Wait` event in the trace, not a wait.
- Console output (benchmark/api-performance.ts:55, 92, 125-135): no output is modelled. This includes the summary table, with its rounding, `toFixed` and success-rate division.
- The report file (benchmark/api-performance.ts:120-123): writing it is a `WriteFile` event carrying the report value. JSON serialisation and write errors are not modelled.
- The clock (benchmark/api-performance.ts:114): the ISO timestamp is the parameter `timestamp`.
- ApiPerformance.BenchmarkRun.Run: it does not model the rethrown error reaching `main().catch`. A failure is the `completed == false` outcome.
- BombardierOutput.ExtractDecimal: it keeps the captured text rather than a number, because `parseFloat` is floating point. A capture made only of dots, which `parseFloat` reads as NaN, is therefore kept as text.
- Numerals.NatToDigits: it gives the exact digits of every natural number. A JavaScript number renders in exponent form from 1e21 and rounds above 2^53. The command only renders the connection count 100, where the two agree.
- BombardierOutput.ExtractCount: it reads digits exactly. `parseFloat` loses precision above 2^53.
- Size.FormatSize: `toFixed(2)` is the parameter `toFixed`. Sizes are exact reals rather than doubles.
- The package size computation and the report of size.js (benchmark/size.js:4-34, 50): they read the file system.
- Shell.Words: characters outside letters, digits and `-_./:,+@` are outside the model. The function answers None for a line that holds one unquoted.
- BombardierCommand.CommandWords: it requires a body without a single quote. A body holding one would end the quotes early.
- benchmark/api.js, and the legacy and modern servers, are not part of this model.
