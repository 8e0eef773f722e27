/**
 * The API performance benchmark driver: every endpoint is measured under every
 * scenario, in order, with a pause between measurements; the first failing
 * measurement aborts the run, and only a complete run writes the JSON report.
 *
 * The outside world is a parameter: `exec` says what running a shell command
 * gives (its standard output, or a failure), and `timestamp` is the clock
 * reading the report records. What the driver does to the world is returned
 * as a sequence of events.
 */
module ApiPerformance {
  import opened Wrappers
  import opened BombardierOutput
  import opened BombardierCommand
  import Shell
  import Seqs

  datatype Endpoint = Endpoint(name: string, url: string)

  datatype Scenario = Scenario(name: string, httpMethod: string, path: string, body: Option<string>)

  const Endpoints: seq<Endpoint> := [
    Endpoint("Legacy Express", "http://localhost:3000"),
    Endpoint("Modern Hono", "http://localhost:3001")
  ]

  /** The POST body is the JSON serialisation of an item named "Test Item". */
  const Scenarios: seq<Scenario> := [
    Scenario("GET /", "GET", "/", None),
    Scenario("GET /api/items", "GET", "/api/items", None),
    Scenario("POST /api/items", "POST", "/api/items", Some("{\"name\":\"Test Item\"}"))
  ]

  /** Milliseconds between two measurements. */
  const PauseMs: nat := 2000
  const ReportPath: string := "benchmark/results/api-performance.json"

  /** One measured cell: endpoint name, scenario name, and the parsed statistics. */
  datatype Row = Row(endpoint: string, scenario: string, stats: Stats)

  datatype Report = Report(timestamp: string, duration: string, connections: nat, results: seq<Row>)

  /** What the driver does to the outside world. */
  datatype Event = Wait(ms: nat) | Exec(command: string) | WriteFile(path: string, report: Report)

  /** What running a command gives: its standard output, or a failure (non-zero exit, no binary). */
  datatype Exit = Ok(output: string) | Failed

  type Cell = (Endpoint, Scenario)

  /** The number of cells before endpoint `i`: one per scenario for each earlier endpoint. */
  function Start(ss: seq<Scenario>, i: nat): nat {
    if i == 0 then 0 else Start(ss, i - 1) + |ss|
  }

  lemma {:induction false} StartIsProduct(ss: seq<Scenario>, i: nat)
    ensures Start(ss, i) == i * |ss|
  {
    if i > 0 {
      StartIsProduct(ss, i - 1);
    }
  }

  /** One endpoint with every scenario, in order. */
  function Pairs(e: Endpoint, ss: seq<Scenario>): (ps: seq<Cell>)
    ensures |ps| == |ss|
  {
    if ss == [] then [] else [(e, ss[0])] + Pairs(e, ss[1..])
  }

  lemma {:induction false} PairsAt(e: Endpoint, ss: seq<Scenario>, j: nat)
    requires j < |ss|
    ensures Pairs(e, ss)[j] == (e, ss[j])
  {
    if j > 0 {
      PairsAt(e, ss[1..], j - 1);
    }
  }

  /** Every endpoint with every scenario, endpoints in the outer position. */
  function Cells(es: seq<Endpoint>, ss: seq<Scenario>): seq<Cell>
    decreases |es|
  {
    if es == [] then [] else Pairs(es[0], ss) + Cells(es[1..], ss)
  }

  /** There is one cell per endpoint and scenario: `Start(ss, |es|)`, which is `|es| * |ss|`. */
  lemma {:induction false} CellsLength(es: seq<Endpoint>, ss: seq<Scenario>)
    ensures |Cells(es, ss)| == Start(ss, |es|)
    decreases |es|
  {
    if es != [] {
      CellsLength(es[1..], ss);
    }
  }

  /** Cell `Start(ss, i) + j` pairs endpoint `i` with scenario `j`. */
  lemma {:induction false} CellAt(es: seq<Endpoint>, ss: seq<Scenario>, i: nat, j: nat)
    requires i < |es| && j < |ss|
    ensures Start(ss, i) + j < |Cells(es, ss)|
    ensures Cells(es, ss)[Start(ss, i) + j] == (es[i], ss[j])
    decreases i
  {
    var cs := Cells(es, ss);
    var rest := Cells(es[1..], ss);
    assert cs == Pairs(es[0], ss) + rest;
    if i > 0 {
      CellAt(es[1..], ss, i - 1, j);
      assert es[1..][i - 1] == es[i];
      assert Start(ss, i) + j == |Pairs(es[0], ss)| + (Start(ss, i - 1) + j);
      Seqs.AppendAt(Pairs(es[0], ss), rest, Start(ss, i - 1) + j);
    } else {
      PairsAt(es[0], ss, j);
    }
  }

  /** Every cell pairs a listed endpoint with a listed scenario. */
  lemma {:induction false} CellsFrom(es: seq<Endpoint>, ss: seq<Scenario>, k: nat)
    requires k < |Cells(es, ss)|
    ensures Cells(es, ss)[k].0 in es && Cells(es, ss)[k].1 in ss
    decreases |es|
  {
    var rest := Cells(es[1..], ss);
    if k >= |ss| {
      CellsFrom(es[1..], ss, k - |ss|);
      Seqs.AppendAt(Pairs(es[0], ss), rest, k - |ss|);
    } else {
      PairsAt(es[0], ss, k);
    }
  }

  /** The measured URL of a cell. */
  function CellUrl(c: Cell): string {
    c.0.url + c.1.path
  }

  function CellCommand(c: Cell): string {
    Command(CellUrl(c), c.1.httpMethod, c.1.body)
  }

  /**
   * Running bombardier and parsing its report with `parse`: None when the
   * command fails, the parsed statistics otherwise. The command line it runs
   * is pinned down by `BombardierCommand.CommandWords`.
   */
  function RunBombardier(url: string, httpMethod: string, body: Option<string>, exec: string -> Exit,
                         parse: string -> Stats): Option<Stats>
  {
    match exec(Command(url, httpMethod, body))
    case Ok(output) => Some(parse(output))
    case Failed => None
  }

  /** The first cell, at or after `k`, whose command fails; |cs| when there is none. */
  function FailureFrom(cs: seq<Cell>, exec: string -> Exit, k: nat): (r: nat)
    requires k <= |cs|
    ensures k <= r <= |cs|
    ensures forall m :: k <= m < r ==> exec(CellCommand(cs[m])).Ok?
    ensures r < |cs| ==> exec(CellCommand(cs[r])).Failed?
    decreases |cs| - k
  {
    if k == |cs| then k
    else if exec(CellCommand(cs[k])).Failed? then k
    else FailureFrom(cs, exec, k + 1)
  }

  function FirstFailure(cs: seq<Cell>, exec: string -> Exit): nat
    ensures FirstFailure(cs, exec) <= |cs|
  {
    FailureFrom(cs, exec, 0)
  }

  /** The first cells whose commands all succeed. */
  predicate AllOk(cs: seq<Cell>, exec: string -> Exit, n: nat)
    requires n <= |cs|
  {
    forall m :: 0 <= m < n ==> exec(CellCommand(cs[m])).Ok?
  }

  /** The first failure is the failing cell that every earlier cell succeeds before. */
  lemma FirstFailureIs(cs: seq<Cell>, exec: string -> Exit, n: nat)
    requires n <= |cs| && AllOk(cs, exec, n)
    requires n < |cs| ==> exec(CellCommand(cs[n])).Failed?
    ensures FirstFailure(cs, exec) == n
  {
    var r := FailureFrom(cs, exec, 0);
    if r < n {
      assert false;
    } else if r > n {
      assert false;
    }
  }

  function RowOf(c: Cell, exec: string -> Exit, parse: string -> Stats): Row
    requires exec(CellCommand(c)).Ok?
  {
    Row(c.0.name, c.1.name, parse(exec(CellCommand(c)).output))
  }

  /** The rows of the first `n` cells, in order. */
  function Rows(cs: seq<Cell>, exec: string -> Exit, parse: string -> Stats, n: nat): (rows: seq<Row>)
    requires n <= |cs| && AllOk(cs, exec, n)
    ensures |rows| == n
  {
    if n == 0 then [] else Rows(cs, exec, parse, n - 1) + [RowOf(cs[n - 1], exec, parse)]
  }

  /** Row `k` is the measurement of cell `k`. */
  lemma {:induction false} RowsAt(cs: seq<Cell>, exec: string -> Exit, parse: string -> Stats, n: nat, k: nat)
    requires n <= |cs| && AllOk(cs, exec, n) && k < n
    ensures Rows(cs, exec, parse, n)[k] == RowOf(cs[k], exec, parse)
  {
    var prev := Rows(cs, exec, parse, n - 1);
    assert Rows(cs, exec, parse, n) == prev + [RowOf(cs[n - 1], exec, parse)];
    if k < n - 1 {
      RowsAt(cs, exec, parse, n - 1, k);
      assert Rows(cs, exec, parse, n)[k] == prev[k];
    }
  }

  /** The events of attempting the first `n` cells: a pause before every cell but the first, then its command. */
  function Events(cs: seq<Cell>, n: nat): seq<Event>
    requires n <= |cs|
  {
    if n == 0 then []
    else Events(cs, n - 1) + (if n - 1 > 0 then [Wait(PauseMs)] else []) + [Exec(CellCommand(cs[n - 1]))]
  }

  /** Commands and pauses alternate, starting and ending with a command, the commands in cell order. */
  lemma {:induction false} EventsInterleave(cs: seq<Cell>, n: nat)
    requires n <= |cs|
    ensures |Events(cs, n)| == if n == 0 then 0 else 2 * n - 1
    ensures forall i :: 0 <= i < |Events(cs, n)| ==>
              Events(cs, n)[i] == if i % 2 == 0 then Exec(CellCommand(cs[i / 2])) else Wait(PauseMs)
  {
    if n > 0 {
      EventsInterleave(cs, n - 1);
      var prev := Events(cs, n - 1);
      var e := Events(cs, n);
      forall i | 0 <= i < |e|
        ensures e[i] == if i % 2 == 0 then Exec(CellCommand(cs[i / 2])) else Wait(PauseMs)
      {
        if i < |prev| {
          assert e[i] == prev[i];
        } else if i == 2 * n - 2 {
          assert e[i] == Exec(CellCommand(cs[n - 1]));
          assert i % 2 == 0 && i / 2 == n - 1;
        } else {
          assert i == 2 * n - 3;
          assert e[i] == Wait(PauseMs);
          assert i % 2 == 1;
        }
      }
    }
  }

  /** Attempting cells writes no file. */
  lemma {:induction false} EventsNoReport(cs: seq<Cell>, n: nat)
    requires n <= |cs|
    ensures forall e :: e in Events(cs, n) ==> !e.WriteFile?
  {
    if n > 0 {
      EventsNoReport(cs, n - 1);
    }
  }

  /** Pauses sit exactly at the odd positions. */
  lemma EventsWaits(cs: seq<Cell>, n: nat)
    requires n <= |cs|
    ensures forall i :: 0 <= i < |Events(cs, n)| ==> (Events(cs, n)[i].Wait? <==> i % 2 == 1)
  {
    EventsInterleave(cs, n);
  }

  /** Every command attempted belongs to one of the first `n` cells. */
  lemma EventsCommands(cs: seq<Cell>, n: nat)
    requires n <= |cs|
    ensures forall i :: 0 <= i < |Events(cs, n)| && Events(cs, n)[i].Exec? ==>
              exists m :: 0 <= m < n && Events(cs, n)[i].command == CellCommand(cs[m])
  {
    EventsInterleave(cs, n);
    var e := Events(cs, n);
    forall i | 0 <= i < |e| && e[i].Exec?
      ensures exists m :: 0 <= m < n && e[i].command == CellCommand(cs[m])
    {
      assert e[i].command == CellCommand(cs[i / 2]);
    }
  }

  /** The effects of `main` on the matrix of `es` and `ss` when bombardier is installed. */
  function MatrixEvents(es: seq<Endpoint>, ss: seq<Scenario>, exec: string -> Exit, parse: string -> Stats, timestamp: string): seq<Event> {
    var cs := Cells(es, ss);
    var n := FirstFailure(cs, exec);
    if n == |cs| then
      Events(cs, n) + [WriteFile(ReportPath, Report(timestamp, Duration, Connections, Rows(cs, exec, parse, n)))]
    else
      Events(cs, n + 1)
  }

  /** After the last cell: no cell failed, and the report with every row is the last event. */
  lemma FinishStep(es: seq<Endpoint>, ss: seq<Scenario>, exec: string -> Exit, parse: string -> Stats,
                   timestamp: string, results: seq<Row>)
    requires |results| == |Cells(es, ss)|
    requires AllOk(Cells(es, ss), exec, |results|)
    requires results == Rows(Cells(es, ss), exec, parse, |results|)
    ensures FirstFailure(Cells(es, ss), exec) == |Cells(es, ss)|
    ensures MatrixEvents(es, ss, exec, parse, timestamp)
         == Events(Cells(es, ss), |results|) + [WriteFile(ReportPath, Report(timestamp, Duration, Connections, results))]
  {
    FirstFailureIs(Cells(es, ss), exec, |results|);
  }

  /**
   * The state after the first `|results|` cells of the matrix have been
   * measured, all of them successfully, with `before` the trace at the start.
   */
  ghost predicate Measured(es: seq<Endpoint>, ss: seq<Scenario>, exec: string -> Exit, parse: string -> Stats,
                           before: seq<Event>, results: seq<Row>, trace: seq<Event>)
  {
    var cs := Cells(es, ss);
    && |results| <= |cs|
    && AllOk(cs, exec, |results|)
    && results == Rows(cs, exec, parse, |results|)
    && trace == before + Events(cs, |results|)
  }

  /** The state once the run has stopped at its first failing cell. */
  ghost predicate Aborted(es: seq<Endpoint>, ss: seq<Scenario>, exec: string -> Exit, parse: string -> Stats,
                          timestamp: string, before: seq<Event>, results: seq<Row>, trace: seq<Event>)
  {
    var cs := Cells(es, ss);
    && FirstFailure(cs, exec) == |results| < |cs|
    && results == Rows(cs, exec, parse, |results|)
    && trace == before + MatrixEvents(es, ss, exec, parse, timestamp)
  }

  /** The trace after attempting cell `k`: the earlier attempts, the pause unless `k` is the first, and its command. */
  function Attempted(cs: seq<Cell>, k: nat, trace: seq<Event>): seq<Event>
    requires k < |cs|
  {
    trace + (if k > 0 then [Wait(PauseMs)] else []) + [Exec(CellCommand(cs[k]))]
  }

  /** A failing command at the next cell aborts the run with that command as the last event. */
  lemma FailedStep(es: seq<Endpoint>, ss: seq<Scenario>, exec: string -> Exit, parse: string -> Stats,
                   timestamp: string, before: seq<Event>, results: seq<Row>, trace: seq<Event>)
    requires Measured(es, ss, exec, parse, before, results, trace)
    requires |results| < |Cells(es, ss)| && exec(CellCommand(Cells(es, ss)[|results|])).Failed?
    ensures Aborted(es, ss, exec, parse, timestamp, before, results, Attempted(Cells(es, ss), |results|, trace))
  {
    var cs := Cells(es, ss);
    var k := |results|;
    FirstFailureIs(cs, exec, k);
    var pause: seq<Event> := if k > 0 then [Wait(PauseMs)] else [];
    assert Events(cs, k + 1) == Events(cs, k) + pause + [Exec(CellCommand(cs[k]))];
    Seqs.AppendAssoc4(before, Events(cs, k), pause, [Exec(CellCommand(cs[k]))]);
  }

  /** A successful command at the next cell adds its row. */
  lemma OkStep(es: seq<Endpoint>, ss: seq<Scenario>, exec: string -> Exit, parse: string -> Stats,
               before: seq<Event>, results: seq<Row>, trace: seq<Event>)
    requires Measured(es, ss, exec, parse, before, results, trace)
    requires |results| < |Cells(es, ss)| && exec(CellCommand(Cells(es, ss)[|results|])).Ok?
    ensures Measured(es, ss, exec, parse, before, results + [RowOf(Cells(es, ss)[|results|], exec, parse)],
                     Attempted(Cells(es, ss), |results|, trace))
  {
    var cs := Cells(es, ss);
    var k := |results|;
    assert AllOk(cs, exec, k + 1) by {
      forall m | 0 <= m < k + 1 ensures exec(CellCommand(cs[m])).Ok? {
        if m < k {
          assert AllOk(cs, exec, k);
        }
      }
    }
    assert Rows(cs, exec, parse, k + 1) == Rows(cs, exec, parse, k) + [RowOf(cs[k], exec, parse)];
    var pause: seq<Event> := if k > 0 then [Wait(PauseMs)] else [];
    assert Events(cs, k + 1) == Events(cs, k) + pause + [Exec(CellCommand(cs[k]))];
    Seqs.AppendAssoc4(before, Events(cs, k), pause, [Exec(CellCommand(cs[k]))]);
  }

  /**
   * One measurement of the matrix loop, from the state after `Start(ss, i) + j`
   * cells: the pause (unless it is the first cell) and the command extend the
   * trace; a failing command aborts the run, a successful one adds its row.
   */
  lemma CellStep(es: seq<Endpoint>, ss: seq<Scenario>, exec: string -> Exit, parse: string -> Stats,
                 timestamp: string, i: nat, j: nat, before: seq<Event>, results: seq<Row>, trace: seq<Event>)
    requires i < |es| && j < |ss| && |results| == Start(ss, i) + j
    requires Measured(es, ss, exec, parse, before, results, trace)
    ensures var cmd := Command(es[i].url + ss[j].path, ss[j].httpMethod, ss[j].body);
      var next := trace + (if |results| > 0 then [Wait(PauseMs)] else []) + [Exec(cmd)];
      && (exec(cmd).Failed? ==> Aborted(es, ss, exec, parse, timestamp, before, results, next))
      && (exec(cmd).Ok? ==>
            Measured(es, ss, exec, parse, before, results + [Row(es[i].name, ss[j].name, parse(exec(cmd).output))], next))
  {
    CellAt(es, ss, i, j);
    var cs := Cells(es, ss);
    var k := |results|;
    assert cs[k] == (es[i], ss[j]);
    if exec(CellCommand(cs[k])).Failed? {
      FailedStep(es, ss, exec, parse, timestamp, before, results, trace);
    } else {
      OkStep(es, ss, exec, parse, before, results, trace);
    }
  }

  /**
   * One run of `main`. The result list it pushes to is a field, and so is the
   * trace of what it has done to the outside world.
   */
  class BenchmarkRun {
    /** The measured rows, in the order they were pushed. */
    var results: seq<Row>
    /** Every pause, command and file write so far, oldest first. */
    var trace: seq<Event>

    constructor ()
      ensures results == [] && trace == []
    {
      results := [];
      trace := [];
    }

    /**
     * The benchmark matrix, endpoints outside and scenarios inside. A failing
     * measurement ends the run at once, without a report; `completed` says
     * whether the run got through every cell.
     */
    method Matrix(es: seq<Endpoint>, ss: seq<Scenario>, exec: string -> Exit, parse: string -> Stats, timestamp: string)
      returns (completed: bool)
      modifies this
      ensures completed <==> FirstFailure(Cells(es, ss), exec) == |Cells(es, ss)|
      ensures results == Rows(Cells(es, ss), exec, parse, FirstFailure(Cells(es, ss), exec))
      ensures trace == old(trace) + MatrixEvents(es, ss, exec, parse, timestamp)
    {
      ghost var before := trace;
      completed := MeasureAll(es, ss, exec, parse, timestamp);
      if completed {
        WriteReport(es, ss, exec, parse, timestamp, before);
      }
    }

    /** The nested loops: every endpoint under every scenario, until the first failure. */
    method MeasureAll(es: seq<Endpoint>, ss: seq<Scenario>, exec: string -> Exit, parse: string -> Stats, timestamp: string)
      returns (ok: bool)
      modifies this
      ensures ok ==> |results| == |Cells(es, ss)| && Measured(es, ss, exec, parse, old(trace), results, trace)
      ensures !ok ==> Aborted(es, ss, exec, parse, timestamp, old(trace), results, trace)
    {
      ghost var before := trace;
      results := [];
      assert trace == before + [];
      var i := 0;
      while i < |es|
        invariant i <= |es| && |results| == Start(ss, i)
        invariant Measured(es, ss, exec, parse, before, results, trace)
      {
        ok := MeasureEndpoint(es, ss, exec, parse, timestamp, i, before);
        if !ok {
          return;
        }
        i := i + 1;
      }
      CellsLength(es, ss);
      ok := true;
    }

    /** After the last cell: the report, with every row, is written. */
    method WriteReport(es: seq<Endpoint>, ss: seq<Scenario>, exec: string -> Exit, parse: string -> Stats,
                       timestamp: string, ghost before: seq<Event>)
      requires |results| == |Cells(es, ss)| && Measured(es, ss, exec, parse, before, results, trace)
      modifies this
      ensures FirstFailure(Cells(es, ss), exec) == |Cells(es, ss)|
      ensures results == old(results) == Rows(Cells(es, ss), exec, parse, |Cells(es, ss)|)
      ensures trace == before + MatrixEvents(es, ss, exec, parse, timestamp)
    {
      ghost var cs := Cells(es, ss);
      FinishStep(es, ss, exec, parse, timestamp, results);
      var report := [WriteFile(ReportPath, Report(timestamp, Duration, Connections, results))];
      trace := trace + report;
      Seqs.AppendAssoc(before, Events(cs, |results|), report);
    }

    /** The scenarios of endpoint `i`, in order, up to the first failure. */
    method MeasureEndpoint(es: seq<Endpoint>, ss: seq<Scenario>, exec: string -> Exit, parse: string -> Stats,
                           timestamp: string, i: nat, ghost before: seq<Event>)
      returns (ok: bool)
      requires i < |es| && |results| == Start(ss, i) && Measured(es, ss, exec, parse, before, results, trace)
      modifies this
      ensures ok ==> |results| == Start(ss, i + 1) && Measured(es, ss, exec, parse, before, results, trace)
      ensures !ok ==> Aborted(es, ss, exec, parse, timestamp, before, results, trace)
    {
      var j := 0;
      while j < |ss|
        invariant j <= |ss| && |results| == Start(ss, i) + j
        invariant Measured(es, ss, exec, parse, before, results, trace)
      {
        ok := Measure(es, ss, exec, parse, timestamp, i, j, before);
        if !ok {
          return;
        }
        j := j + 1;
      }
      ok := true;
    }

    /**
     * One cell of the matrix: pause unless it is the first, run bombardier, and
     * push the tagged row, or report the failure that ends the run.
     */
    method Measure(es: seq<Endpoint>, ss: seq<Scenario>, exec: string -> Exit, parse: string -> Stats,
                   timestamp: string, i: nat, j: nat, ghost before: seq<Event>)
      returns (ok: bool)
      requires i < |es| && j < |ss| && |results| == Start(ss, i) + j
      requires Measured(es, ss, exec, parse, before, results, trace)
      modifies this
      ensures ok ==> |results| == |old(results)| + 1 && Measured(es, ss, exec, parse, before, results, trace)
      ensures !ok ==> results == old(results) && Aborted(es, ss, exec, parse, timestamp, before, results, trace)
    {
      var endpoint, scenario := es[i], ss[j];
      CellStep(es, ss, exec, parse, timestamp, i, j, before, results, trace);
      if |results| > 0 {
        trace := trace + [Wait(PauseMs)];
      }
      var stats := RunBombardier(endpoint.url + scenario.path, scenario.httpMethod, scenario.body, exec, parse);
      trace := trace + [Exec(Command(endpoint.url + scenario.path, scenario.httpMethod, scenario.body))];
      if stats.None? {
        return false;
      }
      results := results + [Row(endpoint.name, scenario.name, stats.value)];
      return true;
    }

    /** `main` itself: the configured endpoints and scenarios, measured with the bombardier output parser. */
    method Run(exec: string -> Exit, timestamp: string) returns (completed: bool)
      modifies this
      ensures completed <==> FirstFailure(Cells(Endpoints, Scenarios), exec) == |Cells(Endpoints, Scenarios)|
      ensures results == Rows(Cells(Endpoints, Scenarios), exec, ParseBombardierOutput, FirstFailure(Cells(Endpoints, Scenarios), exec))
      ensures trace == old(trace) + MatrixEvents(Endpoints, Scenarios, exec, ParseBombardierOutput, timestamp)
    {
      completed := Matrix(Endpoints, Scenarios, exec, ParseBombardierOutput, timestamp);
    }
  }

  /**
   * A complete run pauses between measurements only and writes one report, last,
   * with the configured duration and connection count and one row per cell.
   */
  lemma CompleteRun(es: seq<Endpoint>, ss: seq<Scenario>, exec: string -> Exit, parse: string -> Stats, timestamp: string)
    requires FirstFailure(Cells(es, ss), exec) == |Cells(es, ss)| > 0
    ensures var events := MatrixEvents(es, ss, exec, parse, timestamp);
      var last := events[|events| - 1];
      && |events| == 2 * |Cells(es, ss)|
      && last == WriteFile(ReportPath, Report(timestamp, "30s", 100, Rows(Cells(es, ss), exec, parse, |Cells(es, ss)|)))
      && (forall e :: e in events[..|events| - 1] ==> !e.WriteFile?)
      && forall i :: 0 <= i < |events| - 1 ==> (events[i].Wait? <==> i % 2 == 1)
  {
    var cs := Cells(es, ss);
    var attempts := Events(cs, |cs|);
    EventsInterleave(cs, |cs|);
    EventsNoReport(cs, |cs|);
    EventsWaits(cs, |cs|);
    var events := MatrixEvents(es, ss, exec, parse, timestamp);
    assert events[..|events| - 1] == attempts;
  }

  /**
   * A failing measurement ends the run: its command is the last event, and no
   * report is written.
   */
  lemma AbortedRun(es: seq<Endpoint>, ss: seq<Scenario>, exec: string -> Exit, parse: string -> Stats, timestamp: string)
    requires FirstFailure(Cells(es, ss), exec) < |Cells(es, ss)|
    ensures var cs := Cells(es, ss);
      var n := FirstFailure(cs, exec);
      var events := MatrixEvents(es, ss, exec, parse, timestamp);
      |events| == 2 * n + 1
      && events[|events| - 1] == Exec(CellCommand(cs[n]))
      && exec(CellCommand(cs[n])).Failed?
      && forall e :: e in events ==> !e.WriteFile?
  {
    var cs := Cells(es, ss);
    var n := FirstFailure(cs, exec);
    EventsInterleave(cs, n + 1);
    EventsNoReport(cs, n + 1);
  }

  /** After a failure no later cell runs: every command of an aborted run belongs to a cell up to the failing one. */
  lemma AbortedRunStops(es: seq<Endpoint>, ss: seq<Scenario>, exec: string -> Exit, parse: string -> Stats, timestamp: string)
    requires FirstFailure(Cells(es, ss), exec) < |Cells(es, ss)|
    ensures var cs := Cells(es, ss);
      var n := FirstFailure(cs, exec);
      var events := MatrixEvents(es, ss, exec, parse, timestamp);
      forall i :: 0 <= i < |events| && events[i].Exec? ==>
        exists m :: 0 <= m <= n && events[i].command == CellCommand(cs[m])
  {
    var cs := Cells(es, ss);
    var n := FirstFailure(cs, exec);
    EventsCommands(cs, n + 1);
  }

  /** The configured matrix: six cells, each endpoint under the three scenarios in turn. */
  lemma ConfiguredMatrix()
    ensures Cells(Endpoints, Scenarios) == [
      (Endpoints[0], Scenarios[0]), (Endpoints[0], Scenarios[1]), (Endpoints[0], Scenarios[2]),
      (Endpoints[1], Scenarios[0]), (Endpoints[1], Scenarios[1]), (Endpoints[1], Scenarios[2])]
  {
    var e, s := Endpoints, Scenarios;
    assert Cells(e[2..], s) == [];
    assert Cells(e[1..], s) == [(e[1], s[0]), (e[1], s[1]), (e[1], s[2])];
  }

  lemma EndpointUrlPlain(e: Endpoint)
    requires e in Endpoints
    ensures Shell.IsPlainWord(e.url)
  {
    var host := "http://localhost:";
    assert Shell.IsPlainWord(host);
    assert Shell.IsPlainWord("3000") && Shell.IsPlainWord("3001");
    Shell.PlainConcat(host, "3000");
    Shell.PlainConcat(host, "3001");
    assert host + "3000" == Endpoints[0].url && host + "3001" == Endpoints[1].url;
  }

  /** The configured URLs, methods and bodies need no shell quoting beyond the body's own quotes. */
  lemma ConfiguredWordsPlain(c: Cell)
    requires c.0 in Endpoints && c.1 in Scenarios
    ensures Shell.IsPlainWord(c.0.url) && Shell.IsPlainWord(c.1.path) && Shell.IsPlainWord(c.1.httpMethod)
    ensures c.1.body.Some? ==> '\'' !in c.1.body.value
  {
    EndpointUrlPlain(c.0);
    assert Shell.IsPlainWord("/") && Shell.IsPlainWord("/api/items");
    assert Shell.IsPlainWord("GET") && Shell.IsPlainWord("POST");
  }

  /** The configured URLs, methods and bodies reach bombardier as separate arguments. */
  lemma CellCommandsSplit(c: Cell)
    requires c.0 in Endpoints && c.1 in Scenarios
    ensures Shell.Words(CellCommand(c)) == Some(Argv(CellUrl(c), c.1.httpMethod, c.1.body))
  {
    ConfiguredWordsPlain(c);
    Shell.PlainConcat(c.0.url, c.1.path);
    CommandWords(CellUrl(c), c.1.httpMethod, c.1.body);
  }
}
