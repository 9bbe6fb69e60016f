/**
 * The two loops of `WatDivQueryExecutor.main` as a plan: the sequence of
 * observable events the driver produces for a list of query-template files.
 * Directory listing, file creation and the HTTP calls are left abstract; a
 * file is its name and its text, cut into queries by `QueryReader.readAll`,
 * and the measured durations of a query come from a `measure` function
 * standing for the network.
 */
module Driver {
  import opened Results
  import opened Text
  import QueryReader
  import Timing

  /** A query-template file of the queries directory: its name and its text. */
  datatype QueryFile = QueryFile(name: string, text: string)

  /** What the driver does, in order. */
  datatype Event =
    | WarmUp(query: string, outputFile: string)  // `executeWarmUp`, response body saved to `outputFile`
    | Execute(queryId: string, query: string)    // `execute`, timings handed to the handler
    | Sleep(millis: nat)                         // `Thread.sleep`
    | BeginGroup(groupId: string)                // `requestTimingHandler.startGroup`
    | EndGroup                                   // `requestTimingHandler.finishGroup`

  /** `EXECUTION_TIMEOUT`, the pause after every query. */
  const ExecutionTimeoutMillis: nat := 1000

  /** `OUTPUT_FILE_SUFFIX`. */
  const OutputFileSuffix: string := ".txt"

  /** The group id of a file: its name without extension. */
  function GroupId(f: QueryFile): string {
    NameWithoutExtension(f.name)
  }

  /** `QueryReader(f).readAll()`: the queries of a file. */
  function Queries(f: QueryFile): seq<string> {
    QueryReader.ReadAll(f.text)
  }

  /** `take(1)`. */
  function TakeOne(qs: seq<string>): (r: seq<string>)
    ensures |r| <= 1 && |r| <= |qs| && r == qs[..|r|] && (|qs| > 0 ==> |r| == 1)
  {
    if |qs| == 0 then [] else qs[..1]
  }

  /** One iteration of the warm-up `forEachIndexed`. */
  function WarmUpStep(groupId: string, queryId: nat, query: string): seq<Event> {
    (if queryId == 0
     then [WarmUp(query, groupId + "-" + NatToString(queryId) + OutputFileSuffix)]
     else [])
    + [Sleep(ExecutionTimeoutMillis)]
  }

  /** The warm-up `forEachIndexed` from index `i` on. */
  function WarmUpLoop(groupId: string, qs: seq<string>, i: nat): seq<Event>
    decreases |qs| - i
  {
    if i >= |qs| then [] else WarmUpStep(groupId, i, qs[i]) + WarmUpLoop(groupId, qs, i + 1)
  }

  /** What the warm-up loop does for one file. */
  function WarmUpBlock(f: QueryFile): seq<Event> {
    WarmUpLoop(GroupId(f), TakeOne(Queries(f)), 0)
  }

  /** One iteration of the benchmark `forEachIndexed`. */
  function MeasureStep(queryId: nat, query: string): seq<Event> {
    (if queryId != 0 then [Execute(NatToString(queryId), query)] else [])
    + [Sleep(ExecutionTimeoutMillis)]
  }

  /** The benchmark `forEachIndexed` from index `i` on. */
  function MeasureLoop(qs: seq<string>, i: nat): seq<Event>
    decreases |qs| - i
  {
    if i >= |qs| then [] else MeasureStep(i, qs[i]) + MeasureLoop(qs, i + 1)
  }

  /** What the benchmark loop does for one file. */
  function BenchmarkBlock(f: QueryFile): seq<Event> {
    [BeginGroup(GroupId(f))] + MeasureLoop(Queries(f), 0) + [EndGroup]
  }

  /** The first `listFiles().forEach`. */
  function WarmUpPhase(files: seq<QueryFile>): seq<Event> {
    if |files| == 0 then [] else WarmUpBlock(files[0]) + WarmUpPhase(files[1..])
  }

  /** The second `listFiles().forEach`. */
  function BenchmarkPhase(files: seq<QueryFile>): seq<Event> {
    if |files| == 0 then [] else BenchmarkBlock(files[0]) + BenchmarkPhase(files[1..])
  }

  /** Everything `main` does once the handler and the HTTP client exist. */
  function Plan(files: seq<QueryFile>): seq<Event> {
    WarmUpPhase(files) + BenchmarkPhase(files)
  }

  /**
   * The warm-up for one file executes its first query only, saves the
   * response to `<name without extension>-0.txt` and sleeps once; a file
   * without queries produces nothing.
   */
  lemma WarmUpRunsFirstQueryOnly(f: QueryFile)
    ensures |Queries(f)| == 0 ==> WarmUpBlock(f) == []
    ensures |Queries(f)| > 0 ==>
      WarmUpBlock(f) == [WarmUp(Queries(f)[0], GroupId(f) + "-0.txt"), Sleep(1000)]
  {
    var qs := TakeOne(Queries(f));
    if |qs| > 0 {
      var g := GroupId(f);
      assert NatToString(0) == "0";
      assert g + "-" + NatToString(0) + OutputFileSuffix == g + "-0.txt";
      assert WarmUpLoop(g, qs, 1) == [];
      assert WarmUpLoop(g, qs, 0) == WarmUpStep(g, 0, qs[0]) + [];
    }
  }

  /** The number of files that hold at least one query. */
  function FilesWithQueries(files: seq<QueryFile>): nat {
    if |files| == 0 then 0
    else (if |Queries(files[0])| > 0 then 1 else 0) + FilesWithQueries(files[1..])
  }

  /** The number of events of a sequence that satisfy a given kind. */
  function CountSleeps(events: seq<Event>): nat {
    if |events| == 0 then 0
    else (if events[0].Sleep? then 1 else 0) + CountSleeps(events[1..])
  }

  function CountWarmUps(events: seq<Event>): nat {
    if |events| == 0 then 0
    else (if events[0].WarmUp? then 1 else 0) + CountWarmUps(events[1..])
  }

  lemma {:induction false} CountsAppend(a: seq<Event>, b: seq<Event>)
    ensures CountSleeps(a + b) == CountSleeps(a) + CountSleeps(b)
    ensures CountWarmUps(a + b) == CountWarmUps(a) + CountWarmUps(b)
    decreases |a|
  {
    if |a| == 0 {
      assert a + b == b;
    } else {
      assert (a + b)[0] == a[0];
      assert (a + b)[1..] == a[1..] + b;
      CountsAppend(a[1..], b);
    }
  }

  /**
   * The warm-up phase holds only warm-up executions and sleeps: one of each
   * per file that has queries, and nothing for the other files.
   */
  lemma {:induction false} WarmUpPhaseCounts(files: seq<QueryFile>)
    ensures forall e :: e in WarmUpPhase(files) ==> e.WarmUp? || e.Sleep?
    ensures CountWarmUps(WarmUpPhase(files)) == FilesWithQueries(files)
    ensures CountSleeps(WarmUpPhase(files)) == FilesWithQueries(files)
    decreases |files|
  {
    if |files| > 0 {
      WarmUpRunsFirstQueryOnly(files[0]);
      WarmUpPhaseCounts(files[1..]);
      CountsAppend(WarmUpBlock(files[0]), WarmUpPhase(files[1..]));
    }
  }

  /**
   * Events `2 * (k - base)` and the one after it are the timed execution of
   * query `k` under its decimal id, then a sleep.
   */
  predicate ExecutedAt(events: seq<Event>, base: int, qs: seq<string>, k: int) {
    && 0 <= base <= k < |qs|
    && 2 * (k - base) + 1 < |events|
    && events[2 * (k - base)] == Execute(NatToString(k), qs[k])
    && events[2 * (k - base) + 1] == Sleep(ExecutionTimeoutMillis)
  }

  /**
   * From index `i >= 1` on, the benchmark loop alternates a timed execution
   * of query `k`, under the decimal id of `k`, with a sleep.
   */
  lemma {:induction false} MeasureLoopShape(qs: seq<string>, i: nat)
    requires 1 <= i <= |qs|
    ensures |MeasureLoop(qs, i)| == 2 * (|qs| - i)
    ensures forall k :: i <= k < |qs| ==> ExecutedAt(MeasureLoop(qs, i), i, qs, k)
    decreases |qs| - i
  {
    if i < |qs| {
      var rest := MeasureLoop(qs, i + 1);
      MeasureLoopShape(qs, i + 1);
      var loop := [Execute(NatToString(i), qs[i]), Sleep(ExecutionTimeoutMillis)] + rest;
      assert MeasureLoop(qs, i) == loop;
      forall k | i < k < |qs|
        ensures ExecutedAt(loop, i, qs, k)
      {
        assert ExecutedAt(rest, i + 1, qs, k);
        assert loop[2 * (k - i)] == rest[2 * (k - (i + 1))];
        assert loop[2 * (k - i) + 1] == rest[2 * (k - (i + 1)) + 1];
      }
    }
  }

  /**
   * The benchmark events of a group `g` with queries `qs`: the group starts,
   * query 0 is only followed by a sleep, queries 1 .. n-1 are executed in
   * increasing order under their decimal ids, each followed by a sleep, and
   * the group finishes.
   */
  lemma GroupEventsShape(g: string, qs: seq<string>)
    ensures var b, n := [BeginGroup(g)] + MeasureLoop(qs, 0) + [EndGroup], |qs|;
      && |b| == (if n == 0 then 2 else 2 * n + 1)
      && b[0] == BeginGroup(g)
      && b[|b| - 1] == EndGroup
      && (n > 0 ==> b[1] == Sleep(ExecutionTimeoutMillis))
      && forall k :: 1 <= k < n ==> ExecutedAt(b, 0, qs, k)
  {
    var b := [BeginGroup(g)] + MeasureLoop(qs, 0) + [EndGroup];
    if |qs| > 0 {
      var rest := MeasureLoop(qs, 1);
      MeasureLoopShape(qs, 1);
      assert MeasureLoop(qs, 0) == [Sleep(ExecutionTimeoutMillis)] + rest;
      assert b == [BeginGroup(g), Sleep(ExecutionTimeoutMillis)] + rest + [EndGroup];
      forall k | 1 <= k < |qs|
        ensures ExecutedAt(b, 0, qs, k)
      {
        assert ExecutedAt(rest, 1, qs, k);
        assert b[2 * k] == rest[2 * (k - 1)];
        assert b[2 * k + 1] == rest[2 * (k - 1) + 1];
      }
    } else {
      assert b == [BeginGroup(g), EndGroup];
    }
  }

  /**
   * A file's benchmark block starts the group named after the file, sleeps
   * after query 0 without executing it, executes queries 1 .. n-1 in
   * increasing order under their decimal ids, each followed by a sleep, and
   * finishes the group.
   */
  lemma BenchmarkBlockShape(f: QueryFile)
    ensures var b, n := BenchmarkBlock(f), |Queries(f)|;
      && |b| == (if n == 0 then 2 else 2 * n + 1)
      && b[0] == BeginGroup(GroupId(f))
      && b[|b| - 1] == EndGroup
      && (n > 0 ==> b[1] == Sleep(ExecutionTimeoutMillis))
      && forall k :: 1 <= k < n ==> ExecutedAt(b, 0, Queries(f), k)
  {
    GroupEventsShape(GroupId(f), Queries(f));
  }

  /** What executing `query` under `queryId` measures, in nanoseconds (the network). */
  type Measure = (string, string) -> (int, int)

  /** The effect of one event on the timing handler. */
  function Perform(h: Timing.Handler, e: Event, measure: Measure): Result<Timing.Handler, Timing.HandlerError> {
    match e
    case WarmUp(_, _) => Success(h)
    case Sleep(_) => Success(h)
    case Execute(queryId, query) =>
      var (ttfb, ttlb) := measure(queryId, query);
      Timing.Handle(h, queryId, ttfb, ttlb)
    case BeginGroup(g) => Success(Timing.StartGroup(h, g))
    case EndGroup => Timing.FinishGroup(h)
  }

  /** The events performed in order; the first exception ends the run. */
  function Run(events: seq<Event>, h: Timing.Handler, measure: Measure): Result<Timing.Handler, Timing.HandlerError>
    decreases |events|
  {
    if |events| == 0 then Success(h)
    else
      match Perform(h, events[0], measure)
      case Failure(err) => Failure(err)
      case Success(h') => Run(events[1..], h', measure)
  }

  /** Running two event sequences one after the other is running their concatenation. */
  lemma {:induction false} RunAppend(a: seq<Event>, b: seq<Event>, h: Timing.Handler, measure: Measure)
    ensures Run(a + b, h, measure) ==
      match Run(a, h, measure)
      case Failure(err) => Failure(err)
      case Success(h') => Run(b, h', measure)
    decreases |a|
  {
    if |a| == 0 {
      assert a + b == b;
    } else {
      assert (a + b)[0] == a[0];
      assert (a + b)[1..] == a[1..] + b;
      match Perform(h, a[0], measure)
      case Failure(_) =>
      case Success(h') => RunAppend(a[1..], b, h', measure);
    }
  }

  /** The measurements the handler receives for queries `i .. n-1` of a file. */
  function MeasurementsFrom(qs: seq<string>, i: nat, measure: Measure): (r: seq<Timing.Measurement>)
    requires i <= |qs|
    ensures |r| == |qs| - i
    ensures forall k :: 0 <= k < |r| ==> r[k].queryId == NatToString(k + i)
  {
    seq(|qs| - i, k requires 0 <= k < |qs| - i =>
      var (ttfb, ttlb) := measure(NatToString(k + i), qs[k + i]);
      Timing.Measurement(NatToString(k + i), ttfb, ttlb))
  }

  /** The measurements of a whole file: queries 1 .. n-1 (none when the file is empty). */
  function Measurements(f: QueryFile, measure: Measure): (r: seq<Timing.Measurement>)
    ensures |r| == if |Queries(f)| == 0 then 0 else |Queries(f)| - 1
    ensures forall k :: 0 <= k < |r| ==> r[k].queryId == NatToString(k + 1)
  {
    var qs := Queries(f);
    if |qs| == 0 then [] else MeasurementsFrom(qs, 1, measure)
  }

  /**
   * The rows a file adds to `time.csv` carry pairwise different query ids,
   * each the decimal text of the query's index in the file.
   */
  lemma MeasuredIdsDistinct(f: QueryFile, measure: Measure)
    ensures var ms := Measurements(f, measure);
      && (forall k :: 0 <= k < |ms| ==> DecimalValue(ms[k].queryId) == k + 1)
      && (forall a, b :: 0 <= a < b < |ms| ==> ms[a].queryId != ms[b].queryId)
  {
    var ms := Measurements(f, measure);
    forall k | 0 <= k < |ms|
      ensures DecimalValue(ms[k].queryId) == k + 1
    {
      DecimalRoundTrip(k + 1);
    }
    forall a, b | 0 <= a < b < |ms|
      ensures ms[a].queryId != ms[b].queryId
    {
      NatToStringInjective(a + 1, b + 1);
    }
  }

  /** From index `i >= 1` on, the benchmark loop hands the handler exactly those measurements. */
  lemma {:induction false} MeasureLoopHandles(qs: seq<string>, i: nat, h: Timing.Handler, measure: Measure)
    requires 1 <= i <= |qs|
    ensures Run(MeasureLoop(qs, i), h, measure) == Timing.HandleAll(h, MeasurementsFrom(qs, i, measure))
    decreases |qs| - i
  {
    var ms := MeasurementsFrom(qs, i, measure);
    if i < |qs| {
      var step := MeasureStep(i, qs[i]);
      RunAppend(step, MeasureLoop(qs, i + 1), h, measure);
      assert ms[1..] == MeasurementsFrom(qs, i + 1, measure);
      match Timing.Handle(h, ms[0].queryId, ms[0].ttfbNanos, ms[0].ttlbNanos)
      case Failure(_) =>
      case Success(h') => MeasureLoopHandles(qs, i + 1, h', measure);
    }
  }

  /**
   * Running a file's benchmark block is exactly one timing-handler group
   * named after the file, fed the measurements of queries 1 .. n-1.
   */
  lemma BenchmarkBlockIsGroup(f: QueryFile, h: Timing.Handler, measure: Measure)
    ensures Run(BenchmarkBlock(f), h, measure) == Timing.RunGroup(h, GroupId(f), Measurements(f, measure))
  {
    var qs := Queries(f);
    var h1 := Timing.StartGroup(h, GroupId(f));
    var loop := MeasureLoop(qs, 0);
    RunAppend([BeginGroup(GroupId(f))] + loop, [EndGroup], h, measure);
    RunAppend([BeginGroup(GroupId(f))], loop, h, measure);
    if |qs| > 0 {
      RunAppend([Sleep(ExecutionTimeoutMillis)], MeasureLoop(qs, 1), h1, measure);
      MeasureLoopHandles(qs, 1, h1, measure);
    }
    Timing.HandleAllAppends(h1, Measurements(f, measure));
  }

  /**
   * A file's benchmark block always completes and grows `time.csv` by the
   * file's measured rows and `summary.csv` by the file's eight-row block.
   */
  lemma BenchmarkBlockAppends(f: QueryFile, h: Timing.Handler, measure: Measure)
    ensures Run(BenchmarkBlock(f), h, measure).Success?
    ensures Run(BenchmarkBlock(f), h, measure).value.timeFile ==
      h.timeFile + Timing.TimingRows(GroupId(f), Measurements(f, measure))
    ensures Run(BenchmarkBlock(f), h, measure).value.summaryFile ==
      h.summaryFile + Timing.SummaryBlock(GroupId(f),
        Timing.Samples(Measurements(f, measure), Timing.Ttfb),
        Timing.Samples(Measurements(f, measure), Timing.Ttlb))
  {
    BenchmarkBlockIsGroup(f, h, measure);
    Timing.GroupAppendsItsRows(h, GroupId(f), Measurements(f, measure));
  }

  /** The raw rows a list of files adds to `time.csv`, file after file. */
  function AllTimingRows(files: seq<QueryFile>, measure: Measure): seq<Timing.TimingRow> {
    if |files| == 0 then []
    else Timing.TimingRows(GroupId(files[0]), Measurements(files[0], measure)) + AllTimingRows(files[1..], measure)
  }

  /** The group ids of a list of files, in order. */
  function GroupIds(files: seq<QueryFile>): (r: seq<string>)
    ensures |r| == |files|
  {
    if |files| == 0 then [] else [GroupId(files[0])] + GroupIds(files[1..])
  }

  /** The warm-up phase never touches the handler. */
  lemma {:induction false} WarmUpPhaseLeavesHandler(files: seq<QueryFile>, h: Timing.Handler, measure: Measure)
    ensures Run(WarmUpPhase(files), h, measure) == Success(h)
    decreases |files|
  {
    if |files| > 0 {
      var block := WarmUpBlock(files[0]);
      WarmUpRunsFirstQueryOnly(files[0]);
      RunAppend(block, WarmUpPhase(files[1..]), h, measure);
      WarmUpPhaseLeavesHandler(files[1..], h, measure);
    }
  }

  lemma ConcatAssoc<T>(a: seq<T>, b: seq<T>, c: seq<T>)
    ensures a + b + c == a + (b + c)
  {
  }

  /** The summary blocks a list of files adds to `summary.csv`, file after file. */
  function AllSummaryRows(files: seq<QueryFile>, measure: Measure): seq<Timing.SummaryRow> {
    if |files| == 0 then []
    else
      var ms := Measurements(files[0], measure);
      Timing.SummaryBlock(GroupId(files[0]), Timing.Samples(ms, Timing.Ttfb), Timing.Samples(ms, Timing.Ttlb))
      + AllSummaryRows(files[1..], measure)
  }

  /**
   * The benchmark phase always completes; it appends to `time.csv` the rows
   * of every file in order and to `summary.csv` the block of every file in
   * order.
   */
  lemma {:induction false} BenchmarkPhaseAppends(files: seq<QueryFile>, h: Timing.Handler, measure: Measure)
    ensures Run(BenchmarkPhase(files), h, measure).Success?
    ensures Run(BenchmarkPhase(files), h, measure).value.timeFile == h.timeFile + AllTimingRows(files, measure)
    ensures Run(BenchmarkPhase(files), h, measure).value.summaryFile == h.summaryFile + AllSummaryRows(files, measure)
    decreases |files|
  {
    if |files| == 0 {
      assert h.timeFile + [] == h.timeFile;
      assert h.summaryFile + [] == h.summaryFile;
    } else {
      var f, rest := files[0], files[1..];
      var ms := Measurements(f, measure);
      var rows := Timing.TimingRows(GroupId(f), ms);
      var block := Timing.SummaryBlock(GroupId(f), Timing.Samples(ms, Timing.Ttfb), Timing.Samples(ms, Timing.Ttlb));
      BenchmarkBlockAppends(f, h, measure);
      var h1 := Run(BenchmarkBlock(f), h, measure).value;
      BenchmarkPhaseAppends(rest, h1, measure);
      assert Run(BenchmarkPhase(files), h, measure) == Run(BenchmarkPhase(rest), h1, measure) by {
        assert BenchmarkPhase(files) == BenchmarkBlock(f) + BenchmarkPhase(rest);
        RunAppend(BenchmarkBlock(f), BenchmarkPhase(rest), h, measure);
      }
      assert AllTimingRows(files, measure) == rows + AllTimingRows(rest, measure);
      ConcatAssoc(h.timeFile, rows, AllTimingRows(rest, measure));
      assert AllSummaryRows(files, measure) == block + AllSummaryRows(rest, measure);
      ConcatAssoc(h.summaryFile, block, AllSummaryRows(rest, measure));
    }
  }

  /** The blocks of a list of files form a summary file for their group ids. */
  lemma {:induction false} AllSummaryRowsShape(files: seq<QueryFile>, measure: Measure, rows: seq<Timing.SummaryRow>, groups: seq<string>)
    requires Timing.IsSummaryFile(rows, groups)
    ensures Timing.IsSummaryFile(rows + AllSummaryRows(files, measure), groups + GroupIds(files))
    decreases |files|
  {
    if |files| == 0 {
      assert rows + [] == rows;
      assert groups + [] == groups;
    } else {
      var f, rest := files[0], files[1..];
      var g, ms := GroupId(f), Measurements(f, measure);
      var block := Timing.SummaryBlock(g, Timing.Samples(ms, Timing.Ttfb), Timing.Samples(ms, Timing.Ttlb));
      Timing.SummaryFileGrows(rows, groups, g, Timing.Samples(ms, Timing.Ttfb), Timing.Samples(ms, Timing.Ttlb));
      AllSummaryRowsShape(rest, measure, rows + block, groups + [g]);
      var more := AllSummaryRows(rest, measure);
      assert AllSummaryRows(files, measure) == block + more;
      ConcatAssoc(rows, block, more);
      ConcatAssoc(groups, [g], GroupIds(rest));
    }
  }

  /**
   * A whole run from a fresh handler: `time.csv` holds the measured rows of
   * every file in file order, and `summary.csv` holds exactly eight rows per
   * file, contiguous per group, in file order and in the fixed
   * min/mean/std/max order for ttfb then ttlb.
   */
  lemma PlanWritesSummaryPerFile(files: seq<QueryFile>, measure: Measure)
    ensures Run(Plan(files), Timing.Initial, measure).Success?
    ensures Run(Plan(files), Timing.Initial, measure).value.timeFile == AllTimingRows(files, measure)
    ensures Timing.IsSummaryFile(Run(Plan(files), Timing.Initial, measure).value.summaryFile, GroupIds(files))
  {
    PlanIsBenchmarkPhase(files, measure);
    BenchmarkPhaseAppends(files, Timing.Initial, measure);
    AllSummaryRowsShape(files, measure, [], []);
    assert [] + GroupIds(files) == GroupIds(files);
    assert [] + AllTimingRows(files, measure) == AllTimingRows(files, measure);
    assert [] + AllSummaryRows(files, measure) == AllSummaryRows(files, measure);
  }

  /** From a fresh handler, the plan has the effect of its benchmark phase alone. */
  lemma PlanIsBenchmarkPhase(files: seq<QueryFile>, measure: Measure)
    ensures Run(Plan(files), Timing.Initial, measure) == Run(BenchmarkPhase(files), Timing.Initial, measure)
  {
    RunAppend(WarmUpPhase(files), BenchmarkPhase(files), Timing.Initial, measure);
    WarmUpPhaseLeavesHandler(files, Timing.Initial, measure);
  }
}
