/**
 * `WatDivQueryExecutor.RequestTimingHandler`: per query-template group it
 * buffers one raw timing row per measured query and feeds two sample
 * collections (time to first byte, time to last byte); at the end of the
 * group it appends the buffered rows to `time.csv` and eight summary rows to
 * `summary.csv`.
 *
 * The two output files are modelled as append-only sequences of rows. A
 * summary row carries the samples it summarises; the statistic itself is
 * computed by a statistics library and printed with four decimals, neither
 * of which is modelled.
 */
module Timing {
  import opened Results

  /** Which checkpoint of a request a sample measures. */
  datatype Metric = Ttfb | Ttlb

  /** The four descriptive statistics written per metric. */
  datatype Stat = Min | Mean | Std | Max

  /** The order of the eight rows of a group's summary block. */
  const SummaryOrder: seq<(Metric, Stat)> := [
    (Ttfb, Min), (Ttfb, Mean), (Ttfb, Std), (Ttfb, Max),
    (Ttlb, Min), (Ttlb, Mean), (Ttlb, Std), (Ttlb, Max)
  ]

  /** The text of a metric in the second CSV column. */
  function MetricName(m: Metric): string {
    match m
    case Ttfb => "ttfb"
    case Ttlb => "ttlb"
  }

  /** The text of a statistic in the third CSV column. */
  function StatName(s: Stat): string {
    match s
    case Min => "min"
    case Mean => "mean"
    case Std => "std"
    case Max => "max"
  }

  /** `NANO_SECONDS`. */
  const NanosPerSecond: int := 1000000000

  /** A duration in nanoseconds converted to seconds, `nanos.toDouble() / NANO_SECONDS`. */
  function Seconds(nanos: int): (r: real)
    ensures r * NanosPerSecond as real == nanos as real
  {
    nanos as real / NanosPerSecond as real
  }

  /** A line of `time.csv`: `groupId,queryId,ttfb,ttlb`, durations in seconds. */
  datatype TimingRow = TimingRow(groupId: string, queryId: string, ttfb: real, ttlb: real)

  /** A line of `summary.csv`: `groupId,metric,stat,value`, the value being `stat` of `samples`. */
  datatype SummaryRow = SummaryRow(groupId: string, metric: Metric, stat: Stat, samples: seq<real>)

  /**
   * The handler's state: the current group (a `lateinit` property, absent
   * until the first `startGroup`), the buffered rows, the two sample
   * collections, and the contents of the two output files.
   */
  datatype Handler = Handler(
    groupId: Option<string>,
    timings: seq<TimingRow>,
    ttfbStats: seq<real>,
    ttlbStats: seq<real>,
    timeFile: seq<TimingRow>,
    summaryFile: seq<SummaryRow>)

  /** Reading the `lateinit` group id before `startGroup` raises an exception. */
  datatype HandlerError = GroupNotStarted

  /** The handler right after construction: no group, freshly created empty files. */
  const Initial: Handler := Handler(None, [], [], [], [], [])

  /** `startGroup(id)`. */
  function StartGroup(h: Handler, id: string): (r: Handler)
    ensures r.groupId == Some(id)
    ensures r.timings == [] && r.ttfbStats == [] && r.ttlbStats == []
    ensures r.timeFile == h.timeFile && r.summaryFile == h.summaryFile
  {
    h.(groupId := Some(id), timings := [], ttfbStats := [], ttlbStats := [])
  }

  /** `handle(queryId, timeToFirstByte, timeToLoadBody)`, durations in nanoseconds. */
  function Handle(h: Handler, queryId: string, ttfbNanos: int, ttlbNanos: int): (r: Result<Handler, HandlerError>)
    ensures r.Failure? <==> h.groupId.None?
    ensures r.Success? ==>
      && r.value.timings == h.timings + [TimingRow(h.groupId.value, queryId, Seconds(ttfbNanos), Seconds(ttlbNanos))]
      && r.value.ttfbStats == h.ttfbStats + [Seconds(ttfbNanos)]
      && r.value.ttlbStats == h.ttlbStats + [Seconds(ttlbNanos)]
      && r.value.groupId == h.groupId
      && r.value.timeFile == h.timeFile && r.value.summaryFile == h.summaryFile
  {
    match h.groupId
    case None => Failure(GroupNotStarted)
    case Some(g) =>
      var ttfb := Seconds(ttfbNanos);
      var ttlb := Seconds(ttlbNanos);
      Success(h.(
        ttfbStats := h.ttfbStats + [ttfb],
        ttlbStats := h.ttlbStats + [ttlb],
        timings := h.timings + [TimingRow(g, queryId, ttfb, ttlb)]))
  }

  /** The eight summary lines `finishGroup` writes, in the order of the source. */
  function SummaryBlock(g: string, ttfb: seq<real>, ttlb: seq<real>): (r: seq<SummaryRow>)
    ensures |r| == |SummaryOrder|
    ensures forall j :: 0 <= j < |r| ==>
      && r[j].groupId == g
      && (r[j].metric, r[j].stat) == SummaryOrder[j]
      && r[j].samples == (if r[j].metric == Ttfb then ttfb else ttlb)
  {
    [ SummaryRow(g, Ttfb, Min, ttfb), SummaryRow(g, Ttfb, Mean, ttfb),
      SummaryRow(g, Ttfb, Std, ttfb), SummaryRow(g, Ttfb, Max, ttfb),
      SummaryRow(g, Ttlb, Min, ttlb), SummaryRow(g, Ttlb, Mean, ttlb),
      SummaryRow(g, Ttlb, Std, ttlb), SummaryRow(g, Ttlb, Max, ttlb) ]
  }

  /**
   * `finishGroup()`: appends the buffered rows to `time.csv`, then the eight
   * summary rows to `summary.csv`. Nothing is truncated and the buffers are
   * not cleared. Without a group, reading the group id raises an exception
   * that ends the run.
   */
  function FinishGroup(h: Handler): (r: Result<Handler, HandlerError>)
    ensures r.Failure? <==> h.groupId.None?
    ensures r.Success? ==>
      && r.value.timeFile == h.timeFile + h.timings
      && r.value.summaryFile == h.summaryFile + SummaryBlock(h.groupId.value, h.ttfbStats, h.ttlbStats)
      && r.value.groupId == h.groupId
      && r.value.timings == h.timings
      && r.value.ttfbStats == h.ttfbStats && r.value.ttlbStats == h.ttlbStats
  {
    match h.groupId
    case None => Failure(GroupNotStarted)
    case Some(g) =>
      Success(h.(
        timeFile := h.timeFile + h.timings,
        summaryFile := h.summaryFile + SummaryBlock(g, h.ttfbStats, h.ttlbStats)))
  }

  /** One measured query as handed to `handle`. */
  datatype Measurement = Measurement(queryId: string, ttfbNanos: int, ttlbNanos: int)

  /** `handle` applied to each measurement in turn. */
  function HandleAll(h: Handler, ms: seq<Measurement>): Result<Handler, HandlerError>
    decreases |ms|
  {
    if |ms| == 0 then Success(h)
    else
      match Handle(h, ms[0].queryId, ms[0].ttfbNanos, ms[0].ttlbNanos)
      case Failure(e) => Failure(e)
      case Success(h') => HandleAll(h', ms[1..])
  }

  /** The raw rows a group's measurements produce, in order. */
  function TimingRows(g: string, ms: seq<Measurement>): (r: seq<TimingRow>)
    ensures |r| == |ms|
  {
    seq(|ms|, k requires 0 <= k < |ms| =>
      TimingRow(g, ms[k].queryId, Seconds(ms[k].ttfbNanos), Seconds(ms[k].ttlbNanos)))
  }

  /** The samples of one metric a group's measurements produce, in order. */
  function Samples(ms: seq<Measurement>, m: Metric): (r: seq<real>)
    ensures |r| == |ms|
  {
    seq(|ms|, k requires 0 <= k < |ms| =>
      Seconds(if m == Ttfb then ms[k].ttfbNanos else ms[k].ttlbNanos))
  }

  /**
   * Inside a started group, handling a list of measurements appends exactly
   * their rows and samples, in order, and touches nothing else.
   */
  lemma {:induction false} HandleAllAppends(h: Handler, ms: seq<Measurement>)
    requires h.groupId.Some?
    ensures HandleAll(h, ms).Success?
    ensures HandleAll(h, ms).value == h.(
      timings := h.timings + TimingRows(h.groupId.value, ms),
      ttfbStats := h.ttfbStats + Samples(ms, Ttfb),
      ttlbStats := h.ttlbStats + Samples(ms, Ttlb))
    decreases |ms|
  {
    if |ms| == 0 {
      assert h.timings + [] == h.timings;
      assert h.ttfbStats + [] == h.ttfbStats;
      assert h.ttlbStats + [] == h.ttlbStats;
    } else {
      var g := h.groupId.value;
      var h' := Handle(h, ms[0].queryId, ms[0].ttfbNanos, ms[0].ttlbNanos).value;
      HandleAllAppends(h', ms[1..]);
      assert TimingRows(g, ms) == [TimingRows(g, ms)[0]] + TimingRows(g, ms[1..]);
      assert Samples(ms, Ttfb) == [Samples(ms, Ttfb)[0]] + Samples(ms[1..], Ttfb);
      assert Samples(ms, Ttlb) == [Samples(ms, Ttlb)[0]] + Samples(ms[1..], Ttlb);
    }
  }

  /** A whole group: `startGroup(g)`, `handle` per measurement, `finishGroup()`. */
  function RunGroup(h: Handler, g: string, ms: seq<Measurement>): Result<Handler, HandlerError> {
    match HandleAll(StartGroup(h, g), ms)
    case Failure(e) => Failure(e)
    case Success(h') => FinishGroup(h')
  }

  /**
   * A group always succeeds and grows both files by exactly its own rows:
   * `time.csv` by one row per measurement, in order, and `summary.csv` by
   * the eight-row block over this group's samples only, whatever the
   * handler held before.
   */
  lemma GroupAppendsItsRows(h: Handler, g: string, ms: seq<Measurement>)
    ensures RunGroup(h, g, ms).Success?
    ensures RunGroup(h, g, ms).value.timeFile == h.timeFile + TimingRows(g, ms)
    ensures RunGroup(h, g, ms).value.summaryFile ==
      h.summaryFile + SummaryBlock(g, Samples(ms, Ttfb), Samples(ms, Ttlb))
  {
    HandleAllAppends(StartGroup(h, g), ms);
    assert [] + TimingRows(g, ms) == TimingRows(g, ms);
    assert [] + Samples(ms, Ttfb) == Samples(ms, Ttfb);
    assert [] + Samples(ms, Ttlb) == Samples(ms, Ttlb);
  }

  /**
   * `rows` is the summary file written for `groups`, one group after the
   * other: eight contiguous rows per group, in `SummaryOrder`.
   */
  predicate IsSummaryFile(rows: seq<SummaryRow>, groups: seq<string>) {
    && |rows| == |SummaryOrder| * |groups|
    && forall i, j :: 0 <= i < |groups| && 0 <= j < |SummaryOrder| ==> SummaryRowAt(rows, groups, i, j)
  }

  /** Row `j` of group `i`'s block names that group and the `j`-th (metric, stat) pair. */
  predicate SummaryRowAt(rows: seq<SummaryRow>, groups: seq<string>, i: int, j: int) {
    && 0 <= i < |groups| && 0 <= j < |SummaryOrder|
    && |SummaryOrder| * i + j < |rows|
    && rows[|SummaryOrder| * i + j].groupId == groups[i]
    && (rows[|SummaryOrder| * i + j].metric, rows[|SummaryOrder| * i + j].stat) == SummaryOrder[j]
  }

  /** Appending one group's block to a summary file keeps it a summary file. */
  lemma SummaryFileGrows(rows: seq<SummaryRow>, groups: seq<string>, g: string, ttfb: seq<real>, ttlb: seq<real>)
    requires IsSummaryFile(rows, groups)
    ensures IsSummaryFile(rows + SummaryBlock(g, ttfb, ttlb), groups + [g])
  {
    var block := SummaryBlock(g, ttfb, ttlb);
    var rows', groups' := rows + block, groups + [g];
    forall i, j | 0 <= i < |groups'| && 0 <= j < |SummaryOrder|
      ensures SummaryRowAt(rows', groups', i, j)
    {
      if i < |groups| {
        assert SummaryRowAt(rows, groups, i, j);
      } else {
        assert rows'[|SummaryOrder| * i + j] == block[j];
      }
    }
  }
}
