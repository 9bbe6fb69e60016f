/**
 * `summary.csv` as `RequestTimingHandler.finishGroup` writes it, read back by
 * `readWholeSummary`, and the diff the comparator then produces.
 *
 * The writer emits no header line, while the reader discards the first line
 * and never stores the final run. Reading the writer's output therefore
 * loses the first group's "ttfb-min" entry and the whole last group, and the
 * comparator fails on the first group. The corrected reader in
 * `SummaryRuns` reads every group back with all eight entries.
 */
module SummaryRoundTrip {
  import opened Results
  import opened Text
  import opened OrderedMap
  import Timing
  import opened SummaryReader
  import opened SummaryRuns
  import opened Comparator

  /**
   * `String.format("%.4f", statistic)`: the text written for the statistic
   * of a row's samples. Which statistic (DescriptiveStatistics' min, mean,
   * standard deviation or max) and its rounding are left abstract.
   */
  type Render = (Timing.Stat, seq<real>) -> string

  /** One line of `summary.csv`: group id, metric, statistic and the rendered value, comma-separated. */
  function SummaryLine(row: Timing.SummaryRow, render: Render): string {
    row.groupId + "," + Timing.MetricName(row.metric) + "," + Timing.StatName(row.stat) + "," + render(row.stat, row.samples)
  }

  /** The lines of `summary.csv`, one per summary row. */
  function SummaryLines(rows: seq<Timing.SummaryRow>, render: Render): (r: seq<string>)
    ensures |r| == |rows|
  {
    seq(|rows|, k requires 0 <= k < |rows| => SummaryLine(rows[k], render))
  }

  /** Rendered values hold no comma and parse back as numbers. */
  ghost predicate Readable(render: Render, parse: Parser) {
    forall s, xs :: ',' !in render(s, xs) && parse(render(s, xs)).Some?
  }

  /** Group ids that can be written as a column: no comma in any of them. */
  predicate CommaFree(groups: seq<string>) {
    forall i :: 0 <= i < |groups| ==> ',' !in groups[i]
  }

  /** Group ids that are pairwise different. */
  predicate Distinct(groups: seq<string>) {
    forall i, j :: 0 <= i < j < |groups| ==> groups[i] != groups[j]
  }

  /** The number a rendered summary row reads back as. */
  function ValueOf(row: Timing.SummaryRow, render: Render, parse: Parser): real
    requires Readable(render, parse)
  {
    parse(render(row.stat, row.samples)).value
  }

  /** The row the reader parses from a written summary row. */
  function ReadBack(row: Timing.SummaryRow, render: Render, parse: Parser): Row
    requires Readable(render, parse)
  {
    Row(row.groupId, StatKey(row.metric, row.stat), ValueOf(row, render, parse))
  }

  function ReadBacks(rows: seq<Timing.SummaryRow>, render: Render, parse: Parser): (r: seq<Row>)
    requires Readable(render, parse)
    ensures |r| == |rows|
  {
    seq(|rows|, k requires 0 <= k < |rows| => ReadBack(rows[k], render, parse))
  }

  /** A written line parses back into the row it was written from. */
  lemma ParseSummaryLine(row: Timing.SummaryRow, render: Render, parse: Parser)
    requires Readable(render, parse) && ',' !in row.groupId
    ensures ParseLine(SummaryLine(row, render), parse) == Success(ReadBack(row, render, parse))
  {
    assert ',' !in Timing.MetricName(row.metric) && ',' !in Timing.StatName(row.stat);
    assert ',' !in render(row.stat, row.samples) && parse(render(row.stat, row.samples)).Some?;
    ParseWrittenLine(row.groupId, Timing.MetricName(row.metric), Timing.StatName(row.stat), render(row.stat, row.samples), parse);
  }

  /** Every written line parses back into the row it was written from. */
  lemma ParseSummaryLines(rows: seq<Timing.SummaryRow>, render: Render, parse: Parser)
    requires Readable(render, parse)
    requires forall k :: 0 <= k < |rows| ==> ',' !in rows[k].groupId
    ensures ParseLines(SummaryLines(rows, render), parse) == Success(ReadBacks(rows, render, parse))
  {
    var lines := SummaryLines(rows, render);
    var q := ReadBacks(rows, render, parse);
    forall k | 0 <= k < |rows|
      ensures ParseLine(lines[k], parse) == Success(q[k])
    {
      ParseSummaryLine(rows[k], render, parse);
    }
    var r := ParseLines(lines, parse);
    assert r.Success?;
    assert r.value == q by {
      forall k | 0 <= k < |rows|
        ensures r.value[k] == q[k]
      {
        assert ParsedAs(lines, r.value, parse, k);
      }
    }
  }

  /** Run boundaries: from 0 to `n`, strictly increasing, every run non-empty. */
  predicate Bounds(b: seq<nat>, n: nat) {
    && |b| > 0 && b[0] == 0 && b[|b| - 1] == n
    && (forall i :: 0 <= i < |b| ==> b[i] <= n)
    && (forall i :: 0 <= i < |b| - 1 ==> b[i] < b[i + 1])
  }

  /** The runs of `q` between consecutive boundaries. */
  function Slices(q: seq<Row>, b: seq<nat>): (r: seq<seq<Row>>)
    requires Bounds(b, |q|)
    ensures |r| == |b| - 1
  {
    seq(|b| - 1, i requires 0 <= i < |b| - 1 => q[b[i]..b[i + 1]])
  }

  /** The first `k` runs put together are the rows up to the `k`-th boundary. */
  lemma {:induction false} FlattenSlicesPrefix(q: seq<Row>, b: seq<nat>, k: nat)
    requires Bounds(b, |q|) && k < |b|
    ensures Flatten(Slices(q, b)[..k]) == q[..b[k]]
  {
    if k == 0 {
      assert Slices(q, b)[..0] == [];
    } else {
      FlattenSlicesPrefix(q, b, k - 1);
      var runs := Slices(q, b)[..k];
      assert runs[..k - 1] == Slices(q, b)[..k - 1];
      assert runs[k - 1] == q[b[k - 1]..b[k]];
      assert q[..b[k - 1]] + q[b[k - 1]..b[k]] == q[..b[k]];
    }
  }

  /** The runs between all boundaries put together are all rows. */
  lemma FlattenSlices(q: seq<Row>, b: seq<nat>)
    requires Bounds(b, |q|)
    ensures Flatten(Slices(q, b)) == q
  {
    FlattenSlicesPrefix(q, b, |b| - 1);
    assert Slices(q, b)[..|b| - 1] == Slices(q, b);
    assert q[..|q|] == q;
  }

  /** The boundaries of the summary blocks: every eight rows. */
  function BlockBounds(n: nat): (b: seq<nat>)
    ensures Bounds(b, |Timing.SummaryOrder| * n)
  {
    assert |Timing.SummaryOrder| == 8;
    seq(n + 1, i requires 0 <= i <= n => 8 * i)
  }

  /** Row `t` of block `i` of parsed rows belongs to the block's group and holds the key of pair `t`. */
  predicate ReadBlockAt(q: seq<Row>, groups: seq<string>, i: int, t: int) {
    && 0 <= i < |groups| && 0 <= t < |Timing.SummaryOrder|
    && |Timing.SummaryOrder| * i + t < |q|
    && q[|Timing.SummaryOrder| * i + t].groupId == groups[i]
    && q[|Timing.SummaryOrder| * i + t].key == PairKey(t)
  }

  /** Parsed rows made of one eight-row block per group, each in pair order. */
  predicate IsReadBlocks(q: seq<Row>, groups: seq<string>) {
    && |q| == |Timing.SummaryOrder| * |groups|
    && forall i, t :: 0 <= i < |groups| && 0 <= t < |Timing.SummaryOrder| ==> ReadBlockAt(q, groups, i, t)
  }

  /** The rows parsed from a written summary file are blocks of its groups. */
  lemma WrittenBlocks(rows: seq<Timing.SummaryRow>, groups: seq<string>, render: Render, parse: Parser)
    requires Timing.IsSummaryFile(rows, groups) && Readable(render, parse)
    ensures IsReadBlocks(ReadBacks(rows, render, parse), groups)
  {
    forall i, t | 0 <= i < |groups| && 0 <= t < |Timing.SummaryOrder|
      ensures ReadBlockAt(ReadBacks(rows, render, parse), groups, i, t)
    {
      assert Timing.SummaryRowAt(rows, groups, i, t);
    }
  }

  /** In a run holding the keys of pairs `from` to 7 in order, no later row repeats the key of pair `j`. */
  lemma RunPairIsLast(run: seq<Row>, from: nat, j: nat)
    requires from + |run| == |Timing.SummaryOrder|
    requires forall t :: 0 <= t < |run| ==> run[t].key == PairKey(from + t)
    requires from <= j < |Timing.SummaryOrder|
    ensures LastOfKey(run, j - from)
  {
    StatKeysDistinct();
  }

  /** Such a run sets the key of pair `j` to the value of its row. */
  lemma RunHasPair(run: seq<Row>, from: nat, j: nat)
    requires from + |run| == |Timing.SummaryOrder|
    requires forall t :: 0 <= t < |run| ==> run[t].key == PairKey(from + t)
    requires from <= j < |Timing.SummaryOrder|
    ensures PairKey(j) in RunValues(run) && RunValues(run)[PairKey(j)] == run[j - from].value
  {
    RunPairIsLast(run, from, j);
    RunValuesLastWins(run, j - from);
  }

  /** Such a run has no key of an earlier pair. */
  lemma RunLacksPair(run: seq<Row>, from: nat, j: nat)
    requires from + |run| == |Timing.SummaryOrder|
    requires forall t :: 0 <= t < |run| ==> run[t].key == PairKey(from + t)
    requires j < from
    ensures PairKey(j) !in RunValues(run)
  {
    StatKeysDistinct();
  }

  /**
   * The entries of block rows `start` to `start + 7` of `q`, from pair `from`
   * on: exactly the keys of those pairs, each with the value of its row.
   */
  predicate BlockEntries(values: map<string, real>, q: seq<Row>, start: int, from: int) {
    && 0 <= start && start + |Timing.SummaryOrder| <= |q| && 0 <= from <= |Timing.SummaryOrder|
    && (forall j :: from <= j < |Timing.SummaryOrder| ==> PairKey(j) in values && values[PairKey(j)] == q[start + j].value)
    && (forall j :: 0 <= j < from ==> PairKey(j) !in values)
  }

  /** Rows `from` to 7 of block `i` of `q`. */
  function BlockFrom(q: seq<Row>, i: nat, from: nat): seq<Row>
    requires from <= |Timing.SummaryOrder| && |Timing.SummaryOrder| * (i + 1) <= |q|
  {
    q[|Timing.SummaryOrder| * i + from..|Timing.SummaryOrder| * (i + 1)]
  }

  /** The run of block `i` from pair `from` on is a run of the block's group with exactly that block's entries from `from` on. */
  lemma BlockRun(q: seq<Row>, groups: seq<string>, i: nat, from: nat)
    requires IsReadBlocks(q, groups) && i < |groups| && from < |Timing.SummaryOrder|
    ensures |Timing.SummaryOrder| * (i + 1) <= |q|
    ensures IsRunOf(BlockFrom(q, i, from), groups[i])
    ensures BlockEntries(RunValues(BlockFrom(q, i, from)), q, |Timing.SummaryOrder| * i, from)
  {
    BlockRunKeys(q, groups, i, from);
    RunEntries(BlockFrom(q, i, from), q, |Timing.SummaryOrder| * i, from);
  }

  /** The rows of block `i` from pair `from` on belong to the block's group and hold the keys of pairs `from` to 7. */
  lemma BlockRunKeys(q: seq<Row>, groups: seq<string>, i: nat, from: nat)
    requires IsReadBlocks(q, groups) && i < |groups| && from < |Timing.SummaryOrder|
    ensures |Timing.SummaryOrder| * (i + 1) <= |q|
    ensures var run := BlockFrom(q, i, from);
      && from + |run| == |Timing.SummaryOrder|
      && (forall t :: 0 <= t < |run| ==> run[t].groupId == groups[i] && run[t].key == PairKey(from + t))
  {
    assert ReadBlockAt(q, groups, i, |Timing.SummaryOrder| - 1);
    var run := BlockFrom(q, i, from);
    forall t | 0 <= t < |run|
      ensures run[t].groupId == groups[i] && run[t].key == PairKey(from + t)
    {
      assert ReadBlockAt(q, groups, i, from + t);
    }
  }

  /** A run holding the keys of pairs `from` to 7 in order, cut from rows `start + from` on, has exactly those rows' entries. */
  lemma RunEntries(run: seq<Row>, q: seq<Row>, start: nat, from: nat)
    requires from + |run| == |Timing.SummaryOrder| && start + |Timing.SummaryOrder| <= |q|
    requires run == q[start + from..start + |Timing.SummaryOrder|]
    requires forall t :: 0 <= t < |run| ==> run[t].key == PairKey(from + t)
    ensures BlockEntries(RunValues(run), q, start, from)
  {
    forall j | from <= j < |Timing.SummaryOrder|
      ensures PairKey(j) in RunValues(run) && RunValues(run)[PairKey(j)] == q[start + j].value
    {
      RunHasPair(run, from, j);
    }
    forall j | 0 <= j < from
      ensures PairKey(j) !in RunValues(run)
    {
      RunLacksPair(run, from, j);
    }
  }

  /** Group `i` of `m` holds the entries of block `i` of `q` from pair `from` on, and no others of the eight. */
  predicate StoresBlock(m: OMap<string, SummaryResult>, q: seq<Row>, groups: seq<string>, i: int, from: int) {
    && 0 <= i < |groups|
    && groups[i] in m.values && m.values[groups[i]].groupId == groups[i]
    && BlockEntries(m.values[groups[i]].values, q, |Timing.SummaryOrder| * i, from)
  }

  /** The intended reader stores every block: all groups in order, each with its eight entries. */
  lemma IntendedReadsBlocks(q: seq<Row>, groups: seq<string>)
    requires IsReadBlocks(q, groups) && Distinct(groups)
    ensures Valid(ReadRowsIntended(q)) && ReadRowsIntended(q).keys == groups
    ensures forall i :: 0 <= i < |groups| ==> StoresBlock(ReadRowsIntended(q), q, groups, i, 0)
  {
    var n := |groups|;
    var b := BlockBounds(n);
    var runs := Slices(q, b);
    forall i | 0 <= i < n
      ensures IsRunOf(runs[i], groups[i]) && BlockEntries(RunValues(runs[i]), q, |Timing.SummaryOrder| * i, 0)
    {
      BlockRun(q, groups, i, 0);
      assert runs[i] == BlockFrom(q, i, 0);
    }
    assert IsRunSplit(runs, groups);
    FlattenSlices(q, b);
    IntendedReadsEveryRun(runs, groups);
  }

  /** The run boundaries of the rows after the first: the first block is one row short. */
  function SkippedBounds(n: nat): (b: seq<nat>)
    requires n > 0
    ensures Bounds(b, |Timing.SummaryOrder| * n - 1)
  {
    assert |Timing.SummaryOrder| == 8;
    seq(n + 1, i requires 0 <= i <= n => if i == 0 then 0 else 8 * i - 1)
  }

  /** The first pair block `i` keeps once the first row is skipped: pair 1 for the first block, pair 0 for the others. */
  function Kept(i: int): nat {
    if i == 0 then 1 else 0
  }

  /**
   * As written, the reader, given every block but the first row, stores
   * every group but the last, each with its entries from its first kept
   * pair on.
   */
  lemma SkippingReadsBlocks(q: seq<Row>, groups: seq<string>)
    requires IsReadBlocks(q, groups) && Distinct(groups) && |groups| > 0
    ensures Valid(ReadRows(q[1..])) && ReadRows(q[1..]).keys == groups[..|groups| - 1]
    ensures forall i :: 0 <= i < |groups| - 1 ==> StoresBlock(ReadRows(q[1..]), q, groups, i, Kept(i))
  {
    var n := |groups|;
    var b := SkippedBounds(n);
    var runs := Slices(q[1..], b);
    SkippedRuns(q, groups, runs);
    FlattenSlices(q[1..], b);
    ReadRowsOfRuns(runs, groups);
    StoredRunsAreBlocks(ReadRows(q[1..]), runs[..n - 1], q, groups[..n - 1]);
  }

  /** The runs of the rows after the first are the blocks of the groups, each from its first kept pair on. */
  lemma SkippedRuns(q: seq<Row>, groups: seq<string>, runs: seq<seq<Row>>)
    requires IsReadBlocks(q, groups) && Distinct(groups) && |groups| > 0
    requires runs == Slices(q[1..], SkippedBounds(|groups|))
    ensures IsRunSplit(runs, groups)
    ensures forall i :: 0 <= i < |runs| ==> BlockEntries(RunValues(runs[i]), q, |Timing.SummaryOrder| * i, Kept(i))
  {
    forall i | 0 <= i < |runs|
      ensures IsRunOf(runs[i], groups[i]) && BlockEntries(RunValues(runs[i]), q, |Timing.SummaryOrder| * i, Kept(i))
    {
      SkippedRun(q, groups, i);
      BlockRun(q, groups, i, Kept(i));
    }
  }

  /** A map storing runs that hold the entries of blocks stores those blocks. */
  lemma StoredRunsAreBlocks(m: OMap<string, SummaryResult>, runs: seq<seq<Row>>, q: seq<Row>, gs: seq<string>)
    requires StoresRuns(m, runs, gs)
    requires forall i :: 0 <= i < |runs| ==> BlockEntries(RunValues(runs[i]), q, |Timing.SummaryOrder| * i, Kept(i))
    ensures forall i :: 0 <= i < |gs| ==> StoresBlock(m, q, gs, i, Kept(i))
  {
  }

  /** Run `i` of the rows after the first is block `i` from its first kept pair on. */
  lemma SkippedRun(q: seq<Row>, groups: seq<string>, i: nat)
    requires IsReadBlocks(q, groups) && i < |groups|
    ensures Slices(q[1..], SkippedBounds(|groups|))[i] == BlockFrom(q, i, Kept(i))
  {
    var b := SkippedBounds(|groups|);
    assert b[i] + 1 == |Timing.SummaryOrder| * i + Kept(i) && b[i + 1] + 1 == |Timing.SummaryOrder| * (i + 1);
    assert q[1..][b[i]..b[i + 1]] == q[b[i] + 1..b[i + 1] + 1];
  }

  /** Every written row carries its block's group id, so none holds a comma. */
  lemma WrittenGroupIds(rows: seq<Timing.SummaryRow>, groups: seq<string>)
    requires Timing.IsSummaryFile(rows, groups) && CommaFree(groups)
    ensures forall k :: 0 <= k < |rows| ==> ',' !in rows[k].groupId
  {
    forall k | 0 <= k < |rows|
      ensures ',' !in rows[k].groupId
    {
      var i, t := k / |Timing.SummaryOrder|, k % |Timing.SummaryOrder|;
      assert Timing.SummaryRowAt(rows, groups, i, t);
    }
  }

  /**
   * What `readWholeSummary` returns for the `summary.csv` the handler
   * writes: every group but the last, in order, each holding the values its
   * lines were written with, except that the first group lacks the entry of
   * the very first line.
   */
  lemma ReadWrittenSummary(rows: seq<Timing.SummaryRow>, groups: seq<string>, render: Render, parse: Parser)
    requires Timing.IsSummaryFile(rows, groups) && Readable(render, parse) && CommaFree(groups) && Distinct(groups)
    ensures var r := ReadWholeSummary(SummaryLines(rows, render), parse);
      && r.Success? && Valid(r.value)
      && r.value.keys == (if |groups| == 0 then [] else groups[..|groups| - 1])
      && forall i :: 0 <= i < |groups| - 1 ==> StoresBlock(r.value, ReadBacks(rows, render, parse), groups, i, Kept(i))
  {
    if |groups| > 0 {
      ReadWrittenLines(rows, groups, render, parse);
      WrittenBlocks(rows, groups, render, parse);
      SkippingReadsBlocks(ReadBacks(rows, render, parse), groups);
    }
  }

  /** The reader parses every written line after the first back into its row. */
  lemma ReadWrittenLines(rows: seq<Timing.SummaryRow>, groups: seq<string>, render: Render, parse: Parser)
    requires Timing.IsSummaryFile(rows, groups) && Readable(render, parse) && CommaFree(groups) && |groups| > 0
    ensures ReadWholeSummary(SummaryLines(rows, render), parse) == Success(ReadRows(ReadBacks(rows, render, parse)[1..]))
  {
    WrittenGroupIds(rows, groups);
    ParseSummaryLines(rows[1..], render, parse);
    WrittenTail(rows, render, parse);
  }

  /** Dropping the first line drops the first row read back. */
  lemma WrittenTail(rows: seq<Timing.SummaryRow>, render: Render, parse: Parser)
    requires Readable(render, parse) && |rows| > 0
    ensures SummaryLines(rows, render)[1..] == SummaryLines(rows[1..], render)
    ensures ReadBacks(rows, render, parse)[1..] == ReadBacks(rows[1..], render, parse)
  {
  }

  /** A map read back without its last group nor its first group's first entry. */
  lemma SkippedMapLoses(m: OMap<string, SummaryResult>, q: seq<Row>, groups: seq<string>)
    requires Valid(m) && Distinct(groups) && |groups| >= 2 && m.keys == groups[..|groups| - 1]
    requires StoresBlock(m, q, groups, 0, 1)
    ensures groups[|groups| - 1] !in m.values
    ensures groups[0] in m.values && "ttfb-min" !in m.values[groups[0]].values
  {
    StatKeysDistinct();
    assert forall i :: 0 <= i < |m.keys| ==> m.keys[i] == groups[i] && m.keys[i] != groups[|groups| - 1];
  }

  /**
   * With two groups or more, reading the handler's `summary.csv` drops the
   * last group and the first group's "ttfb-min" entry.
   */
  lemma WrittenSummaryLosesEntries(rows: seq<Timing.SummaryRow>, groups: seq<string>, render: Render, parse: Parser)
    requires Timing.IsSummaryFile(rows, groups) && Readable(render, parse) && CommaFree(groups) && Distinct(groups)
    requires |groups| >= 2
    ensures var r := ReadWholeSummary(SummaryLines(rows, render), parse);
      && r.Success?
      && groups[|groups| - 1] !in r.value.values
      && groups[0] in r.value.values && "ttfb-min" !in r.value.values[groups[0]].values
  {
    ReadWrittenSummary(rows, groups, render, parse);
    var m := ReadWholeSummary(SummaryLines(rows, render), parse).value;
    assert StoresBlock(m, ReadBacks(rows, render, parse), groups, 0, Kept(0));
    SkippedMapLoses(m, ReadBacks(rows, render, parse), groups);
  }

  /** Comparing two such maps: the old side's "ttfb-min" of the first group is the first lookup, and it fails. */
  lemma CompareSkippedMaps(oldMap: OMap<string, SummaryResult>, newMap: OMap<string, SummaryResult>, qo: seq<Row>, qn: seq<Row>, groups: seq<string>)
    requires Valid(oldMap) && Distinct(groups) && |groups| >= 2 && oldMap.keys == groups[..|groups| - 1]
    requires StoresBlock(oldMap, qo, groups, 0, 1) && StoresBlock(newMap, qn, groups, 0, 1)
    ensures Compare(oldMap, newMap) == Report(Header, [], Some(MissingEntry(groups[0], "ttfb-min", OldSide)))
  {
    SkippedMapLoses(oldMap, qo, groups);
    var g := groups[0];
    assert oldMap.keys[0] == g;
    StatKeysDistinct();
    assert PairKey(0) == StatKey(Timing.Ttfb, Timing.Min);
    assert Lookup(oldMap.values[g], Timing.Ttfb, Timing.Min) == Failure("ttfb-min");
    assert GroupDiffs(g, oldMap.values[g], newMap.values[g], 0) == Report(Header, [], Some(MissingEntry(g, "ttfb-min", OldSide)));
  }

  /**
   * Comparing two `summary.csv` files the handler wrote for the same groups:
   * with two groups or more the first lookup, the old side's "ttfb-min" of
   * the first group, fails before any row is written; with fewer the diff
   * holds the header alone.
   */
  lemma ComparingWrittenSummariesFails(oldRows: seq<Timing.SummaryRow>, newRows: seq<Timing.SummaryRow>, groups: seq<string>, render: Render, parse: Parser)
    requires Timing.IsSummaryFile(oldRows, groups) && Timing.IsSummaryFile(newRows, groups)
    requires Readable(render, parse) && CommaFree(groups) && Distinct(groups)
    ensures |groups| >= 2 ==>
      CompareFiles(SummaryLines(oldRows, render), SummaryLines(newRows, render), parse)
        == Success(Report(Header, [], Some(MissingEntry(groups[0], "ttfb-min", OldSide))))
    ensures |groups| < 2 ==>
      CompareFiles(SummaryLines(oldRows, render), SummaryLines(newRows, render), parse) == Success(Report(Header, [], None))
  {
    ReadWrittenSummary(oldRows, groups, render, parse);
    ReadWrittenSummary(newRows, groups, render, parse);
    var oldMap := ReadWholeSummary(SummaryLines(oldRows, render), parse).value;
    var newMap := ReadWholeSummary(SummaryLines(newRows, render), parse).value;
    if |groups| >= 2 {
      var qo, qn := ReadBacks(oldRows, render, parse), ReadBacks(newRows, render, parse);
      assert StoresBlock(oldMap, qo, groups, 0, Kept(0)) && StoresBlock(newMap, qn, groups, 0, Kept(0));
      CompareSkippedMaps(oldMap, newMap, qo, qn, groups);
    }
  }

  /**
   * The intended reader applied to the `summary.csv` the handler writes:
   * every group, in order, with the values all eight of its lines were
   * written with.
   */
  lemma ReadWrittenSummaryIntended(rows: seq<Timing.SummaryRow>, groups: seq<string>, render: Render, parse: Parser)
    requires Timing.IsSummaryFile(rows, groups) && Readable(render, parse) && CommaFree(groups) && Distinct(groups)
    ensures var r := ReadSummaryIntended(SummaryLines(rows, render), parse);
      && r.Success? && Valid(r.value) && r.value.keys == groups
      && forall i :: 0 <= i < |groups| ==> StoresBlock(r.value, ReadBacks(rows, render, parse), groups, i, 0)
  {
    WrittenGroupIds(rows, groups);
    ParseSummaryLines(rows, render, parse);
    WrittenBlocks(rows, groups, render, parse);
    IntendedReadsBlocks(ReadBacks(rows, render, parse), groups);
  }

  /** `main` with the intended reader on both files. */
  function CompareFilesIntended(oldLines: seq<string>, newLines: seq<string>, parse: Parser): Result<Report, ReadError> {
    match ReadSummaryIntended(oldLines, parse)
    case Failure(e) => Failure(e)
    case Success(oldMap) =>
      match ReadSummaryIntended(newLines, parse)
      case Failure(e) => Failure(e)
      case Success(newMap) => Success(Compare(oldMap, newMap))
  }

  /** Diff row `k` holds the differences between the values of line `k` of the old and the new file. */
  ghost predicate DiffOfLines(diffs: seq<DiffRow>, oldRows: seq<Timing.SummaryRow>, newRows: seq<Timing.SummaryRow>, render: Render, parse: Parser, k: int) {
    && Readable(render, parse)
    && 0 <= k < |diffs| && k < |oldRows| && k < |newRows|
    && var ov := ValueOf(oldRows[k], render, parse);
       var nv := ValueOf(newRows[k], render, parse);
       diffs[k] == DiffRow(oldRows[k].groupId, oldRows[k].metric, oldRows[k].stat, AbsDiff(ov, nv), Relative(ov, nv))
  }

  /** Diff row `k` holds the differences between the values of parsed rows `k` of the old and the new file, under the block's group and pair. */
  predicate BlockDiff(diffs: seq<DiffRow>, qo: seq<Row>, qn: seq<Row>, groups: seq<string>, k: int) {
    && 0 <= k < |diffs| && k < |qo| && k < |qn| && k / |Timing.SummaryOrder| < |groups|
    && var (m, s) := Timing.SummaryOrder[k % |Timing.SummaryOrder|];
       diffs[k] == DiffRow(groups[k / |Timing.SummaryOrder|], m, s, AbsDiff(qo[k].value, qn[k].value), Relative(qo[k].value, qn[k].value))
  }

  /** Maps holding every block in full compare without failure, row `k` being the diff of block row `k`. */
  lemma CompareFullMaps(oldMap: OMap<string, SummaryResult>, newMap: OMap<string, SummaryResult>, qo: seq<Row>, qn: seq<Row>, groups: seq<string>)
    requires Valid(oldMap) && oldMap.keys == groups
    requires |qo| == |qn| == |Timing.SummaryOrder| * |groups|
    requires forall i :: 0 <= i < |groups| ==> StoresBlock(oldMap, qo, groups, i, 0) && StoresBlock(newMap, qn, groups, i, 0)
    ensures var r := Compare(oldMap, newMap);
      && r.header == Header && r.failure.None? && |r.rows| == |qo|
      && forall k :: 0 <= k < |qo| ==> BlockDiff(r.rows, qo, qn, groups, k)
  {
    CompareFromRows(oldMap, newMap, 0);
    CompareFromFailure(oldMap, newMap, 0);
    FullMapsComparable(oldMap, newMap, qo, qn, groups);
    FullRowsAreBlockDiffs(Compare(oldMap, newMap), oldMap, newMap, qo, qn, groups);
  }

  /** Maps holding every block in full can be compared. */
  lemma FullMapsComparable(oldMap: OMap<string, SummaryResult>, newMap: OMap<string, SummaryResult>, qo: seq<Row>, qn: seq<Row>, groups: seq<string>)
    requires oldMap.keys == groups
    requires forall i :: 0 <= i < |groups| ==> StoresBlock(oldMap, qo, groups, i, 0) && StoresBlock(newMap, qn, groups, i, 0)
    ensures ComparableFrom(oldMap, newMap, 0)
  {
    forall i, j | 0 <= i < |oldMap.keys| && 0 <= j < |Timing.SummaryOrder|
      ensures HasEntry(oldMap, newMap, oldMap.keys[i], j)
    {
      assert StoresBlock(oldMap, qo, groups, i, 0) && StoresBlock(newMap, qn, groups, i, 0);
    }
  }

  /** The expected rows of maps holding every block in full are the diffs of the block rows. */
  lemma FullRowsAreBlockDiffs(r: Report, oldMap: OMap<string, SummaryResult>, newMap: OMap<string, SummaryResult>, qo: seq<Row>, qn: seq<Row>, groups: seq<string>)
    requires RowsFrom(r, 0, oldMap, newMap) && oldMap.keys == groups
    requires |qo| == |qn| == |r.rows| == |Timing.SummaryOrder| * |groups|
    requires forall i :: 0 <= i < |groups| ==> StoresBlock(oldMap, qo, groups, i, 0) && StoresBlock(newMap, qn, groups, i, 0)
    ensures forall k :: 0 <= k < |qo| ==> BlockDiff(r.rows, qo, qn, groups, k)
  {
    forall k | 0 <= k < |qo|
      ensures BlockDiff(r.rows, qo, qn, groups, k)
    {
      var i, j := k / |Timing.SummaryOrder|, k % |Timing.SummaryOrder|;
      assert k == |Timing.SummaryOrder| * i + j;
      assert RowAt(r.rows, 0, oldMap, newMap, i, j);
      assert StoresBlock(oldMap, qo, groups, i, 0) && StoresBlock(newMap, qn, groups, i, 0);
    }
  }

  /** A block diff row of parsed written rows is the diff of the written lines themselves. */
  lemma BlockDiffOfLines(diffs: seq<DiffRow>, oldRows: seq<Timing.SummaryRow>, newRows: seq<Timing.SummaryRow>, groups: seq<string>, render: Render, parse: Parser, k: int)
    requires Timing.IsSummaryFile(oldRows, groups) && Readable(render, parse)
    requires BlockDiff(diffs, ReadBacks(oldRows, render, parse), ReadBacks(newRows, render, parse), groups, k)
    ensures DiffOfLines(diffs, oldRows, newRows, render, parse, k)
  {
    assert Timing.SummaryRowAt(oldRows, groups, k / |Timing.SummaryOrder|, k % |Timing.SummaryOrder|);
  }

  /**
   * With the intended reader, comparing two `summary.csv` files the handler
   * wrote for the same groups succeeds, and diff row `k` holds the
   * differences between the values of line `k` of the two files.
   */
  lemma ComparingWrittenSummaries(oldRows: seq<Timing.SummaryRow>, newRows: seq<Timing.SummaryRow>, groups: seq<string>, render: Render, parse: Parser)
    requires Timing.IsSummaryFile(oldRows, groups) && Timing.IsSummaryFile(newRows, groups)
    requires Readable(render, parse) && CommaFree(groups) && Distinct(groups)
    ensures var r := CompareFilesIntended(SummaryLines(oldRows, render), SummaryLines(newRows, render), parse);
      && r.Success? && r.value.header == Header && r.value.failure.None?
      && |r.value.rows| == |oldRows|
      && forall k :: 0 <= k < |oldRows| ==> DiffOfLines(r.value.rows, oldRows, newRows, render, parse, k)
  {
    ReadWrittenSummaryIntended(oldRows, groups, render, parse);
    ReadWrittenSummaryIntended(newRows, groups, render, parse);
    var oldMap := ReadSummaryIntended(SummaryLines(oldRows, render), parse).value;
    var newMap := ReadSummaryIntended(SummaryLines(newRows, render), parse).value;
    var qo, qn := ReadBacks(oldRows, render, parse), ReadBacks(newRows, render, parse);
    CompareFullMaps(oldMap, newMap, qo, qn, groups);
    var diffs := Compare(oldMap, newMap).rows;
    forall k | 0 <= k < |oldRows|
      ensures DiffOfLines(diffs, oldRows, newRows, render, parse, k)
    {
      BlockDiffOfLines(diffs, oldRows, newRows, groups, render, parse, k);
    }
  }
}
