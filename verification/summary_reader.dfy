/**
 * `WatDivResultComparator.readWholeSummary`: reads a summary CSV into an
 * insertion-ordered map from group id to `SummaryResult`, by cutting the rows
 * into runs of consecutive rows that share column 0.
 *
 * As written, the reader skips the first line, stores a run only when a row
 * of another group follows it (so the last run is never stored), and lets a
 * later run of a group replace an earlier one in place. Reading the file
 * itself is left abstract: the input is its list of lines, and
 * `String.toDouble` is a parameter.
 */
module SummaryReader {
  import opened Results
  import opened Text
  import opened OrderedMap
  import Timing

  /** `SummaryResult`: one group's `"<metric>-<stat>" -> value` entries. */
  datatype SummaryResult = SummaryResult(groupId: string, values: map<string, real>)

  /** A parsed summary line: group id, key `"col1-col2"` and the number in column 3. */
  datatype Row = Row(groupId: string, key: string, value: real)

  /** Why a line cannot be read: a missing column, or column 3 is not a number. */
  datatype ReadError = MissingColumn(line: string) | NotANumber(text: string)

  /** `String.toDouble`, `None` where it throws. */
  type Parser = string -> Option<real>

  /** The key under which a row is stored: column 1, a dash, column 2. */
  function EntryKey(metric: string, stat: string): string {
    metric + "-" + stat
  }

  /** The key a (metric, stat) pair is written and looked up under, such as "ttfb-min". */
  function StatKey(m: Timing.Metric, s: Timing.Stat): string {
    EntryKey(Timing.MetricName(m), Timing.StatName(s))
  }

  /** The key of the `j`-th (metric, stat) pair of a summary block, such as "ttfb-min" for the first. */
  function PairKey(j: nat): string
    requires j < |Timing.SummaryOrder|
  {
    StatKey(Timing.SummaryOrder[j].0, Timing.SummaryOrder[j].1)
  }

  /** Different (metric, stat) pairs have different keys: both metric names have four letters and differ in the third. */
  lemma StatKeysDiffer(m1: Timing.Metric, s1: Timing.Stat, m2: Timing.Metric, s2: Timing.Stat)
    requires m1 != m2 || s1 != s2
    ensures StatKey(m1, s1) != StatKey(m2, s2)
  {
    var k1, k2 := StatKey(m1, s1), StatKey(m2, s2);
    if m1 != m2 {
      assert k1[2] != k2[2];
    } else {
      assert k1[5..] == Timing.StatName(s1) && k2[5..] == Timing.StatName(s2);
    }
  }

  /** The eight keys of a summary block are pairwise different, and the first is "ttfb-min". */
  lemma StatKeysDistinct()
    ensures PairKey(0) == "ttfb-min"
    ensures forall i, j :: 0 <= i < j < |Timing.SummaryOrder| ==> PairKey(i) != PairKey(j)
  {
    forall i, j | 0 <= i < j < |Timing.SummaryOrder|
      ensures PairKey(i) != PairKey(j)
    {
      StatKeysDiffer(Timing.SummaryOrder[i].0, Timing.SummaryOrder[i].1, Timing.SummaryOrder[j].0, Timing.SummaryOrder[j].1);
    }
  }

  /**
   * `row.split(",")`, then `columns[0]`, `"${columns[1]}-${columns[2]}"` and
   * `columns[3].toDouble()`.
   */
  function ParseLine(line: string, parse: Parser): (r: Result<Row, ReadError>)
    ensures r.Success? <==> |Split(line, ',')| >= 4 && parse(Split(line, ',')[3]).Some?
    ensures r.Success? ==> r.value.groupId == Split(line, ',')[0]
  {
    var cols := Split(line, ',');
    if |cols| < 4 then Failure(MissingColumn(line))
    else
      match parse(cols[3])
      case None => Failure(NotANumber(cols[3]))
      case Some(v) => Success(Row(cols[0], EntryKey(cols[1], cols[2]), v))
  }

  /** A line written as four comma-free fields is read back as those fields. */
  lemma ParseWrittenLine(g: string, metric: string, stat: string, text: string, parse: Parser)
    requires ',' !in g && ',' !in metric && ',' !in stat && ',' !in text
    requires parse(text).Some?
    ensures ParseLine(g + "," + metric + "," + stat + "," + text, parse) ==
      Success(Row(g, EntryKey(metric, stat), parse(text).value))
  {
    var parts := [g, metric, stat, text];
    assert Join(parts, ',') == g + "," + metric + "," + stat + "," + text by {
      assert Join(parts[3..], ',') == text;
      assert Join(parts[2..], ',') == stat + "," + text;
      assert Join(parts[1..], ',') == metric + "," + stat + "," + text;
    }
    SplitJoin(parts, ',');
  }

  /** Line `i` is read as row `i`. */
  predicate ParsedAs(lines: seq<string>, rows: seq<Row>, parse: Parser, i: int) {
    0 <= i < |lines| && i < |rows| && ParseLine(lines[i], parse) == Success(rows[i])
  }

  /** Line `i` cannot be read. */
  predicate Unreadable(lines: seq<string>, parse: Parser, i: int) {
    0 <= i < |lines| && ParseLine(lines[i], parse).Failure?
  }

  /** Every line parsed, in order; the first unreadable line raises. */
  function ParseLines(lines: seq<string>, parse: Parser): (r: Result<seq<Row>, ReadError>)
    ensures r.Success? ==> |r.value| == |lines|
    ensures r.Success? ==> forall i :: 0 <= i < |lines| ==> ParsedAs(lines, r.value, parse, i)
    ensures r.Failure? ==> exists i :: 0 <= i < |lines| && Unreadable(lines, parse, i)
  {
    if |lines| == 0 then Success([])
    else
      match ParseLine(lines[0], parse)
      case Failure(e) =>
        assert Unreadable(lines, parse, 0);
        Failure(e)
      case Success(row) =>
        match ParseLines(lines[1..], parse)
        case Failure(e) =>
          UnreadableLater(lines, parse);
          Failure(e)
        case Success(rest) =>
          assert ([row] + rest)[1..] == rest;
          ParsedLater(lines, [row] + rest, parse);
          Success([row] + rest)
  }

  /** An unreadable line after the first is an unreadable line of the whole list. */
  lemma UnreadableLater(lines: seq<string>, parse: Parser)
    requires |lines| > 0
    requires exists i :: 0 <= i < |lines| - 1 && Unreadable(lines[1..], parse, i)
    ensures exists i :: 0 <= i < |lines| && Unreadable(lines, parse, i)
  {
    var i :| 0 <= i < |lines| - 1 && Unreadable(lines[1..], parse, i);
    assert Unreadable(lines, parse, i + 1);
  }

  /** The first line read as the first row and the rest read as the rest: every line is read as its row. */
  lemma ParsedLater(lines: seq<string>, rows: seq<Row>, parse: Parser)
    requires |lines| > 0 && |rows| == |lines|
    requires ParsedAs(lines, rows, parse, 0)
    requires forall i :: 0 <= i < |lines| - 1 ==> ParsedAs(lines[1..], rows[1..], parse, i)
    ensures forall i :: 0 <= i < |lines| ==> ParsedAs(lines, rows, parse, i)
  {
    forall i | 1 <= i < |lines|
      ensures ParsedAs(lines, rows, parse, i)
    {
      assert ParsedAs(lines[1..], rows[1..], parse, i - 1);
    }
  }

  /** The loop variables of `readWholeSummary`: the map so far and the run being collected. */
  datatype ScanState = ScanState(stored: OMap<string, SummaryResult>, current: Option<SummaryResult>)

  /** One iteration of the loop over rows. */
  function Step(st: ScanState, row: Row): (r: ScanState)
    requires Valid(st.stored)
    ensures Valid(r.stored)
  {
    match st.current
    case Some(cur) =>
      if cur.groupId == row.groupId then
        ScanState(st.stored, Some(SummaryResult(cur.groupId, cur.values[row.key := row.value])))
      else
        ScanState(Put(st.stored, cur.groupId, cur), Some(SummaryResult(row.groupId, map[row.key := row.value])))
    case None =>
      ScanState(st.stored, Some(SummaryResult(row.groupId, map[row.key := row.value])))
  }

  /** The loop state after the given rows. */
  function Scan(rows: seq<Row>): (r: ScanState)
    ensures Valid(r.stored)
  {
    if |rows| == 0 then ScanState(Empty(), None)
    else Step(Scan(rows[..|rows| - 1]), rows[|rows| - 1])
  }

  /** The map `readWholeSummary` returns for the rows after the first line. */
  function ReadRows(rows: seq<Row>): OMap<string, SummaryResult> {
    Scan(rows).stored
  }

  /** `readWholeSummary`: the first line is skipped, whatever it holds. */
  function ReadWholeSummary(lines: seq<string>, parse: Parser): Result<OMap<string, SummaryResult>, ReadError> {
    var body := if |lines| == 0 then [] else lines[1..];
    match ParseLines(body, parse)
    case Failure(e) => Failure(e)
    case Success(rows) => Success(ReadRows(rows))
  }

  /**
   * Where the final run starts: the rows from there on share the last row's
   * group, and the row before it, if any, belongs to another group.
   */
  function LastRunStart(rows: seq<Row>): (k: nat)
    requires |rows| > 0
    ensures k < |rows|
    ensures forall i :: k <= i < |rows| ==> rows[i].groupId == rows[|rows| - 1].groupId
    ensures k > 0 ==> rows[k - 1].groupId != rows[|rows| - 1].groupId
  {
    var last := rows[|rows| - 1];
    if |rows| == 1 || rows[|rows| - 2].groupId != last.groupId then |rows| - 1
    else LastRunStart(rows[..|rows| - 1])
  }

  /** The final run: the longest suffix of `rows` whose rows share the last row's group. */
  function LastRun(rows: seq<Row>): seq<Row>
    requires |rows| > 0
  {
    rows[LastRunStart(rows)..]
  }

  /** Row `i` of the run is its last row to set that key. */
  predicate LastOfKey(run: seq<Row>, i: int) {
    0 <= i < |run| && forall j :: i < j < |run| ==> run[j].key != run[i].key
  }

  /** The entries of a run: each row sets its key, and a repeated key keeps the last value. */
  function RunValues(run: seq<Row>): (r: map<string, real>)
    ensures forall key :: key in r <==> exists i :: 0 <= i < |run| && run[i].key == key
  {
    if |run| == 0 then map[]
    else
      var prefix := run[..|run| - 1];
      var last := run[|run| - 1];
      assert forall i :: 0 <= i < |prefix| ==> prefix[i] == run[i];
      RunValues(prefix)[last.key := last.value]
  }

  /** The entry of a key is the value of the last row of the run that sets it. */
  lemma {:induction false} RunValuesLastWins(run: seq<Row>, i: int)
    requires LastOfKey(run, i)
    ensures run[i].key in RunValues(run) && RunValues(run)[run[i].key] == run[i].value
    decreases |run|
  {
    var prefix := run[..|run| - 1];
    var last := run[|run| - 1];
    if i < |run| - 1 {
      assert run[i].key != last.key;
      assert LastOfKey(prefix, i) by {
        assert forall j :: i < j < |prefix| ==> prefix[j] == run[j];
      }
      RunValuesLastWins(prefix, i);
      assert prefix[i] == run[i];
    }
  }

  /** The run being collected is always the final run of the rows read so far. */
  lemma {:induction false} ScanTracksLastRun(rows: seq<Row>)
    requires |rows| > 0
    ensures Scan(rows).current == Some(SummaryResult(rows[|rows| - 1].groupId, RunValues(LastRun(rows))))
    decreases |rows|
  {
    if |rows| == 1 || rows[|rows| - 2].groupId != rows[|rows| - 1].groupId {
      ScanStartsRun(rows);
    } else {
      ScanTracksLastRun(rows[..|rows| - 1]);
      ScanContinuesRun(rows);
    }
  }

  /** A row of another group than the row before starts a new run of its own. */
  lemma ScanStartsRun(rows: seq<Row>)
    requires |rows| > 0
    requires |rows| == 1 || rows[|rows| - 2].groupId != rows[|rows| - 1].groupId
    ensures Scan(rows).current == Some(SummaryResult(rows[|rows| - 1].groupId, RunValues(LastRun(rows))))
  {
    var prefix, last := rows[..|rows| - 1], rows[|rows| - 1];
    if |rows| > 1 {
      ScanCurrentGroup(prefix);
    }
    assert Scan(rows) == Step(Scan(prefix), last);
    SingleLastRun(rows);
    RunValuesOfOne(last);
  }

  /** A row of another group than the row before is a final run on its own. */
  lemma SingleLastRun(rows: seq<Row>)
    requires |rows| > 0
    requires |rows| == 1 || rows[|rows| - 2].groupId != rows[|rows| - 1].groupId
    ensures LastRun(rows) == [rows[|rows| - 1]]
  {
  }

  /** The entries of a one-row run. */
  lemma RunValuesOfOne(r: Row)
    ensures RunValues([r]) == map[r.key := r.value]
  {
    assert [r][..0] == [];
  }

  /** After at least one row a run is being collected, of the last row's group. */
  lemma ScanCurrentGroup(rows: seq<Row>)
    requires |rows| > 0
    ensures Scan(rows).current.Some? && Scan(rows).current.value.groupId == rows[|rows| - 1].groupId
  {
    assert Scan(rows) == Step(Scan(rows[..|rows| - 1]), rows[|rows| - 1]);
  }

  /** A row of the same group as the row before extends the run being collected. */
  lemma ScanContinuesRun(rows: seq<Row>)
    requires |rows| > 1 && rows[|rows| - 2].groupId == rows[|rows| - 1].groupId
    requires var prefix := rows[..|rows| - 1];
      Scan(prefix).current == Some(SummaryResult(prefix[|prefix| - 1].groupId, RunValues(LastRun(prefix))))
    ensures Scan(rows).current == Some(SummaryResult(rows[|rows| - 1].groupId, RunValues(LastRun(rows))))
  {
    var prefix := rows[..|rows| - 1];
    var k := LastRunStart(prefix);
    assert LastRunStart(rows) == k;
    assert LastRun(rows) == LastRun(prefix) + [rows[|rows| - 1]];
    assert LastRun(rows)[..|LastRun(rows)| - 1] == LastRun(prefix);
  }

  /** A row that continues the final run changes nothing in the returned map. */
  lemma ContinuingRunStoresNothing(rows: seq<Row>, r: Row)
    requires |rows| > 0 && r.groupId == rows[|rows| - 1].groupId
    ensures ReadRows(rows + [r]) == ReadRows(rows)
  {
    ScanTracksLastRun(rows);
    assert (rows + [r])[..|rows|] == rows;
  }

  /**
   * A row of another group stores the final run so far under its group:
   * a new group is appended to the key order, a group seen before keeps its
   * position and gets the new run's entries.
   */
  lemma NewRunStoresPrevious(rows: seq<Row>, r: Row)
    requires |rows| > 0 && r.groupId != rows[|rows| - 1].groupId
    ensures var g := rows[|rows| - 1].groupId;
      ReadRows(rows + [r]) == Put(ReadRows(rows), g, SummaryResult(g, RunValues(LastRun(rows))))
  {
    ScanTracksLastRun(rows);
    assert (rows + [r])[..|rows|] == rows;
  }

  /** Reading a single row stores nothing. */
  lemma OneRowReadsEmpty(r: Row)
    ensures ReadRows([r]) == Empty()
  {
    assert [r][..0] == [];
    assert Scan([r]) == Step(Scan([]), r);
    assert Scan([]) == ScanState(Empty(), None);
  }

  /** Rows that all belong to one group (at most one run) give an empty map. */
  lemma {:induction false} OneRunReadsEmpty(rows: seq<Row>)
    requires forall i :: 0 <= i < |rows| ==> rows[i].groupId == rows[0].groupId
    ensures ReadRows(rows) == Empty()
    decreases |rows|
  {
    if |rows| > 1 {
      var prefix := rows[..|rows| - 1];
      OneRunReadsEmpty(prefix);
      ContinuingRunStoresNothing(prefix, rows[|rows| - 1]);
      assert prefix + [rows[|rows| - 1]] == rows;
    } else if |rows| == 1 {
      OneRowReadsEmpty(rows[0]);
      assert rows == [rows[0]];
    }
  }

  /** Rows that continue the final run, however many, change nothing in the returned map. */
  lemma {:induction false} ContinuingRowsStoreNothing(rows: seq<Row>, more: seq<Row>)
    requires |rows| > 0
    requires forall i :: 0 <= i < |more| ==> more[i].groupId == rows[|rows| - 1].groupId
    ensures ReadRows(rows + more) == ReadRows(rows)
    decreases |more|
  {
    if |more| == 0 {
      assert rows + more == rows;
    } else {
      var front, last := more[..|more| - 1], more[|more| - 1];
      ContinuingRowsStoreNothing(rows, front);
      var all := rows + front;
      assert all[|all| - 1].groupId == rows[|rows| - 1].groupId;
      ContinuingRunStoresNothing(all, last);
      assert all + [last] == rows + more;
    }
  }

  /**
   * The final run never reaches the map: whatever rows the final run holds,
   * the result is the same, because only the start of a following run would
   * store it.
   */
  lemma FinalRunNeverStored(prefix: seq<Row>, run1: seq<Row>, run2: seq<Row>, g: string)
    requires |run1| > 0 && |run2| > 0
    requires forall i :: 0 <= i < |run1| ==> run1[i].groupId == g
    requires forall i :: 0 <= i < |run2| ==> run2[i].groupId == g
    requires |prefix| == 0 || prefix[|prefix| - 1].groupId != g
    ensures ReadRows(prefix + run1) == ReadRows(prefix + run2)
  {
    assert prefix + run1 == (prefix + [run1[0]]) + run1[1..];
    assert prefix + run2 == (prefix + [run2[0]]) + run2[1..];
    ContinuingRowsStoreNothing(prefix + [run1[0]], run1[1..]);
    ContinuingRowsStoreNothing(prefix + [run2[0]], run2[1..]);
    if |prefix| == 0 {
      OneRowReadsEmpty(run1[0]);
      OneRowReadsEmpty(run2[0]);
      assert prefix + [run1[0]] == [run1[0]];
      assert prefix + [run2[0]] == [run2[0]];
    } else {
      NewRunStoresPrevious(prefix, run1[0]);
      NewRunStoresPrevious(prefix, run2[0]);
    }
  }

  /** The first line of the file is discarded whatever its content. */
  lemma FirstLineDiscarded(first: string, other: string, rest: seq<string>, parse: Parser)
    ensures ReadWholeSummary([first] + rest, parse) == ReadWholeSummary([other] + rest, parse)
  {
    assert ([first] + rest)[1..] == rest;
    assert ([other] + rest)[1..] == rest;
  }

  /** A `SummaryResult` accessor such as `minTTFB()`: `values[key]!!`, failing on an absent key. */
  function Lookup(result: SummaryResult, m: Timing.Metric, s: Timing.Stat): (r: Result<real, string>)
    ensures r.Success? <==> StatKey(m, s) in result.values
    ensures r.Success? ==> r.value == result.values[StatKey(m, s)]
    ensures r.Failure? ==> r.error == StatKey(m, s)
  {
    var key := StatKey(m, s);
    if key in result.values then Success(result.values[key]) else Failure(key)
  }
}
