/**
 * What `readWholeSummary` returns for rows made of runs of distinct groups,
 * and the reader as evidently intended: the same loop, but the run being
 * collected when the rows end is stored as well, and no line is skipped.
 */
module SummaryRuns {
  import opened Results
  import opened OrderedMap
  import opened SummaryReader

  /** The rows of consecutive runs, one after the other. */
  function Flatten(runs: seq<seq<Row>>): seq<Row> {
    if |runs| == 0 then [] else Flatten(runs[..|runs| - 1]) + runs[|runs| - 1]
  }

  /** `runs` are non-empty runs of the pairwise different groups `gs`: run `i` holds only rows of `gs[i]`. */
  predicate IsRunSplit(runs: seq<seq<Row>>, gs: seq<string>) {
    && |runs| == |gs|
    && (forall i :: 0 <= i < |runs| ==> IsRunOf(runs[i], gs[i]))
    && (forall i, j :: 0 <= i < j < |gs| ==> gs[i] != gs[j])
  }

  /** A non-empty run of rows of group `g`. */
  predicate IsRunOf(run: seq<Row>, g: string) {
    |run| > 0 && forall k :: 0 <= k < |run| ==> run[k].groupId == g
  }

  /** `m` has exactly the groups `gs`, in that order, each holding the entries of its run. */
  predicate StoresRuns(m: OMap<string, SummaryResult>, runs: seq<seq<Row>>, gs: seq<string>) {
    && Valid(m)
    && |runs| == |gs|
    && m.keys == gs
    && forall i :: 0 <= i < |gs| ==> gs[i] in m.values && m.values[gs[i]] == SummaryResult(gs[i], RunValues(runs[i]))
  }

  /** A run of one group that follows rows of another group is the final run. */
  lemma LastRunOfRuns(prefix: seq<Row>, run: seq<Row>, g: string)
    requires |run| > 0
    requires forall k :: 0 <= k < |run| ==> run[k].groupId == g
    requires |prefix| == 0 || prefix[|prefix| - 1].groupId != g
    ensures LastRun(prefix + run) == run
  {
    var rows := prefix + run;
    var k := LastRunStart(rows);
    assert rows[|rows| - 1] == run[|run| - 1];
    assert forall i :: |prefix| <= i < |rows| ==> rows[i] == run[i - |prefix|];
    assert |prefix| > 0 ==> rows[|prefix| - 1] == prefix[|prefix| - 1];
    assert k == |prefix|;
    assert rows[|prefix|..] == run;
  }

  /** Appending one more run of a new group to a valid map's groups. */
  lemma StoreNextRun(m: OMap<string, SummaryResult>, runs: seq<seq<Row>>, gs: seq<string>, run: seq<Row>, g: string)
    requires StoresRuns(m, runs, gs)
    requires forall i :: 0 <= i < |gs| ==> gs[i] != g
    ensures StoresRuns(Put(m, g, SummaryResult(g, RunValues(run))), runs + [run], gs + [g])
  {
    assert g !in m.values by {
      assert m.values.Keys == set i | 0 <= i < |m.keys| :: m.keys[i];
    }
    var m' := Put(m, g, SummaryResult(g, RunValues(run)));
    forall i | 0 <= i < |gs + [g]|
      ensures (gs + [g])[i] in m'.values && m'.values[(gs + [g])[i]] == SummaryResult((gs + [g])[i], RunValues((runs + [run])[i]))
    {
      if i < |gs| {
        assert (gs + [g])[i] == gs[i] && (runs + [run])[i] == runs[i];
      }
    }
  }

  lemma SnocSlice<T>(s: seq<T>, k: nat)
    requires k < |s|
    ensures s[..k] + [s[k]] == s[..k + 1]
  {
  }

  /**
   * The step of the reader over one more run: the run before it is stored
   * under its group, and the new run becomes the final one.
   */
  lemma ReadNextRun(rows: seq<Row>, run: seq<Row>, runs: seq<seq<Row>>, gs: seq<string>, g: string, h: string)
    requires StoresRuns(ReadRows(rows), runs, gs)
    requires |rows| > 0 && rows[|rows| - 1].groupId == g
    requires forall i :: 0 <= i < |gs| ==> gs[i] != g
    requires |run| > 0 && h != g
    requires forall k :: 0 <= k < |run| ==> run[k].groupId == h
    ensures StoresRuns(ReadRows(rows + run), runs + [LastRun(rows)], gs + [g])
    ensures LastRun(rows + run) == run
  {
    var first := run[0];
    assert (rows + [first]) + run[1..] == rows + run;
    LastRunOfRuns(rows, run, h);
    NewRunStoresPrevious(rows, first);
    StoreNextRun(ReadRows(rows), runs, gs, LastRun(rows), g);
    ContinuingRowsStoreNothing(rows + [first], run[1..]);
  }

  /** The last row of runs of the groups `gs` belongs to the last group. */
  lemma FlattenLastGroup(runs: seq<seq<Row>>, gs: seq<string>)
    requires IsRunSplit(runs, gs) && |runs| > 0
    ensures |Flatten(runs)| > 0 && Flatten(runs)[|Flatten(runs)| - 1].groupId == gs[|gs| - 1]
  {
    var n := |runs|;
    assert Flatten(runs) == Flatten(runs[..n - 1]) + runs[n - 1];
    assert IsRunOf(runs[n - 1], gs[n - 1]);
  }

  /** The final run of runs of pairwise different groups is the last run. */
  lemma LastRunOfFlatten(runs: seq<seq<Row>>, gs: seq<string>)
    requires IsRunSplit(runs, gs) && |runs| > 0
    ensures LastRun(Flatten(runs)) == runs[|runs| - 1]
  {
    var n := |runs|;
    var pre := runs[..n - 1];
    assert Flatten(runs) == Flatten(pre) + runs[n - 1];
    assert IsRunOf(runs[n - 1], gs[n - 1]);
    if n > 1 {
      assert IsRunSplit(pre, gs[..n - 1]);
      FlattenLastGroup(pre, gs[..n - 1]);
    }
    LastRunOfRuns(Flatten(pre), runs[n - 1], gs[n - 1]);
  }

  /** The induction step of `ReadRowsOfRuns`: one more run stores the run before it. */
  lemma ReadRowsOfRunsStep(runs: seq<seq<Row>>, gs: seq<string>)
    requires IsRunSplit(runs, gs) && |runs| >= 2
    requires StoresRuns(ReadRows(Flatten(runs[..|runs| - 1])), runs[..|runs| - 2], gs[..|gs| - 2])
    ensures StoresRuns(ReadRows(Flatten(runs)), runs[..|runs| - 1], gs[..|gs| - 1])
  {
    var n := |runs|;
    LastTwoRuns(runs, gs, gs[..n - 2]);
    ReadNextRun(Flatten(runs[..n - 1]), runs[n - 1], runs[..n - 2], gs[..n - 2], gs[n - 2], gs[n - 1]);
    SnocSlice(runs, n - 2);
    SnocSlice(gs, n - 2);
  }

  /** What the step over the last run needs to know about the runs before it. */
  lemma LastTwoRuns(runs: seq<seq<Row>>, gs: seq<string>, earlier: seq<string>)
    requires IsRunSplit(runs, gs) && |runs| >= 2 && earlier == gs[..|runs| - 2]
    ensures Flatten(runs) == Flatten(runs[..|runs| - 1]) + runs[|runs| - 1]
    ensures |Flatten(runs[..|runs| - 1])| > 0
    ensures Flatten(runs[..|runs| - 1])[|Flatten(runs[..|runs| - 1])| - 1].groupId == gs[|runs| - 2]
    ensures LastRun(Flatten(runs[..|runs| - 1])) == runs[|runs| - 2]
    ensures forall i :: 0 <= i < |earlier| ==> earlier[i] != gs[|runs| - 2]
    ensures IsRunOf(runs[|runs| - 1], gs[|runs| - 1]) && gs[|runs| - 1] != gs[|runs| - 2]
  {
    var n := |runs|;
    var pre := runs[..n - 1];
    assert Flatten(runs) == Flatten(pre) + runs[n - 1];
    assert IsRunOf(runs[n - 1], gs[n - 1]);
    assert IsRunSplit(pre, gs[..n - 1]);
    FlattenLastGroup(pre, gs[..n - 1]);
    LastRunOfFlatten(pre, gs[..n - 1]);
  }

  /**
   * As written, the reader stores every run but the final one: the map
   * lists the groups of all runs but the last, in order, each with the
   * entries of its run.
   */
  lemma {:induction false} ReadRowsOfRuns(runs: seq<seq<Row>>, gs: seq<string>)
    requires IsRunSplit(runs, gs) && |runs| > 0
    ensures StoresRuns(ReadRows(Flatten(runs)), runs[..|runs| - 1], gs[..|gs| - 1])
    decreases |runs|
  {
    var n := |runs|;
    if n == 1 {
      assert Flatten(runs) == Flatten(runs[..0]) + runs[0];
      assert Flatten(runs) == runs[0] && IsRunOf(runs[0], gs[0]);
      OneRunReadsEmpty(runs[0]);
      assert runs[..0] == [] && gs[..0] == [];
    } else {
      var pre, gs' := runs[..n - 1], gs[..n - 1];
      assert IsRunSplit(pre, gs');
      ReadRowsOfRuns(pre, gs');
      assert pre[..n - 2] == runs[..n - 2] && gs'[..n - 2] == gs[..n - 2];
      ReadRowsOfRunsStep(runs, gs);
    }
  }

  /** The reader as evidently intended: after the loop, the run being collected is stored too. */
  function ReadRowsIntended(rows: seq<Row>): OMap<string, SummaryResult> {
    var st := Scan(rows);
    match st.current
    case None => st.stored
    case Some(cur) => Put(st.stored, cur.groupId, cur)
  }

  /** The intended reader stores every run, the final one included, in order. */
  lemma IntendedReadsEveryRun(runs: seq<seq<Row>>, gs: seq<string>)
    requires IsRunSplit(runs, gs)
    ensures StoresRuns(ReadRowsIntended(Flatten(runs)), runs, gs)
  {
    var n := |runs|;
    if n > 0 {
      ReadRowsOfRuns(runs, gs);
      FlattenLastGroup(runs, gs);
      LastRunOfFlatten(runs, gs);
      ScanTracksLastRun(Flatten(runs));
      StoreNextRun(ReadRows(Flatten(runs)), runs[..n - 1], gs[..n - 1], runs[n - 1], gs[n - 1]);
      SnocSlice(runs, n - 1);
      SnocSlice(gs, n - 1);
      assert runs[..n] == runs && gs[..n] == gs;
    }
  }

  /** `readWholeSummary` as evidently intended: every line is a row, and the final run is stored. */
  function ReadSummaryIntended(lines: seq<string>, parse: Parser): Result<OMap<string, SummaryResult>, ReadError> {
    match ParseLines(lines, parse)
    case Failure(e) => Failure(e)
    case Success(rows) => Success(ReadRowsIntended(rows))
  }
}
