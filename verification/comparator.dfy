/**
 * `WatDivResultComparator.main`: for every group of the old summary, in the
 * old map's key order, eight diff rows (ttfb min/mean/std/max, then ttlb
 * min/mean/std/max), each holding the absolute and the relative difference
 * between the old and the new value. The rows are written as they are
 * computed, so a failing lookup leaves the rows before it in the output.
 * Number formatting (`%.4f`) is left out.
 */
module Comparator {
  import opened Results
  import opened OrderedMap
  import opened SummaryReader
  import Timing

  /** The first line of the diff file. */
  const Header: string := "Query template,Time type, Stat type, Difference (abs.), Difference (%)"

  /** `computeAbsDiff`: old minus new. */
  function AbsDiff(oldValue: real, newValue: real): real {
    oldValue - newValue
  }

  /** `computeRelDiff`: the change from new to old in percent of new. */
  function RelDiff(oldValue: real, newValue: real): real
    requires newValue != 0.0
  {
    (oldValue / newValue - 1.0) * 100.0
  }

  /** The absolute difference is what must be added to the new value to get the old one. */
  lemma AbsDiffMeaning(oldValue: real, newValue: real)
    ensures newValue + AbsDiff(oldValue, newValue) == oldValue
    ensures AbsDiff(oldValue, newValue) == 0.0 <==> oldValue == newValue
  {
  }

  /**
   * The relative difference is the percentage by which the new value must
   * grow to reach the old one; it is zero exactly when both are equal.
   */
  lemma RelDiffMeaning(oldValue: real, newValue: real)
    requires newValue != 0.0
    ensures newValue * (1.0 + RelDiff(oldValue, newValue) / 100.0) == oldValue
    ensures RelDiff(oldValue, newValue) == 0.0 <==> oldValue == newValue
  {
    var q := oldValue / newValue;
    assert q * newValue == oldValue;
    assert 1.0 + RelDiff(oldValue, newValue) / 100.0 == q;
  }

  /** A relative difference as the JVM computes it: infinite or NaN when the new value is zero. */
  datatype Percent = Finite(percent: real) | NonFinite

  function Relative(oldValue: real, newValue: real): Percent {
    if newValue == 0.0 then NonFinite else Finite(RelDiff(oldValue, newValue))
  }

  /** A line of the diff file after the header. */
  datatype DiffRow = DiffRow(groupId: string, metric: Timing.Metric, stat: Timing.Stat, abs: real, rel: Percent)

  /** Which of the two summaries a lookup failed on. */
  datatype Side = OldSide | NewSide

  /** `getValue` on the new map, or a `values[key]!!` accessor, failing. */
  datatype CompareError =
    | MissingGroup(groupId: string)
    | MissingEntry(groupId: string, key: string, side: Side)

  /** The diff file: the header, the rows written, and the failure that ended the run, if any. */
  datatype Report = Report(header: string, rows: seq<DiffRow>, failure: Option<CompareError>)

  /** The row for the `j`-th (metric, stat) pair of group `g`. */
  function DiffFor(g: string, o: SummaryResult, n: SummaryResult, j: nat): Result<DiffRow, CompareError>
    requires j < |Timing.SummaryOrder|
  {
    var (m, s) := Timing.SummaryOrder[j];
    match Lookup(o, m, s)
    case Failure(key) => Failure(MissingEntry(g, key, OldSide))
    case Success(ov) =>
      match Lookup(n, m, s)
      case Failure(key) => Failure(MissingEntry(g, key, NewSide))
      case Success(nv) => Success(DiffRow(g, m, s, AbsDiff(ov, nv), Relative(ov, nv)))
  }

  /** The rows of group `g` from the `j`-th pair on; the first failing lookup stops them. */
  function GroupDiffs(g: string, o: SummaryResult, n: SummaryResult, j: nat): (r: Report)
    requires j <= |Timing.SummaryOrder|
    decreases |Timing.SummaryOrder| - j
  {
    if j == |Timing.SummaryOrder| then Report(Header, [], None)
    else
      match DiffFor(g, o, n, j)
      case Failure(e) => Report(Header, [], Some(e))
      case Success(row) =>
        var rest := GroupDiffs(g, o, n, j + 1);
        Report(Header, [row] + rest.rows, rest.failure)
  }

  /** The rows of the old map's groups from the `i`-th on. */
  function CompareFrom(oldMap: OMap<string, SummaryResult>, newMap: OMap<string, SummaryResult>, i: nat): (r: Report)
    requires Valid(oldMap) && i <= |oldMap.keys|
    decreases |oldMap.keys| - i
  {
    if i == |oldMap.keys| then Report(Header, [], None)
    else
      var g := oldMap.keys[i];
      if g !in newMap.values then Report(Header, [], Some(MissingGroup(g)))
      else
        var block := GroupDiffs(g, oldMap.values[g], newMap.values[g], 0);
        if block.failure.Some? then block
        else
          var rest := CompareFrom(oldMap, newMap, i + 1);
          Report(Header, block.rows + rest.rows, rest.failure)
  }

  /** The body of `main` once both summaries are read. */
  function Compare(oldMap: OMap<string, SummaryResult>, newMap: OMap<string, SummaryResult>): Report
    requires Valid(oldMap)
  {
    CompareFrom(oldMap, newMap, 0)
  }

  /** The `j`-th pair can be looked up in both results. */
  predicate PairIn(o: SummaryResult, n: SummaryResult, j: int) {
    0 <= j < |Timing.SummaryOrder| && PairKey(j) in o.values && PairKey(j) in n.values
  }

  /** The diff row of the `j`-th pair of group `g`. */
  function ExpectedRow(g: string, o: SummaryResult, n: SummaryResult, j: int): DiffRow
    requires PairIn(o, n, j)
  {
    var ov := o.values[PairKey(j)];
    var nv := n.values[PairKey(j)];
    DiffRow(g, Timing.SummaryOrder[j].0, Timing.SummaryOrder[j].1, AbsDiff(ov, nv), Relative(ov, nv))
  }

  /** The (metric, stat) pair `j` of group `g` can be looked up on both sides. */
  predicate HasEntry(oldMap: OMap<string, SummaryResult>, newMap: OMap<string, SummaryResult>, g: string, j: int) {
    g in oldMap.values && g in newMap.values && PairIn(oldMap.values[g], newMap.values[g], j)
  }

  /** The diff row expected for pair `j` of group `g`. */
  function Expected(oldMap: OMap<string, SummaryResult>, newMap: OMap<string, SummaryResult>, g: string, j: int): DiffRow
    requires HasEntry(oldMap, newMap, g, j)
  {
    ExpectedRow(g, oldMap.values[g], newMap.values[g], j)
  }

  /** Every group of the old map exists in the new one, with all eight entries on both sides. */
  predicate Comparable(oldMap: OMap<string, SummaryResult>, newMap: OMap<string, SummaryResult>) {
    forall i, j :: 0 <= i < |oldMap.keys| && 0 <= j < |Timing.SummaryOrder| ==> HasEntry(oldMap, newMap, oldMap.keys[i], j)
  }

  /** Row `8 * (i - base) + j` of `rows` is the expected row for pair `j` of the old map's `i`-th group. */
  predicate RowAt(rows: seq<DiffRow>, base: int, oldMap: OMap<string, SummaryResult>, newMap: OMap<string, SummaryResult>, i: int, j: int) {
    && 0 <= base <= i < |oldMap.keys|
    && 0 <= |Timing.SummaryOrder| * (i - base) + j < |rows|
    && HasEntry(oldMap, newMap, oldMap.keys[i], j)
    && rows[|Timing.SummaryOrder| * (i - base) + j] == Expected(oldMap, newMap, oldMap.keys[i], j)
  }

  /**
   * The failure of a pair that is not in both results: its key, on the old
   * side when the old result lacks it (that lookup comes first), otherwise
   * on the new side.
   */
  function Miss(g: string, o: SummaryResult, n: SummaryResult, j: nat): CompareError
    requires j < |Timing.SummaryOrder|
  {
    MissingEntry(g, PairKey(j), if PairKey(j) !in o.values then OldSide else NewSide)
  }

  /** The failure a report ends with is the lookup that fails at the position right after its rows. */
  predicate FailsAfter(rows: seq<DiffRow>, base: int, oldMap: OMap<string, SummaryResult>, newMap: OMap<string, SummaryResult>, e: CompareError) {
    match e
    case MissingGroup(g) =>
      exists i :: 0 <= base <= i < |oldMap.keys| && oldMap.keys[i] == g
        && |rows| == |Timing.SummaryOrder| * (i - base) && g !in newMap.values
    case MissingEntry(g, key, side) =>
      exists i, j :: 0 <= base <= i < |oldMap.keys| && 0 <= j < |Timing.SummaryOrder| && oldMap.keys[i] == g
        && |rows| == |Timing.SummaryOrder| * (i - base) + j
        && g in oldMap.values && g in newMap.values
        && !PairIn(oldMap.values[g], newMap.values[g], j) && e == Miss(g, oldMap.values[g], newMap.values[g], j)
  }

  /** One pair: its row when both lookups succeed, otherwise the first failing lookup. */
  lemma DiffForSpec(g: string, o: SummaryResult, n: SummaryResult, j: nat)
    requires j < |Timing.SummaryOrder|
    ensures DiffFor(g, o, n, j).Success? <==> PairIn(o, n, j)
    ensures DiffFor(g, o, n, j).Success? ==> DiffFor(g, o, n, j).value == ExpectedRow(g, o, n, j)
    ensures DiffFor(g, o, n, j).Failure? ==> DiffFor(g, o, n, j).error == Miss(g, o, n, j)
  {
  }

  /** Row `t` of a group's rows from pair `j` on is the expected row of pair `j + t`. */
  predicate GroupRowAt(rows: seq<DiffRow>, g: string, o: SummaryResult, n: SummaryResult, j: int, t: int) {
    0 <= t < |rows| && PairIn(o, n, j + t) && rows[t] == ExpectedRow(g, o, n, j + t)
  }

  /** The rows one group yields from pair `j` on are the expected rows of consecutive pairs. */
  lemma {:induction false} GroupDiffsRows(g: string, o: SummaryResult, n: SummaryResult, j: nat)
    requires j <= |Timing.SummaryOrder|
    ensures GroupDiffs(g, o, n, j).header == Header
    ensures j + |GroupDiffs(g, o, n, j).rows| <= |Timing.SummaryOrder|
    ensures GroupDiffs(g, o, n, j).failure.None? ==> j + |GroupDiffs(g, o, n, j).rows| == |Timing.SummaryOrder|
    ensures forall t :: 0 <= t < |GroupDiffs(g, o, n, j).rows| ==> GroupRowAt(GroupDiffs(g, o, n, j).rows, g, o, n, j, t)
    decreases |Timing.SummaryOrder| - j
  {
    if j < |Timing.SummaryOrder| {
      GroupDiffsRows(g, o, n, j + 1);
      GroupDiffsStep(g, o, n, j);
      var r := GroupDiffs(g, o, n, j);
      var rest := GroupDiffs(g, o, n, j + 1);
      if PairIn(o, n, j) {
        forall t | 0 <= t < |r.rows|
          ensures GroupRowAt(r.rows, g, o, n, j, t)
        {
          if t > 0 {
            assert GroupRowAt(rest.rows, g, o, n, j + 1, t - 1);
          }
        }
      }
    }
  }

  /** One step of a group: the row of pair `j` before the rest, or the miss of pair `j`. */
  lemma GroupDiffsStep(g: string, o: SummaryResult, n: SummaryResult, j: nat)
    requires j < |Timing.SummaryOrder|
    ensures PairIn(o, n, j) ==>
      GroupDiffs(g, o, n, j) == Report(Header, [ExpectedRow(g, o, n, j)] + GroupDiffs(g, o, n, j + 1).rows, GroupDiffs(g, o, n, j + 1).failure)
    ensures !PairIn(o, n, j) ==> GroupDiffs(g, o, n, j) == Report(Header, [], Some(Miss(g, o, n, j)))
  {
    DiffForSpec(g, o, n, j);
  }

  /** One group fails exactly when some pair from `j` on is missing. */
  lemma {:induction false} GroupDiffsComplete(g: string, o: SummaryResult, n: SummaryResult, j: nat)
    requires j <= |Timing.SummaryOrder|
    ensures GroupDiffs(g, o, n, j).failure.None? <==> forall j' :: j <= j' < |Timing.SummaryOrder| ==> PairIn(o, n, j')
    decreases |Timing.SummaryOrder| - j
  {
    if j < |Timing.SummaryOrder| {
      GroupDiffsComplete(g, o, n, j + 1);
      GroupDiffsStep(g, o, n, j);
    }
  }

  /** A failing group fails on the pair right after its rows, which is missing. */
  lemma {:induction false} GroupDiffsMiss(g: string, o: SummaryResult, n: SummaryResult, j: nat)
    requires j <= |Timing.SummaryOrder|
    ensures var r := GroupDiffs(g, o, n, j);
      r.failure.Some? ==> j + |r.rows| < |Timing.SummaryOrder| && !PairIn(o, n, j + |r.rows|) && r.failure.value == Miss(g, o, n, j + |r.rows|)
    decreases |Timing.SummaryOrder| - j
  {
    if j < |Timing.SummaryOrder| {
      GroupDiffsMiss(g, o, n, j + 1);
      GroupDiffsStep(g, o, n, j);
    }
  }

  /**
   * One group's rows: the expected rows of pairs `j`, `j + 1`, ... up to the
   * first pair with a missing entry (old side looked up first), and that
   * missing entry as the failure.
   */
  lemma GroupDiffsSpec(g: string, o: SummaryResult, n: SummaryResult, j: nat)
    requires j <= |Timing.SummaryOrder|
    ensures var r := GroupDiffs(g, o, n, j);
      && r.header == Header
      && (r.failure.None? <==> forall j' :: j <= j' < |Timing.SummaryOrder| ==> PairIn(o, n, j'))
      && j + |r.rows| <= |Timing.SummaryOrder|
      && (r.failure.None? ==> j + |r.rows| == |Timing.SummaryOrder|)
      && (forall t :: 0 <= t < |r.rows| ==> GroupRowAt(r.rows, g, o, n, j, t))
      && (r.failure.Some? ==> j + |r.rows| < |Timing.SummaryOrder|)
      && (r.failure.Some? && j + |r.rows| < |Timing.SummaryOrder| ==>
            !PairIn(o, n, j + |r.rows|) && r.failure.value == Miss(g, o, n, j + |r.rows|))
  {
    GroupDiffsRows(g, o, n, j);
    GroupDiffsComplete(g, o, n, j);
    GroupDiffsMiss(g, o, n, j);
  }

  /** Every group of the old map from the `base`-th on can be compared. */
  predicate ComparableFrom(oldMap: OMap<string, SummaryResult>, newMap: OMap<string, SummaryResult>, base: int) {
    forall i, j :: 0 <= base <= i < |oldMap.keys| && 0 <= j < |Timing.SummaryOrder| ==> HasEntry(oldMap, newMap, oldMap.keys[i], j)
  }

  /**
   * The rows of a report on the old map's groups from the `base`-th on:
   * eight expected rows per group, in key order, and all eight of every
   * group when nothing failed.
   */
  ghost predicate RowsFrom(r: Report, base: int, oldMap: OMap<string, SummaryResult>, newMap: OMap<string, SummaryResult>) {
    && 0 <= base <= |oldMap.keys|
    && r.header == Header
    && (r.failure.None? ==> |r.rows| == |Timing.SummaryOrder| * (|oldMap.keys| - base))
    && (forall i, j :: base <= i && 0 <= j < |Timing.SummaryOrder| && |Timing.SummaryOrder| * (i - base) + j < |r.rows| ==>
          RowAt(r.rows, base, oldMap, newMap, i, j))
  }

  /** The rows of the old map's groups from the `base`-th on: eight expected rows per group, in key order. */
  lemma {:induction false} CompareFromRows(oldMap: OMap<string, SummaryResult>, newMap: OMap<string, SummaryResult>, base: nat)
    requires Valid(oldMap) && base <= |oldMap.keys|
    ensures RowsFrom(CompareFrom(oldMap, newMap, base), base, oldMap, newMap)
    decreases |oldMap.keys| - base
  {
    if base < |oldMap.keys| {
      var g := oldMap.keys[base];
      assert g in oldMap.values;
      if g in newMap.values {
        if GroupDiffs(g, oldMap.values[g], newMap.values[g], 0).failure.Some? {
          FailedGroupRows(oldMap, newMap, base);
        } else {
          CompareFromRows(oldMap, newMap, base + 1);
          CompleteGroupRows(oldMap, newMap, base);
        }
      }
    }
  }

  /** When the `base`-th group fails, the rows are those of that group. */
  lemma FailedGroupRows(oldMap: OMap<string, SummaryResult>, newMap: OMap<string, SummaryResult>, base: nat)
    requires Valid(oldMap) && base < |oldMap.keys| && oldMap.keys[base] in newMap.values
    requires var g := oldMap.keys[base];
      g in oldMap.values && GroupDiffs(g, oldMap.values[g], newMap.values[g], 0).failure.Some?
    ensures RowsFrom(CompareFrom(oldMap, newMap, base), base, oldMap, newMap)
  {
    var g := oldMap.keys[base];
    var o, n := oldMap.values[g], newMap.values[g];
    GroupDiffsRows(g, o, n, 0);
    var r := CompareFrom(oldMap, newMap, base);
    assert r == GroupDiffs(g, o, n, 0);
    forall i, j | base <= i && 0 <= j < |Timing.SummaryOrder| && |Timing.SummaryOrder| * (i - base) + j < |r.rows|
      ensures RowAt(r.rows, base, oldMap, newMap, i, j)
    {
      RowInBlock(oldMap, newMap, base, r.rows, j);
    }
  }

  /** When the `base`-th group is complete, its eight rows come before those of the groups after it. */
  lemma CompleteGroupRows(oldMap: OMap<string, SummaryResult>, newMap: OMap<string, SummaryResult>, base: nat)
    requires Valid(oldMap) && base < |oldMap.keys| && oldMap.keys[base] in newMap.values
    requires var g := oldMap.keys[base];
      g in oldMap.values && GroupDiffs(g, oldMap.values[g], newMap.values[g], 0).failure.None?
    requires RowsFrom(CompareFrom(oldMap, newMap, base + 1), base + 1, oldMap, newMap)
    ensures RowsFrom(CompareFrom(oldMap, newMap, base), base, oldMap, newMap)
  {
    var g := oldMap.keys[base];
    var o, n := oldMap.values[g], newMap.values[g];
    GroupDiffsRows(g, o, n, 0);
    var block := GroupDiffs(g, o, n, 0);
    var rest := CompareFrom(oldMap, newMap, base + 1);
    var r := CompareFrom(oldMap, newMap, base);
    assert r == Report(Header, block.rows + rest.rows, rest.failure);
    forall i, j | base <= i && 0 <= j < |Timing.SummaryOrder| && |Timing.SummaryOrder| * (i - base) + j < |r.rows|
      ensures RowAt(r.rows, base, oldMap, newMap, i, j)
    {
      if i == base {
        RowInBlock(oldMap, newMap, base, r.rows, j);
      } else {
        RowInRest(oldMap, newMap, base, block.rows, rest.rows, i, j);
      }
    }
  }

  /** A row among the first group's rows is that group's expected row. */
  lemma RowInBlock(oldMap: OMap<string, SummaryResult>, newMap: OMap<string, SummaryResult>, base: nat, rows: seq<DiffRow>, j: nat)
    requires Valid(oldMap) && base < |oldMap.keys| && oldMap.keys[base] in newMap.values
    requires var g := oldMap.keys[base];
      && g in oldMap.values
      && var block := GroupDiffs(g, oldMap.values[g], newMap.values[g], 0);
      j < |block.rows| && j < |rows| && rows[j] == block.rows[j]
    ensures RowAt(rows, base, oldMap, newMap, base, j)
  {
    var g := oldMap.keys[base];
    GroupDiffsRows(g, oldMap.values[g], newMap.values[g], 0);
    assert GroupRowAt(GroupDiffs(g, oldMap.values[g], newMap.values[g], 0).rows, g, oldMap.values[g], newMap.values[g], 0, j);
  }

  /** A row after a complete first group is the row of the groups after it, eight places earlier. */
  lemma RowInRest(oldMap: OMap<string, SummaryResult>, newMap: OMap<string, SummaryResult>, base: nat, first: seq<DiffRow>, rest: seq<DiffRow>, i: nat, j: nat)
    requires |first| == |Timing.SummaryOrder| && base < i
    requires RowAt(rest, base + 1, oldMap, newMap, i, j)
    ensures RowAt(first + rest, base, oldMap, newMap, i, j)
  {
    assert (first + rest)[|Timing.SummaryOrder| * (i - base) + j] == rest[|Timing.SummaryOrder| * (i - (base + 1)) + j];
  }

  /**
   * A report on the old map's groups from the `base`-th on fails exactly
   * when one of them is not comparable, and then the failure is the first
   * missing group or entry, right after the rows written.
   */
  ghost predicate FailsFrom(r: Report, base: int, oldMap: OMap<string, SummaryResult>, newMap: OMap<string, SummaryResult>) {
    && (r.failure.None? <==> ComparableFrom(oldMap, newMap, base))
    && (r.failure.Some? ==> FailsAfter(r.rows, base, oldMap, newMap, r.failure.value))
  }

  /** The groups from the `base`-th on fail exactly when one of them is not comparable, on the first lookup that fails. */
  lemma {:induction false} CompareFromFailure(oldMap: OMap<string, SummaryResult>, newMap: OMap<string, SummaryResult>, base: nat)
    requires Valid(oldMap) && base <= |oldMap.keys|
    ensures FailsFrom(CompareFrom(oldMap, newMap, base), base, oldMap, newMap)
    decreases |oldMap.keys| - base
  {
    if base < |oldMap.keys| {
      var g := oldMap.keys[base];
      assert g in oldMap.values;
      if g !in newMap.values {
        assert !HasEntry(oldMap, newMap, oldMap.keys[base], 0);
      } else if GroupDiffs(g, oldMap.values[g], newMap.values[g], 0).failure.Some? {
        FailedGroupFails(oldMap, newMap, base);
      } else {
        CompareFromFailure(oldMap, newMap, base + 1);
        CompleteGroupFails(oldMap, newMap, base);
      }
    }
  }

  /** When the `base`-th group fails, the report fails on that group's first missing entry. */
  lemma FailedGroupFails(oldMap: OMap<string, SummaryResult>, newMap: OMap<string, SummaryResult>, base: nat)
    requires Valid(oldMap) && base < |oldMap.keys| && oldMap.keys[base] in newMap.values
    requires var g := oldMap.keys[base];
      g in oldMap.values && GroupDiffs(g, oldMap.values[g], newMap.values[g], 0).failure.Some?
    ensures FailsFrom(CompareFrom(oldMap, newMap, base), base, oldMap, newMap)
  {
    var g := oldMap.keys[base];
    var o, n := oldMap.values[g], newMap.values[g];
    GroupDiffsMiss(g, o, n, 0);
    var r := CompareFrom(oldMap, newMap, base);
    assert r == GroupDiffs(g, o, n, 0);
    var j := |r.rows|;
    assert !HasEntry(oldMap, newMap, oldMap.keys[base], j);
    assert |r.rows| == |Timing.SummaryOrder| * (base - base) + j;
  }

  /** When the `base`-th group is complete, the report fails as the one on the groups after it does. */
  lemma CompleteGroupFails(oldMap: OMap<string, SummaryResult>, newMap: OMap<string, SummaryResult>, base: nat)
    requires Valid(oldMap) && base < |oldMap.keys| && oldMap.keys[base] in newMap.values
    requires var g := oldMap.keys[base];
      g in oldMap.values && GroupDiffs(g, oldMap.values[g], newMap.values[g], 0).failure.None?
    requires FailsFrom(CompareFrom(oldMap, newMap, base + 1), base + 1, oldMap, newMap)
    ensures FailsFrom(CompareFrom(oldMap, newMap, base), base, oldMap, newMap)
  {
    var g := oldMap.keys[base];
    var o, n := oldMap.values[g], newMap.values[g];
    GroupDiffsRows(g, o, n, 0);
    GroupDiffsComplete(g, o, n, 0);
    var block := GroupDiffs(g, o, n, 0);
    var rest := CompareFrom(oldMap, newMap, base + 1);
    var r := CompareFrom(oldMap, newMap, base);
    assert r == Report(Header, block.rows + rest.rows, rest.failure);
    forall j | 0 <= j < |Timing.SummaryOrder|
      ensures HasEntry(oldMap, newMap, oldMap.keys[base], j)
    {
      assert PairIn(o, n, j);
    }
    if r.failure.Some? {
      RestFailsAfter(oldMap, newMap, base, block.rows, rest.rows, r.failure.value);
    }
  }

  /** A failure right after the rows of the groups after the `base`-th is right after those rows preceded by eight more. */
  lemma RestFailsAfter(oldMap: OMap<string, SummaryResult>, newMap: OMap<string, SummaryResult>, base: nat, first: seq<DiffRow>, rest: seq<DiffRow>, e: CompareError)
    requires |first| == |Timing.SummaryOrder|
    requires FailsAfter(rest, base + 1, oldMap, newMap, e)
    ensures FailsAfter(first + rest, base, oldMap, newMap, e)
  {
    match e
    case MissingGroup(g') =>
      var i :| 0 <= base + 1 <= i < |oldMap.keys| && oldMap.keys[i] == g'
        && |rest| == |Timing.SummaryOrder| * (i - (base + 1)) && g' !in newMap.values;
      assert |first + rest| == |Timing.SummaryOrder| * (i - base);
    case MissingEntry(g', key, side) =>
      var i, j :| 0 <= base + 1 <= i < |oldMap.keys| && 0 <= j < |Timing.SummaryOrder| && oldMap.keys[i] == g'
        && |rest| == |Timing.SummaryOrder| * (i - (base + 1)) + j
        && g' in oldMap.values && g' in newMap.values
        && !PairIn(oldMap.values[g'], newMap.values[g'], j) && e == Miss(g', oldMap.values[g'], newMap.values[g'], j);
      assert |first + rest| == |Timing.SummaryOrder| * (i - base) + j;
  }

  /**
   * `main`'s output: the header, then eight rows per old-side group in the
   * old map's key order and in the fixed pair order, each holding the
   * differences of the two looked-up values; it ends with a failure exactly
   * when some old-side group is missing from the new side or lacks one of
   * the eight entries on either side, and then the failure names the first
   * such lookup and the rows written before it are all correct.
   */
  lemma CompareSpec(oldMap: OMap<string, SummaryResult>, newMap: OMap<string, SummaryResult>)
    requires Valid(oldMap)
    ensures var r := Compare(oldMap, newMap);
      && r.header == Header
      && (r.failure.None? <==> Comparable(oldMap, newMap))
      && (r.failure.None? ==> |r.rows| == |Timing.SummaryOrder| * |oldMap.keys|)
      && (forall i, j :: 0 <= i && 0 <= j < |Timing.SummaryOrder| && |Timing.SummaryOrder| * i + j < |r.rows| ==>
            RowAt(r.rows, 0, oldMap, newMap, i, j))
      && (r.failure.Some? ==> FailsAfter(r.rows, 0, oldMap, newMap, r.failure.value))
  {
    CompareFromRows(oldMap, newMap, 0);
    CompareFromFailure(oldMap, newMap, 0);
    assert RowsFrom(Compare(oldMap, newMap), 0, oldMap, newMap);
    assert FailsFrom(Compare(oldMap, newMap), 0, oldMap, newMap);
  }

  /** Every group of `m` holds all eight entries. */
  predicate Complete(m: OMap<string, SummaryResult>) {
    forall i, j :: 0 <= i < |m.keys| && 0 <= j < |Timing.SummaryOrder| ==>
      m.keys[i] in m.values && StatKey(Timing.SummaryOrder[j].0, Timing.SummaryOrder[j].1) in m.values[m.keys[i]].values
  }

  /**
   * Comparing a complete summary with itself succeeds with eight rows per
   * group, every absolute difference zero and every relative difference
   * zero, except where the value itself is zero (0/0 is NaN).
   */
  lemma SelfComparisonIsZero(m: OMap<string, SummaryResult>)
    requires Valid(m) && Complete(m)
    ensures var r := Compare(m, m);
      && r.failure.None?
      && |r.rows| == |Timing.SummaryOrder| * |m.keys|
      && forall t :: 0 <= t < |r.rows| ==> r.rows[t].abs == 0.0 && (r.rows[t].rel.Finite? ==> r.rows[t].rel.percent == 0.0)
  {
    CompareFromRows(m, m, 0);
    CompareFromFailure(m, m, 0);
    CompleteIsComparable(m);
    SelfRowsAreZero(Compare(m, m), m);
  }

  /** Rows that are the expected rows of a map compared with itself hold zero differences. */
  lemma SelfRowsAreZero(r: Report, m: OMap<string, SummaryResult>)
    requires RowsFrom(r, 0, m, m)
    ensures forall t :: 0 <= t < |r.rows| ==> r.rows[t].abs == 0.0 && (r.rows[t].rel.Finite? ==> r.rows[t].rel.percent == 0.0)
  {
    forall t | 0 <= t < |r.rows|
      ensures r.rows[t].abs == 0.0 && (r.rows[t].rel.Finite? ==> r.rows[t].rel.percent == 0.0)
    {
      var i, j := t / |Timing.SummaryOrder|, t % |Timing.SummaryOrder|;
      assert t == |Timing.SummaryOrder| * i + j;
      assert RowAt(r.rows, 0, m, m, i, j);
      SelfRowIsZero(r.rows, m, i, j);
    }
  }

  /** A complete summary can be compared with itself. */
  lemma CompleteIsComparable(m: OMap<string, SummaryResult>)
    requires Complete(m)
    ensures Comparable(m, m) && ComparableFrom(m, m, 0)
  {
    forall i, j | 0 <= i < |m.keys| && 0 <= j < |Timing.SummaryOrder|
      ensures HasEntry(m, m, m.keys[i], j)
    {
      assert StatKey(Timing.SummaryOrder[j].0, Timing.SummaryOrder[j].1) in m.values[m.keys[i]].values;
    }
  }

  /** The expected row of a pair compared with itself holds zero differences. */
  lemma SelfRowIsZero(rows: seq<DiffRow>, m: OMap<string, SummaryResult>, i: int, j: int)
    requires RowAt(rows, 0, m, m, i, j)
    ensures var row := rows[|Timing.SummaryOrder| * i + j];
      row.abs == 0.0 && (row.rel.Finite? ==> row.rel.percent == 0.0)
  {
    var v := m.values[m.keys[i]].values[PairKey(j)];
    if v != 0.0 {
      RelDiffMeaning(v, v);
    }
  }

  /** `main`: read the old summary, then the new one, then compare. */
  function CompareFiles(oldLines: seq<string>, newLines: seq<string>, parse: Parser): Result<Report, ReadError> {
    match ReadWholeSummary(oldLines, parse)
    case Failure(e) => Failure(e)
    case Success(oldMap) =>
      match ReadWholeSummary(newLines, parse)
      case Failure(e) => Failure(e)
      case Success(newMap) => Success(Compare(oldMap, newMap))
  }
}
