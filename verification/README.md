# WatDiv query executor and result comparator, in Dafny

A model of the two programs of the scylla-rdf benchmark's query executor:

- **`WatDivQueryExecutor`** reads a directory of WatDiv query-template
  files. Each file is cut into queries by `QueryReader.readAll`: a regex split
  on whitespace-only lines, then a filter that drops blank pieces. A warm-up
  pass runs the first query of every file. The benchmark pass opens one timing
  group per file (the file name without its extension) and times queries
  1 .. n-1. `RequestTimingHandler` buffers the timings of the group. On
  `finishGroup` it appends them to `time.csv`, then appends eight summary lines
  (ttfb/ttlb × min/mean/std/max) to `summary.csv`.
- **`WatDivResultComparator`** reads two such summary files with
  `readWholeSummary`. Each becomes an insertion-ordered map from group id to a
  `SummaryResult` of `"metric-stat" -> value` entries. For every group of the
  old map, in order, the comparator writes eight diff rows, each with the
  absolute and the relative difference. A missing group or entry raises and
  ends the output.

Modules, one per file:

- `Results`: `Option` and `Result`.
- `Text`: the JVM character classes, `split(",")`, `Int.toString`,
  `nameWithoutExtension`.
- `QueryReader`: `readAll` with the regex `^\s*\n` under MULTILINE and
  UNIX_LINES.
- `OrderedMap`: `mutableMapOf`, a LinkedHashMap.
- `Timing`: `RequestTimingHandler`.
- `Driver`: the two loops of the executor's `main`, as a list of events run
  against the handler.
- `SummaryReader`: `readWholeSummary` and the `SummaryResult` accessors.
- `Comparator`: the comparator's `main`.
- `SummaryRuns`: what the reader returns for rows made of runs, and the reader
  as evidently intended.
- `SummaryRoundTrip`: the executor's `summary.csv` read back by the
  comparator.

The network, the clock and number formatting are parameters:

- `Driver.Measure` gives the nanosecond timings of a query.
- `SummaryRoundTrip.Render` turns a statistic over the samples into text.
- `SummaryReader.Parser` stands for `toDouble`.

On a zero new value the comparator divides anyway and writes "Infinity" or
"NaN" into the row. `Comparator.Relative` gives `NonFinite` there, the row is
written, and nothing fails.

## Model

| member | source | states |
|---|---|---|
| Text.RegexSpaceIsWhitespace | query-executor/src/main/kotlin/cc/datafabric/scyllardf/benchmark/WatDivQueryExecutor.kt:191-195 | a string made only of characters of the regex class `\s` is blank for `isBlank` |
| Text.Split | query-executor/src/main/kotlin/cc/datafabric/scyllardf/benchmark/WatDivResultComparator.kt:78 | `split(",")` yields at least one piece, no piece holds a comma, and joining the pieces with commas gives the line back |
| Text.SplitJoin | query-executor/src/main/kotlin/cc/datafabric/scyllardf/benchmark/WatDivResultComparator.kt:78 | splitting the comma-join of comma-free fields gives exactly those fields back (the inverse of joining) |
| Text.DecimalRoundTrip | query-executor/src/main/kotlin/cc/datafabric/scyllardf/benchmark/WatDivQueryExecutor.kt:176 | the decimal query id `queryId.toString()` reads back as the query's index |
| Text.NatToStringInjective | query-executor/src/main/kotlin/cc/datafabric/scyllardf/benchmark/WatDivQueryExecutor.kt:173-176 | two different query indices never get the same id |
| Text.NameWithoutExtensionCuts | query-executor/src/main/kotlin/cc/datafabric/scyllardf/benchmark/WatDivQueryExecutor.kt:170 | the group id is the whole file name when it has no dot, otherwise the prefix that ends just before its last dot |
| QueryReader.MatchAtIsLongestBlankLine | query-executor/src/main/kotlin/cc/datafabric/scyllardf/benchmark/WatDivQueryExecutor.kt:191 | the pattern matches at a position exactly when a whitespace-only line ending in '\n' starts there, and the match runs to the last '\n' of the longest such run of lines |
| QueryReader.FindSep | query-executor/src/main/kotlin/cc/datafabric/scyllardf/benchmark/WatDivQueryExecutor.kt:195 | the separator found is the leftmost match at or after the search position; no match starts before it |
| QueryReader.Segments | query-executor/src/main/kotlin/cc/datafabric/scyllardf/benchmark/WatDivQueryExecutor.kt:195 | the pieces tile the text from start to end, consecutive pieces are separated by exactly one match, no match starts inside a piece, and each piece starts a line |
| QueryReader.SplitIsUnique | query-executor/src/main/kotlin/cc/datafabric/scyllardf/benchmark/WatDivQueryExecutor.kt:195 | a list of pieces has those split properties if and only if it is the split the reader computes |
| QueryReader.Slices | query-executor/src/main/kotlin/cc/datafabric/scyllardf/benchmark/WatDivQueryExecutor.kt:195 | each piece is the untrimmed slice of the text between its bounds |
| QueryReader.DropBlankMembers | query-executor/src/main/kotlin/cc/datafabric/scyllardf/benchmark/WatDivQueryExecutor.kt:195 | the filter keeps a piece if and only if it is not blank |
| QueryReader.DropBlankAppend | query-executor/src/main/kotlin/cc/datafabric/scyllardf/benchmark/WatDivQueryExecutor.kt:195 | the filter distributes over concatenation, so kept pieces stay in file order |
| QueryReader.ReadAllPieces | query-executor/src/main/kotlin/cc/datafabric/scyllardf/benchmark/WatDivQueryExecutor.kt:194-196 | a string is a query of `readAll` if and only if it is a non-blank piece of the split |
| QueryReader.SeparatorIsBlank | query-executor/src/main/kotlin/cc/datafabric/scyllardf/benchmark/WatDivQueryExecutor.kt:191-195 | the text a separator match removes is blank, so the split drops whitespace only |
| QueryReader.RegexSpacePieceDropped | query-executor/src/main/kotlin/cc/datafabric/scyllardf/benchmark/WatDivQueryExecutor.kt:195 | a piece of the split made only of `\s` characters is not among the queries |
| QueryReader.ReadAllHasNoBlankLine | query-executor/src/main/kotlin/cc/datafabric/scyllardf/benchmark/WatDivQueryExecutor.kt:191-196 | no query contains a whitespace-only line ending in '\n' |
| QueryReader.ReadAllHasNoEmptyLine | query-executor/src/main/kotlin/cc/datafabric/scyllardf/benchmark/WatDivQueryExecutor.kt:191-196 | no query contains two '\n' in a row |
| QueryReader.BlankLineCutsText | query-executor/src/main/kotlin/cc/datafabric/scyllardf/benchmark/WatDivQueryExecutor.kt:195 | a text with a blank line is cut into pieces that are each shorter than the text |
| QueryReader.NoBlankLineKeepsText | query-executor/src/main/kotlin/cc/datafabric/scyllardf/benchmark/WatDivQueryExecutor.kt:195 | a text without a blank line splits into itself alone |
| QueryReader.ReadAllWholeText | query-executor/src/main/kotlin/cc/datafabric/scyllardf/benchmark/WatDivQueryExecutor.kt:191-196 | `readAll` returns the whole text as its single query if and only if the text is not blank and has no blank line |
| QueryReader.SingleQueryText | query-executor/src/main/kotlin/cc/datafabric/scyllardf/benchmark/WatDivQueryExecutor.kt:191-196 | a non-blank text without blank lines is one query |
| OrderedMap.Put | query-executor/src/main/kotlin/cc/datafabric/scyllardf/benchmark/WatDivResultComparator.kt:81 | a put keeps the map well formed and sets the key's value; a new key goes last and an existing key keeps its place |
| Timing.Seconds | query-executor/src/main/kotlin/cc/datafabric/scyllardf/benchmark/WatDivQueryExecutor.kt:220-221 | the seconds value times 10^9 is the nanosecond count |
| Timing.StartGroup | query-executor/src/main/kotlin/cc/datafabric/scyllardf/benchmark/WatDivQueryExecutor.kt:212-217 | starting a group sets the group id and empties the timing buffer and both sample lists; neither file changes |
| Timing.Handle | query-executor/src/main/kotlin/cc/datafabric/scyllardf/benchmark/WatDivQueryExecutor.kt:219-227 | outside a group the call fails; inside one it appends one timing row for this group and query, and one sample to each list; nothing else changes |
| Timing.SummaryBlock | query-executor/src/main/kotlin/cc/datafabric/scyllardf/benchmark/WatDivQueryExecutor.kt:236-246 | a summary block has eight rows of the group: ttfb then ttlb, each min, mean, std, max, each over the samples of its own metric |
| Timing.FinishGroup | query-executor/src/main/kotlin/cc/datafabric/scyllardf/benchmark/WatDivQueryExecutor.kt:229-247 | outside a group the call fails; inside one it appends the buffered rows to the time file, then the group's eight-row block to the summary file; buffers and group are kept |
| Timing.HandleAllAppends | query-executor/src/main/kotlin/cc/datafabric/scyllardf/benchmark/WatDivQueryExecutor.kt:219-227 | inside a group, handling a list of measurements appends their rows and samples in order and changes nothing else |
| Timing.GroupAppendsItsRows | query-executor/src/main/kotlin/cc/datafabric/scyllardf/benchmark/WatDivQueryExecutor.kt:212-247 | a started, filled and finished group always succeeds and grows the two files by its own rows only, whatever the handler held before |
| Timing.SummaryFileGrows | query-executor/src/main/kotlin/cc/datafabric/scyllardf/benchmark/WatDivQueryExecutor.kt:236-246 | appending a group's block to a summary file of some groups gives a summary file of those groups plus this one |
| Driver.TakeOne | query-executor/src/main/kotlin/cc/datafabric/scyllardf/benchmark/WatDivQueryExecutor.kt:151 | `take(1)` keeps the first query of a non-empty list and nothing of an empty one |
| Driver.WarmUpRunsFirstQueryOnly | query-executor/src/main/kotlin/cc/datafabric/scyllardf/benchmark/WatDivQueryExecutor.kt:150-165 | the warm-up of a file runs only its first query, writes it to `<name>-0.txt` and sleeps once; an empty file does nothing |
| Driver.WarmUpPhaseCounts | query-executor/src/main/kotlin/cc/datafabric/scyllardf/benchmark/WatDivQueryExecutor.kt:150-165 | the warm-up phase holds only warm-up runs and sleeps, one of each per file that has queries |
| Driver.WarmUpPhaseLeavesHandler | query-executor/src/main/kotlin/cc/datafabric/scyllardf/benchmark/WatDivQueryExecutor.kt:150-165 | the warm-up phase leaves the timing handler exactly as it was |
| Driver.MeasureLoopShape | query-executor/src/main/kotlin/cc/datafabric/scyllardf/benchmark/WatDivQueryExecutor.kt:173-180 | from index 1 on, the benchmark loop alternates a timed run of query k under the id of k with a one-second sleep |
| Driver.BenchmarkBlockShape | query-executor/src/main/kotlin/cc/datafabric/scyllardf/benchmark/WatDivQueryExecutor.kt:169-183 | a file's benchmark block starts the file's group, only sleeps for query 0, times queries 1 .. n-1 in order with a sleep after each, and finishes the group |
| Driver.MeasuredIdsDistinct | query-executor/src/main/kotlin/cc/datafabric/scyllardf/benchmark/WatDivQueryExecutor.kt:173-176 | the rows a file adds to `time.csv` carry pairwise different query ids, the id of the k-th timed query reading back as k |
| Driver.MeasureLoopHandles | query-executor/src/main/kotlin/cc/datafabric/scyllardf/benchmark/WatDivQueryExecutor.kt:173-180 | running the timed loop on the handler is handling the measurements of queries 1 .. n-1 in order |
| Driver.BenchmarkBlockIsGroup | query-executor/src/main/kotlin/cc/datafabric/scyllardf/benchmark/WatDivQueryExecutor.kt:169-183 | running a file's block is running one handler group named after the file over the measurements of its queries 1 .. n-1 |
| Driver.BenchmarkBlockAppends | query-executor/src/main/kotlin/cc/datafabric/scyllardf/benchmark/WatDivQueryExecutor.kt:169-183 | a file's block always succeeds and adds exactly that file's timing rows and summary block |
| Driver.BenchmarkPhaseAppends | query-executor/src/main/kotlin/cc/datafabric/scyllardf/benchmark/WatDivQueryExecutor.kt:169-183 | the benchmark phase adds, file after file, each file's timing rows and summary block |
| Driver.AllSummaryRowsShape | query-executor/src/main/kotlin/cc/datafabric/scyllardf/benchmark/WatDivQueryExecutor.kt:169-183 | the benchmark phase extends a summary file with eight rows per query file, in listing order |
| Driver.PlanIsBenchmarkPhase | query-executor/src/main/kotlin/cc/datafabric/scyllardf/benchmark/WatDivQueryExecutor.kt:150-183 | the whole run leaves the handler as the benchmark phase alone does |
| Driver.PlanWritesSummaryPerFile | query-executor/src/main/kotlin/cc/datafabric/scyllardf/benchmark/WatDivQueryExecutor.kt:150-183 | from fresh files, the run succeeds; the time file holds every timed query's row; the summary file holds one eight-row block per query file, in listing order |
| SummaryReader.StatKeysDistinct | query-executor/src/main/kotlin/cc/datafabric/scyllardf/benchmark/WatDivResultComparator.kt:102-131 | the eight accessor keys are pairwise different, and the first is "ttfb-min" |
| SummaryReader.ParseLine | query-executor/src/main/kotlin/cc/datafabric/scyllardf/benchmark/WatDivResultComparator.kt:78-88 | a line is read if and only if it has at least four columns and the fourth parses as a number; the row's group is the first column |
| SummaryReader.ParseWrittenLine | query-executor/src/main/kotlin/cc/datafabric/scyllardf/benchmark/WatDivResultComparator.kt:78-88 | a line made of four comma-free fields is read as that group, key "metric-stat" and value |
| SummaryReader.ParseLines | query-executor/src/main/kotlin/cc/datafabric/scyllardf/benchmark/WatDivResultComparator.kt:72-78 | either every line is read into its row, in order, or some line is unreadable |
| SummaryReader.RunValuesLastWins | query-executor/src/main/kotlin/cc/datafabric/scyllardf/benchmark/WatDivResultComparator.kt:98-100 | within a run, a key's entry is the value of the last row that sets it |
| SummaryReader.ScanTracksLastRun | query-executor/src/main/kotlin/cc/datafabric/scyllardf/benchmark/WatDivResultComparator.kt:77-89 | the result being collected is always the final run of the rows read so far, under that run's group |
| SummaryReader.ContinuingRunStoresNothing | query-executor/src/main/kotlin/cc/datafabric/scyllardf/benchmark/WatDivResultComparator.kt:79-88 | a row of the same group as the row before changes nothing in the returned map |
| SummaryReader.NewRunStoresPrevious | query-executor/src/main/kotlin/cc/datafabric/scyllardf/benchmark/WatDivResultComparator.kt:79-86 | a row of another group stores the run so far under its group: a new group goes last, a group seen before keeps its place and gets the new run's entries |
| SummaryReader.OneRunReadsEmpty | query-executor/src/main/kotlin/cc/datafabric/scyllardf/benchmark/WatDivResultComparator.kt:77-91 | rows of one group only give an empty map |
| SummaryReader.ContinuingRowsStoreNothing | query-executor/src/main/kotlin/cc/datafabric/scyllardf/benchmark/WatDivResultComparator.kt:77-89 | any number of rows that continue the final run change nothing in the returned map |
| SummaryReader.FinalRunNeverStored | query-executor/src/main/kotlin/cc/datafabric/scyllardf/benchmark/WatDivResultComparator.kt:77-91 | the final run's content has no influence on the returned map |
| SummaryReader.FirstLineDiscarded | query-executor/src/main/kotlin/cc/datafabric/scyllardf/benchmark/WatDivResultComparator.kt:72 | the first line of the file has no influence on the result, whatever it holds |
| SummaryReader.Lookup | query-executor/src/main/kotlin/cc/datafabric/scyllardf/benchmark/WatDivResultComparator.kt:102-131 | an accessor succeeds if and only if its key is present, and then returns that entry; otherwise it fails naming the key |
| SummaryRuns.ReadRowsOfRuns | query-executor/src/main/kotlin/cc/datafabric/scyllardf/benchmark/WatDivResultComparator.kt:71-92 | for runs of distinct groups, the reader returns every group but the last, in order, each with the entries of its own run |
| SummaryRuns.IntendedReadsEveryRun | query-executor/src/main/kotlin/cc/datafabric/scyllardf/benchmark/WatDivResultComparator.kt:71-92 | the corrected reader returns every group, the last included, in order, each with the entries of its run |
| Comparator.AbsDiffMeaning | query-executor/src/main/kotlin/cc/datafabric/scyllardf/benchmark/WatDivResultComparator.kt:63-65 | the absolute difference added to the new value gives the old value; it is zero if and only if both are equal |
| Comparator.RelDiffMeaning | query-executor/src/main/kotlin/cc/datafabric/scyllardf/benchmark/WatDivResultComparator.kt:59-61 | the new value grown by the relative difference, in percent, gives the old value; it is zero if and only if both are equal |
| Comparator.DiffForSpec | query-executor/src/main/kotlin/cc/datafabric/scyllardf/benchmark/WatDivResultComparator.kt:30-32 | one pair yields its diff row if and only if both sides hold its key; otherwise the failure names the key, on the old side when the old result lacks it |
| Comparator.GroupDiffsSpec | query-executor/src/main/kotlin/cc/datafabric/scyllardf/benchmark/WatDivResultComparator.kt:30-54 | a group yields the diff rows of its pairs in the fixed order, up to the first pair missing on either side, and that pair's lookup is the failure |
| Comparator.CompareSpec | query-executor/src/main/kotlin/cc/datafabric/scyllardf/benchmark/WatDivResultComparator.kt:23-56 | the output is the header, then eight rows per old group in the old map's order. It fails if and only if some old group is missing from the new map or lacks an entry, and then the failure is the first failing lookup, after exactly the rows before it |
| Comparator.SelfComparisonIsZero | query-executor/src/main/kotlin/cc/datafabric/scyllardf/benchmark/WatDivResultComparator.kt:26-54 | comparing a complete summary with itself succeeds, and every difference is zero (a relative difference of 0/0 excepted) |
| SummaryRoundTrip.ParseSummaryLines | query-executor/src/main/kotlin/cc/datafabric/scyllardf/benchmark/WatDivResultComparator.kt:78-88 | every line of the executor's summary file is read back as its group, "metric-stat" key and value |
| SummaryRoundTrip.ReadWrittenSummary | query-executor/src/main/kotlin/cc/datafabric/scyllardf/benchmark/WatDivResultComparator.kt:71-92 | reading the executor's summary file gives every group but the last, in order, with its written values, except that the first group loses the entry of the skipped first line |
| SummaryRoundTrip.WrittenSummaryLosesEntries | query-executor/src/main/kotlin/cc/datafabric/scyllardf/benchmark/WatDivResultComparator.kt:72-91 | with two groups or more, the read map lacks the last group and the first group's "ttfb-min" |
| SummaryRoundTrip.ComparingWrittenSummariesFails | query-executor/src/main/kotlin/cc/datafabric/scyllardf/benchmark/WatDivResultComparator.kt:20-32 | comparing two executor summary files of two groups or more fails on the first lookup, before any row; with fewer groups the diff holds the header only |
| SummaryRoundTrip.ReadWrittenSummaryIntended | query-executor/src/main/kotlin/cc/datafabric/scyllardf/benchmark/WatDivResultComparator.kt:71-92 | the corrected reader gives back every group of the executor's summary file, in order, with all eight written values |
| SummaryRoundTrip.ComparingWrittenSummaries | query-executor/src/main/kotlin/cc/datafabric/scyllardf/benchmark/WatDivResultComparator.kt:20-65 | with the corrected reader, comparing two executor summary files for the same groups succeeds, and diff row k holds the differences of line k of the two files |

## Left out

- **Network work.** The HTTP requests, the response bodies and the clock are
  not modelled, including `executeWarmUp`, `execute` and the per-request
  averaging over the coroutine pool (`query-executor/src/main/kotlin/cc/datafabric/scyllardf/benchmark/WatDivQueryExecutor.kt` lines 73-105). A timing is the
  parameter `Driver.Measure`. A warm-up run is the event `WarmUp(query, file)`.
- **Command line and file system.** Option parsing, the directory checks,
  `createFile` failing on an existing file, and logging are not modelled. The
  query files arrive as a list in `listFiles()` order, and both loops see the
  same order. `Thread.sleep` is the event `Sleep(1000)`. Reading a file's text
  (UTF-8 decoding) is not modelled.
- **`readLines`.** The comparator gets its file as a list of lines. How
  `readLines` cuts text at '\r' and '\n' is not modelled.
- **Number formatting and statistics.** `String.format("%.4f")` (and its
  locale), `toDouble` and `DescriptiveStatistics` are not modelled. A summary
  row carries its samples. The text of its value is the parameter `Render`.
  Parsing is the parameter `Parser`, and `Readable` assumes the two agree.
  The diff rows hold exact differences, not their formatted text.
- **Double arithmetic.** It is modelled with reals. A division by a zero new
  value is `NonFinite`; Infinity and NaN are not told apart.
- SummaryRoundTrip.Readable: every rendered statistic reads back as a real,
  also over no samples. In the source, a group whose file has at most one
  query times nothing; `DescriptiveStatistics` then gives NaN for min, mean,
  std and max, the summary line holds "NaN", and `toDouble` reads NaN back.
  NaN statistics of such groups are outside this real-valued model.
- Comparator.SelfComparisonIsZero: the zero differences hold for real
  values only. For a NaN entry (a group without timed queries, as above) the
  source's self-difference is NaN, not zero.
- Timing.Seconds: the division is exact on reals. The rounding of
  `Long.toDouble()` and of the Double division is not modelled.
- Timing.Handle: without a group, the source adds the two samples before the
  missing group id raises. The model fails without changing anything. The
  exception ends the program either way.
- Timing.FinishGroup: without a group, the source first appends the buffered
  timing rows, which are empty then, before the missing group id raises. The
  model fails without writing.
- **`Long` overflow.** The nanosecond sums are not modelled with it. Integers
  are unbounded.
- **U+180E (MONGOLIAN VOWEL SEPARATOR).** Java versions disagree on whether it
  is whitespace. The model leaves it out of `isWhitespace`.
- **Partial output of a failing row.** A failing accessor leaves a partial row
  in the diff file, because the prefix `group,metric,stat,` is written first.
  The model records the complete rows and the failure. An exception while
  reading a summary (`ReadError`) likewise ends the comparator before anything
  is written.
- SummaryRoundTrip.ReadWrittenSummary, SummaryRoundTrip.ComparingWrittenSummariesFails
  and SummaryRoundTrip.ComparingWrittenSummaries cover only files whose group
  ids are comma-free and pairwise different. Two query files with the same name
  without extension would write two runs of one group; those lemmas do not
  cover that case. They also take the lines as given: a group id holding '\n'
  or '\r' would be cut by `readLines`, which is not modelled. And `Readable`
  assumes that `%.4f` writes no comma. In a locale with a decimal comma the
  value would split into two columns, and column 3 would hold only its
  integer part.
- **`QueryReaderTest`.** It expects five queries from a resource file.
  That resource is not part of this model.

## Findings

| source | as written | input that shows it | evidently intended | confidence | as-written member | corrected member |
|---|---|---|---|---|---|---|
| query-executor/src/main/kotlin/cc/datafabric/scyllardf/benchmark/WatDivResultComparator.kt:77-91 | A collected `SummaryResult` is stored only when a row of another group arrives. Nothing stores the final run after the loop. | Any summary: the rows of its last group (for a one-group file, all its rows) never reach the map, so that group is never compared. | Store the run being collected after the loop, so that every group is read. | high (not executed) | SummaryRuns.ReadRowsOfRuns | SummaryRuns.IntendedReadsEveryRun |
| query-executor/src/main/kotlin/cc/datafabric/scyllardf/benchmark/WatDivResultComparator.kt:72 | The reader skips the first line as a header. The executor's `summary.csv` (`query-executor/src/main/kotlin/cc/datafabric/scyllardf/benchmark/WatDivQueryExecutor.kt` lines 236-246) has no header line. | Two `summary.csv` files the executor wrote for groups a, b: the map lacks a's "ttfb-min", and the comparator raises on `minTTFB()` of a before writing any row. | Read every line, or have the writer emit a header. | medium (not executed) | SummaryRoundTrip.ComparingWrittenSummariesFails | SummaryRoundTrip.ComparingWrittenSummaries |
