/**
 * `WatDivQueryExecutor.QueryReader.readAll`: the text of a query-template file
 * is split on the regex `^\s*\n` compiled with MULTILINE and UNIX_LINES, and
 * blank pieces are dropped.
 *
 * Under those flags `^` holds at the start of the input and right after a
 * '\n', but never at the very end of the input. Greedy `\s*` followed by `\n`
 * matches, from a line start, the longest run of `\s` characters that ends in
 * '\n'. `Matcher.find` scans left to right and resumes at the end of the
 * previous match; Kotlin's `Regex.split` keeps empty leading and trailing pieces.
 */
module QueryReader {
  import opened Results
  import opened Text

  /** `^` under MULTILINE | UNIX_LINES at position `p`. */
  predicate LineStart(s: string, p: nat) {
    p < |s| && (p == 0 || s[p - 1] == '\n')
  }

  /**
   * `s[p..k+1]` is a whitespace-only line: it starts at a line start, holds
   * only `\s` characters and ends with the '\n' at `k`.
   */
  predicate BlankLineAt(s: string, p: nat, k: nat) {
    && LineStart(s, p)
    && p <= k < |s|
    && s[k] == '\n'
    && forall j :: p <= j <= k ==> IsRegexSpace(s[j])
  }

  /** Some line of `s` is whitespace-only and terminated by '\n'. */
  predicate HasBlankLine(s: string) {
    exists p: nat, k: nat | p <= k < |s| :: BlankLineAt(s, p, k)
  }

  /** End of the maximal run of `\s` characters that starts at `p`. */
  function RunEnd(s: string, p: nat): (e: nat)
    requires p <= |s|
    ensures p <= e <= |s|
    ensures forall j :: p <= j < e ==> IsRegexSpace(s[j])
    ensures e == |s| || !IsRegexSpace(s[e])
    decreases |s| - p
  {
    if p < |s| && IsRegexSpace(s[p]) then RunEnd(s, p + 1) else p
  }

  /** The last '\n' in `s[lo..hi]`. */
  function LastNewline(s: string, lo: nat, hi: nat): (r: Option<nat>)
    requires lo <= hi <= |s|
    ensures r.Some? ==> lo <= r.value < hi && s[r.value] == '\n'
    ensures r.Some? ==> forall j :: r.value < j < hi ==> s[j] != '\n'
    ensures r.None? ==> forall j :: lo <= j < hi ==> s[j] != '\n'
    decreases hi
  {
    if hi <= lo then None
    else if s[hi - 1] == '\n' then Some(hi - 1)
    else LastNewline(s, lo, hi - 1)
  }

  /**
   * The end of the match of `^\s*\n` attempted at `p`, if the attempt
   * succeeds: greedy `\s*` backtracks to the last '\n' of the whitespace run.
   */
  function MatchAt(s: string, p: nat): (r: Option<nat>)
    requires p <= |s|
    ensures r.Some? ==> p < r.value <= |s| && s[r.value - 1] == '\n'
  {
    if !LineStart(s, p) then None
    else
      match LastNewline(s, p, RunEnd(s, p))
      case None => None
      case Some(k) => Some(k + 1)
  }

  /**
   * The matcher agrees with the declarative reading of the pattern: a match
   * starts at `p` exactly when a whitespace-only line starts there, and it
   * ends after the LAST '\n' of all such lines (the longest match).
   */
  lemma MatchAtIsLongestBlankLine(s: string, p: nat)
    requires p <= |s|
    ensures MatchAt(s, p).Some? <==> exists k: nat :: BlankLineAt(s, p, k)
    ensures MatchAt(s, p).Some? ==> BlankLineAt(s, p, MatchAt(s, p).value - 1)
    ensures MatchAt(s, p).Some? ==> forall k: nat :: BlankLineAt(s, p, k) ==> k < MatchAt(s, p).value
  {
    if LineStart(s, p) {
      var e := RunEnd(s, p);
      forall k: nat | BlankLineAt(s, p, k)
        ensures k < e && MatchAt(s, p).Some? && k < MatchAt(s, p).value
      {
        assert s[k] == '\n';
      }
      if MatchAt(s, p).Some? {
        assert BlankLineAt(s, p, MatchAt(s, p).value - 1);
      }
    }
  }

  /** The first match at or after `from`, as (start, end). */
  function FindSep(s: string, from: nat): (r: Option<(nat, nat)>)
    requires from <= |s|
    ensures r.Some? ==> from <= r.value.0 < r.value.1 <= |s| && MatchAt(s, r.value.0) == Some(r.value.1)
    ensures r.Some? ==> forall p :: from <= p < r.value.0 ==> MatchAt(s, p).None?
    ensures r.None? ==> forall p :: from <= p <= |s| ==> MatchAt(s, p).None?
    decreases |s| - from
  {
    if from == |s| then None
    else
      match MatchAt(s, from)
      case Some(e) => Some((from, e))
      case None => FindSep(s, from + 1)
  }

  /** A piece of the input: the half-open index range `[start, end)`. */
  datatype Span = Span(start: nat, end: nat)

  /**
   * `spans` is a split of `s[from..]` by `^\s*\n`: the pieces tile the input
   * from `from` to the end, consecutive pieces are separated by exactly one
   * match, and no match starts inside a piece (the leftmost match is taken).
   */
  predicate IsSplitFrom(s: string, from: nat, spans: seq<Span>) {
    && |spans| >= 1
    && spans[0].start == from
    && spans[|spans| - 1].end == |s|
    && (forall i :: 0 <= i < |spans| ==> spans[i].start <= spans[i].end <= |s|)
    && (forall i :: 0 <= i < |spans| - 1 ==> MatchAt(s, spans[i].end) == Some(spans[i + 1].start))
    && (forall i, p :: 0 <= i < |spans| && spans[i].start <= p < spans[i].end ==> MatchAt(s, p).None?)
  }

  /** Every piece starts at the start of a line. */
  predicate StartsLines(s: string, spans: seq<Span>) {
    forall i :: 0 <= i < |spans| ==> spans[i].start <= |s| && (spans[i].start == 0 || s[spans[i].start - 1] == '\n')
  }

  /** The spans `Regex.split` cuts out of `s[from..]`. */
  function Segments(s: string, from: nat): (r: seq<Span>)
    requires from <= |s|
    requires from == 0 || s[from - 1] == '\n'
    ensures IsSplitFrom(s, from, r) && StartsLines(s, r)
    decreases |s| - from
  {
    match FindSep(s, from)
    case None => [Span(from, |s|)]
    case Some((a, e)) =>
      var rest := Segments(s, e);
      SplitCons(s, from, a, e, rest);
      [Span(from, a)] + rest
  }

  /** A piece up to the first match, then a split of the rest, is a split. */
  lemma SplitCons(s: string, from: nat, a: nat, e: nat, rest: seq<Span>)
    requires from <= |s| && (from == 0 || s[from - 1] == '\n')
    requires FindSep(s, from) == Some((a, e))
    requires IsSplitFrom(s, e, rest) && StartsLines(s, rest)
    ensures IsSplitFrom(s, from, [Span(from, a)] + rest) && StartsLines(s, [Span(from, a)] + rest)
  {
    ConsPiecesMatchFree(s, from, a, e, rest);
    ConsSeparators(s, from, a, e, rest);
    ConsStartsLines(s, from, a, rest);
  }

  /** No match starts inside a piece of the consed split. */
  lemma ConsPiecesMatchFree(s: string, from: nat, a: nat, e: nat, rest: seq<Span>)
    requires from <= |s| && FindSep(s, from) == Some((a, e))
    requires IsSplitFrom(s, e, rest)
    ensures var spans := [Span(from, a)] + rest;
      forall i, p :: 0 <= i < |spans| && spans[i].start <= p < spans[i].end ==> MatchAt(s, p).None?
  {
    var spans := [Span(from, a)] + rest;
    forall i, p | 0 <= i < |spans| && spans[i].start <= p < spans[i].end
      ensures MatchAt(s, p).None?
    {
      if i > 0 {
        assert spans[i] == rest[i - 1];
      }
    }
  }

  /** Consecutive pieces of the consed split are separated by one match. */
  lemma ConsSeparators(s: string, from: nat, a: nat, e: nat, rest: seq<Span>)
    requires from <= |s| && FindSep(s, from) == Some((a, e))
    requires IsSplitFrom(s, e, rest)
    ensures var spans := [Span(from, a)] + rest;
      forall i :: 0 <= i < |spans| - 1 ==> MatchAt(s, spans[i].end) == Some(spans[i + 1].start)
  {
    var spans := [Span(from, a)] + rest;
    forall i | 0 <= i < |spans| - 1
      ensures MatchAt(s, spans[i].end) == Some(spans[i + 1].start)
    {
      if i > 0 {
        assert spans[i] == rest[i - 1] && spans[i + 1] == rest[i];
      }
    }
  }

  /** Every piece of the consed split starts a line. */
  lemma ConsStartsLines(s: string, from: nat, a: nat, rest: seq<Span>)
    requires from <= |s| && (from == 0 || s[from - 1] == '\n')
    requires StartsLines(s, rest)
    ensures StartsLines(s, [Span(from, a)] + rest)
  {
    var spans := [Span(from, a)] + rest;
    forall i | 0 <= i < |spans|
      ensures spans[i].start <= |s| && (spans[i].start == 0 || s[spans[i].start - 1] == '\n')
    {
      if i > 0 {
        assert spans[i] == rest[i - 1];
      }
    }
  }

  /** The leftmost match after `from` is the one `FindSep` reports. */
  lemma {:induction false} FindSepIsFirst(s: string, from: nat, a: nat, e: nat)
    requires from <= a <= |s|
    requires MatchAt(s, a) == Some(e)
    requires forall p :: from <= p < a ==> MatchAt(s, p).None?
    ensures FindSep(s, from) == Some((a, e))
    decreases a - from
  {
    if from < a {
      FindSepIsFirst(s, from + 1, a, e);
    }
  }

  /** A split of more than one piece is the first piece, cut at the first match, and a split of what follows the match. */
  lemma SplitTail(s: string, from: nat, spans: seq<Span>)
    requires IsSplitFrom(s, from, spans) && |spans| > 1
    ensures FindSep(s, from) == Some((spans[0].end, spans[1].start))
    ensures IsSplitFrom(s, spans[1].start, spans[1..])
    ensures spans[1].start <= |s| && s[spans[1].start - 1] == '\n'
  {
    FindSepIsFirst(s, from, spans[0].end, spans[1].start);
    var rest := spans[1..];
    forall i, p | 0 <= i < |rest| && rest[i].start <= p < rest[i].end
      ensures MatchAt(s, p).None?
    {
      assert spans[i + 1] == rest[i];
    }
    forall i | 0 <= i < |rest| - 1
      ensures MatchAt(s, rest[i].end) == Some(rest[i + 1].start)
    {
      assert spans[i + 1] == rest[i] && spans[i + 2] == rest[i + 1];
    }
  }

  /** A split is the one `Segments` cuts: piece by piece, each first match is the one `FindSep` finds. */
  lemma {:induction false} SplitIsSegments(s: string, from: nat, spans: seq<Span>)
    requires from <= |s|
    requires from == 0 || s[from - 1] == '\n'
    requires IsSplitFrom(s, from, spans)
    ensures spans == Segments(s, from)
    decreases |s| - from
  {
    if |spans| == 1 {
      SingleSplit(s, from, spans);
    } else {
      SplitTail(s, from, spans);
      SplitIsSegments(s, spans[1].start, spans[1..]);
      SplitIsSegmentsCons(s, from, spans);
    }
  }

  /** A split into one piece is `Segments`: no separator follows `from`. */
  lemma SingleSplit(s: string, from: nat, spans: seq<Span>)
    requires from <= |s|
    requires from == 0 || s[from - 1] == '\n'
    requires IsSplitFrom(s, from, spans) && |spans| == 1
    ensures spans == Segments(s, from)
  {
    assert FindSep(s, from).None?;
  }

  /** A split whose pieces after the first are those `Segments` cuts after the first separator is `Segments`. */
  lemma SplitIsSegmentsCons(s: string, from: nat, spans: seq<Span>)
    requires from <= |s|
    requires from == 0 || s[from - 1] == '\n'
    requires |spans| > 1 && spans[0].start == from
    requires FindSep(s, from) == Some((spans[0].end, spans[1].start))
    requires spans[1].start <= |s| && s[spans[1].start - 1] == '\n'
    requires spans[1..] == Segments(s, spans[1].start)
    ensures spans == Segments(s, from)
  {
    assert spans == [Span(from, spans[0].end)] + spans[1..];
  }

  /** There is exactly one split: any `spans` with the split properties are `Segments`. */
  lemma SplitIsUnique(s: string, from: nat, spans: seq<Span>)
    requires from <= |s|
    requires from == 0 || s[from - 1] == '\n'
    ensures IsSplitFrom(s, from, spans) <==> spans == Segments(s, from)
  {
    if IsSplitFrom(s, from, spans) {
      SplitIsSegments(s, from, spans);
    }
  }

  /** The piece texts of a split: untrimmed slices of the input. */
  function Slices(s: string, spans: seq<Span>): (r: seq<string>)
    requires forall i :: 0 <= i < |spans| ==> spans[i].start <= spans[i].end <= |s|
    ensures |r| == |spans|
    ensures forall i :: 0 <= i < |r| ==> r[i] == s[spans[i].start..spans[i].end]
  {
    seq(|spans|, i requires 0 <= i < |spans| => s[spans[i].start..spans[i].end])
  }

  /** `text.split(PATTERN_EMPTY_LINE)`. */
  function SplitOnBlankLines(text: string): seq<string> {
    Slices(text, Segments(text, 0))
  }

  /** `filter { !it.isBlank() }`: keeps the non-blank pieces, in order. */
  function DropBlank(xs: seq<string>): (r: seq<string>)
    ensures |r| <= |xs|
  {
    if |xs| == 0 then []
    else (if IsBlank(xs[0]) then [] else [xs[0]]) + DropBlank(xs[1..])
  }

  /** The filter keeps exactly the non-blank pieces. */
  lemma {:induction false} DropBlankMembers(xs: seq<string>)
    ensures forall t :: t in DropBlank(xs) <==> t in xs && !IsBlank(t)
    decreases |xs|
  {
    if |xs| > 0 {
      DropBlankMembers(xs[1..]);
      assert xs == [xs[0]] + xs[1..];
    }
  }

  /** Filtering commutes with concatenation, so the kept pieces stay in input order. */
  lemma {:induction false} DropBlankAppend(xs: seq<string>, ys: seq<string>)
    ensures DropBlank(xs + ys) == DropBlank(xs) + DropBlank(ys)
    decreases |xs|
  {
    if |xs| > 0 {
      var head := if IsBlank(xs[0]) then [] else [xs[0]];
      assert (xs + ys)[0] == xs[0];
      assert (xs + ys)[1..] == xs[1..] + ys;
      assert DropBlank(xs + ys) == head + DropBlank(xs[1..] + ys);
      DropBlankAppend(xs[1..], ys);
      assert DropBlank(xs) == head + DropBlank(xs[1..]);
    } else {
      assert xs + ys == ys;
    }
  }

  /** `QueryReader.readAll` on the text of the file. */
  function ReadAll(text: string): seq<string> {
    DropBlank(SplitOnBlankLines(text))
  }

  /** Every query `readAll` returns is a non-blank piece of the split. */
  lemma ReadAllPieces(text: string)
    ensures forall t :: t in ReadAll(text) <==> !IsBlank(t) && t in SplitOnBlankLines(text)
  {
    DropBlankMembers(SplitOnBlankLines(text));
  }

  /**
   * A slice that starts at a line start and inside which no match starts has
   * no whitespace-only line ending in '\n'.
   */
  lemma MatchFreeSliceHasNoBlankLine(s: string, a: nat, b: nat)
    requires a <= b <= |s|
    requires a == 0 || s[a - 1] == '\n'
    requires forall p :: a <= p < b ==> MatchAt(s, p).None?
    ensures !HasBlankLine(s[a..b])
  {
    var t := s[a..b];
    forall p: nat, k: nat | BlankLineAt(t, p, k)
      ensures BlankLineAt(s, a + p, a + k)
    {
      if p > 0 {
        assert s[a + p - 1] == t[p - 1];
      }
      forall j | a + p <= j <= a + k
        ensures IsRegexSpace(s[j])
      {
        assert s[j] == t[j - a];
      }
    }
    forall p: nat, k: nat | a <= p < b
      ensures !BlankLineAt(s, p, k)
    {
      MatchAtIsLongestBlankLine(s, p);
    }
  }

  /** No piece of a split contains a whitespace-only line ending in '\n'. */
  lemma SplitPieceHasNoBlankLine(s: string, from: nat, spans: seq<Span>, i: nat)
    requires IsSplitFrom(s, from, spans) && i < |spans|
    requires spans[i].start == 0 || s[spans[i].start - 1] == '\n'
    ensures !HasBlankLine(s[spans[i].start..spans[i].end])
  {
    MatchFreeSliceHasNoBlankLine(s, spans[i].start, spans[i].end);
  }

  /** No piece of the split contains a whitespace-only line ending in '\n'. */
  lemma PieceHasNoBlankLine(s: string, i: nat)
    requires i < |SplitOnBlankLines(s)|
    ensures !HasBlankLine(SplitOnBlankLines(s)[i])
  {
    var spans := Segments(s, 0);
    SplitPieceHasNoBlankLine(s, 0, spans, i);
  }

  /** The text a separator match removes is blank: the split drops whitespace only. */
  lemma SeparatorIsBlank(s: string, p: nat)
    requires p <= |s|
    ensures MatchAt(s, p).Some? ==> IsBlank(s[p..MatchAt(s, p).value])
  {
    if MatchAt(s, p).Some? {
      var r := MatchAt(s, p).value;
      MatchAtIsLongestBlankLine(s, p);
      assert BlankLineAt(s, p, r - 1);
      var t := s[p..r];
      assert forall i :: 0 <= i < |t| ==> t[i] == s[p + i];
      RegexSpaceIsWhitespace(t);
    }
  }

  /** A piece of the split made only of `\s` characters is not among the queries. */
  lemma RegexSpacePieceDropped(text: string, t: string)
    requires t in SplitOnBlankLines(text)
    requires forall i :: 0 <= i < |t| ==> IsRegexSpace(t[i])
    ensures t !in ReadAll(text)
  {
    RegexSpaceIsWhitespace(t);
    ReadAllPieces(text);
  }

  /** No query returned by `readAll` contains a whitespace-only line ending in '\n'. */
  lemma ReadAllHasNoBlankLine(text: string)
    ensures forall t :: t in ReadAll(text) ==> !HasBlankLine(t)
  {
    ReadAllPieces(text);
    forall t | t in ReadAll(text)
      ensures !HasBlankLine(t)
    {
      var pieces := SplitOnBlankLines(text);
      var i :| 0 <= i < |pieces| && pieces[i] == t;
      PieceHasNoBlankLine(text, i);
    }
  }

  /** In particular no query returned by `readAll` contains two '\n' in a row. */
  lemma ReadAllHasNoEmptyLine(text: string)
    ensures forall t, j :: t in ReadAll(text) && 0 <= j < |t| - 1 ==> !(t[j] == '\n' && t[j + 1] == '\n')
  {
    forall t, j | t in ReadAll(text) && 0 <= j < |t| - 1 && t[j] == '\n' && t[j + 1] == '\n'
      ensures HasBlankLine(t)
    {
      assert BlankLineAt(t, j + 1, j + 1);
    }
    ReadAllHasNoBlankLine(text);
  }

  /** A text with a blank-line separator is cut into pieces all shorter than itself. */
  lemma BlankLineCutsText(text: string)
    requires HasBlankLine(text)
    ensures forall t :: t in SplitOnBlankLines(text) ==> |t| < |text|
  {
    BlankLineSplits(text);
    PiecesOfSplitAreShorter(text, 0, Segments(text, 0));
  }

  /** A text with a blank-line separator is cut into two pieces or more. */
  lemma BlankLineSplits(text: string)
    requires HasBlankLine(text)
    ensures |Segments(text, 0)| >= 2
  {
    var p: nat, k: nat :| p <= k < |text| && BlankLineAt(text, p, k);
    MatchAtIsLongestBlankLine(text, p);
    assert FindSep(text, 0).Some?;
  }

  /** Each of two pieces or more is shorter than the text, since a non-empty separator follows or precedes it. */
  lemma PiecesOfSplitAreShorter(s: string, from: nat, spans: seq<Span>)
    requires IsSplitFrom(s, from, spans) && |spans| >= 2
    ensures forall i :: 0 <= i < |spans| ==> spans[i].end - spans[i].start < |s|
  {
    forall i | 0 <= i < |spans|
      ensures spans[i].end - spans[i].start < |s|
    {
      if i < |spans| - 1 {
        assert spans[i].end < spans[i + 1].start;
      } else {
        assert spans[i - 1].end < spans[i].start;
      }
    }
  }

  /** Without a blank-line separator the split is the whole text. */
  lemma NoBlankLineKeepsText(text: string)
    requires !HasBlankLine(text)
    ensures SplitOnBlankLines(text) == [text]
  {
    forall p | 0 <= p <= |text|
      ensures MatchAt(text, p).None?
    {
      MatchAtIsLongestBlankLine(text, p);
    }
    assert Segments(text, 0) == [Span(0, |text|)];
    assert text[0..|text|] == text;
  }

  /**
   * `readAll` returns the whole text as its only query exactly when the text
   * is not blank and has no whitespace-only line ending in '\n'.
   */
  lemma ReadAllWholeText(text: string)
    ensures ReadAll(text) == [text] <==> !IsBlank(text) && !HasBlankLine(text)
  {
    ReadAllPieces(text);
    if HasBlankLine(text) {
      BlankLineCutsText(text);
    } else {
      NoBlankLineKeepsText(text);
    }
    assert ReadAll(text) == [text] ==> text in ReadAll(text);
  }

  /** Text without any blank-line separator is read as exactly one query. */
  lemma SingleQueryText(text: string)
    requires !IsBlank(text) && !HasBlankLine(text)
    ensures ReadAll(text) == [text]
  {
    ReadAllWholeText(text);
  }
}
