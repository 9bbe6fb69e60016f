/**
 * Character classes and small string utilities of the JVM / Kotlin standard
 * library that the benchmark relies on: the regex class `\s`, Kotlin's
 * `isBlank`, `String.split(",")`, `Int.toString()` and `File.nameWithoutExtension`.
 */
module Text {
  import opened Results

  /** Java's regex class `\s` (no UNICODE_CHARACTER_CLASS flag): `[ \t\n\x0B\f\r]`. */
  predicate IsRegexSpace(c: char) {
    c == ' ' || c == '\t' || c == '\n' || c == '\r' || c == '\U{000B}' || c == '\U{000C}'
  }

  /**
   * Kotlin's `Char.isWhitespace()` on the JVM: `Character.isWhitespace(c) ||
   * Character.isSpaceChar(c)`, i.e. the control characters U+0009..U+000D and
   * U+001C..U+001F together with every space, line and paragraph separator.
   */
  predicate IsKotlinWhitespace(c: char) {
    var n := c as int;
    || (0x09 <= n <= 0x0D)
    || (0x1C <= n <= 0x20)
    || n == 0xA0
    || n == 0x1680
    || (0x2000 <= n <= 0x200A)
    || n == 0x2028 || n == 0x2029 || n == 0x202F || n == 0x205F
    || n == 0x3000
  }

  /** Kotlin's `CharSequence.isBlank()`: empty, or whitespace only. */
  predicate IsBlank(s: string) {
    forall i :: 0 <= i < |s| ==> IsKotlinWhitespace(s[i])
  }

  /**
   * Every character of the regex class `\s` is whitespace for Kotlin as
   * well, so a string made only of `\s` characters is blank.
   */
  lemma RegexSpaceIsWhitespace(t: string)
    ensures (forall i :: 0 <= i < |t| ==> IsRegexSpace(t[i])) ==> IsBlank(t)
  {
  }

  /** Position of the first occurrence of `c` in `s` (`indexOf`). */
  function IndexOf(s: string, c: char): (r: Option<nat>)
    ensures r.Some? ==> r.value < |s| && s[r.value] == c && c !in s[..r.value]
    ensures r.None? ==> c !in s
  {
    if |s| == 0 then None
    else if s[0] == c then Some(0)
    else
      match IndexOf(s[1..], c)
      case None => None
      case Some(i) => Some(i + 1)
  }

  /** Position of the last occurrence of `c` in `s` (`lastIndexOf`). */
  function LastIndexOf(s: string, c: char): (r: Option<nat>)
    ensures r.Some? ==> r.value < |s| && s[r.value] == c && c !in s[r.value + 1..]
    ensures r.None? ==> c !in s
  {
    if |s| == 0 then None
    else if s[|s| - 1] == c then Some(|s| - 1)
    else
      match LastIndexOf(s[..|s| - 1], c)
      case None => None
      case Some(i) => Some(i)
  }

  /** The parts of `s` between occurrences of `d`, joined back with `d`. */
  function Join(parts: seq<string>, d: char): string
  {
    if |parts| == 0 then ""
    else if |parts| == 1 then parts[0]
    else parts[0] + [d] + Join(parts[1..], d)
  }

  /**
   * Kotlin's `String.split(d)` with no limit: every piece is kept, including
   * empty leading and trailing ones, so there is always at least one piece.
   */
  function Split(s: string, d: char): (r: seq<string>)
    ensures |r| >= 1
    ensures forall k :: 0 <= k < |r| ==> d !in r[k]
    ensures Join(r, d) == s
    decreases |s|
  {
    match IndexOf(s, d)
    case None => [s]
    case Some(i) =>
      assert s == s[..i] + [d] + s[i + 1..];
      [s[..i]] + Split(s[i + 1..], d)
  }

  /** Splitting a joined list of delimiter-free parts gives the parts back. */
  lemma {:induction false} SplitJoin(parts: seq<string>, d: char)
    requires |parts| >= 1
    requires forall k :: 0 <= k < |parts| ==> d !in parts[k]
    ensures Split(Join(parts, d), d) == parts
    decreases |parts|
  {
    if |parts| == 1 {
      assert IndexOf(parts[0], d).None?;
    } else {
      var s := Join(parts, d);
      var rest := Join(parts[1..], d);
      assert s == parts[0] + [d] + rest;
      IndexOfAfterFree(parts[0], d, rest);
      assert s[..|parts[0]|] == parts[0];
      assert s[|parts[0]| + 1..] == rest;
      SplitJoin(parts[1..], d);
      assert parts == [parts[0]] + parts[1..];
    }
  }

  /** The first `d` of `a + [d] + b` is the one right after `a` when `a` holds none. */
  lemma {:induction false} IndexOfAfterFree(a: string, d: char, b: string)
    requires d !in a
    ensures IndexOf(a + [d] + b, d) == Some(|a|)
    decreases |a|
  {
    if |a| > 0 {
      assert (a + [d] + b)[1..] == a[1..] + [d] + b;
      IndexOfAfterFree(a[1..], d, b);
    }
  }

  /** The character of a decimal digit. */
  function DigitChar(d: nat): (c: char)
    requires d < 10
    ensures IsDigit(c) && c as int - '0' as int == d
  {
    ('0' as int + d) as char
  }

  predicate IsDigit(c: char) {
    '0' as int <= c as int <= '9' as int
  }

  /** Kotlin's `Int.toString()` for a non-negative value: decimal, no leading zeros. */
  function NatToString(n: nat): (r: string)
    ensures |r| >= 1
    ensures forall i :: 0 <= i < |r| ==> IsDigit(r[i])
    ensures |r| > 1 ==> r[0] != '0'
    decreases n
  {
    if n < 10 then [DigitChar(n)] else NatToString(n / 10) + [DigitChar(n % 10)]
  }

  /** The number a string of decimal digits denotes. */
  function DecimalValue(s: string): nat
    requires forall i :: 0 <= i < |s| ==> IsDigit(s[i])
  {
    if |s| == 0 then 0
    else
      assert IsDigit(s[|s| - 1]);
      DecimalValue(s[..|s| - 1]) * 10 + (s[|s| - 1] as int - '0' as int)
  }

  /** Reading back the decimal text of `n` gives `n`; so distinct indices get distinct ids. */
  lemma {:induction false} DecimalRoundTrip(n: nat)
    ensures DecimalValue(NatToString(n)) == n
    decreases n
  {
    if n >= 10 {
      var s := NatToString(n);
      assert s[..|s| - 1] == NatToString(n / 10);
      DecimalRoundTrip(n / 10);
    }
  }

  /** `NatToString` never maps two indices to the same id. */
  lemma NatToStringInjective(m: nat, n: nat)
    ensures NatToString(m) == NatToString(n) ==> m == n
  {
    DecimalRoundTrip(m);
    DecimalRoundTrip(n);
  }

  /**
   * Kotlin's `File.nameWithoutExtension`: `name.substringBeforeLast(".")`,
   * the whole name when it has no dot.
   */
  function NameWithoutExtension(name: string): string {
    match LastIndexOf(name, '.')
    case None => name
    case Some(i) => name[..i]
  }

  /** Without a dot the name is kept; otherwise it is cut just before its last dot. */
  lemma NameWithoutExtensionCuts(name: string)
    ensures var r := NameWithoutExtension(name);
      && ('.' !in name ==> r == name)
      && ('.' in name ==> |r| < |name| && r == name[..|r|] && name[|r|] == '.' && '.' !in name[|r| + 1..])
  {
  }
}
