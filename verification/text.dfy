/** The string operations of the Kotlin standard library that the modelled
    code relies on: `startsWith`, `endsWith`, `contains`, `split`,
    `joinToString`, `trim`, and decimal rendering of integers. Strings are
    sequences of Unicode scalar values. */
module Text {
  import opened Wrappers

  // ---------------------------------------------------------------------------
  // Character classes
  // ---------------------------------------------------------------------------

  /** Kotlin's `Char.isWhitespace()` on the JVM: Java's `isWhitespace` (tab,
      line feed, vertical tab, form feed, carriage return, the four
      information separators) together with the Unicode space, line and
      paragraph separators. This is the class that `String.trim()` strips. */
  predicate IsWhitespace(c: char) {
    || c == ' ' || c == '\t' || c == '\n' || c == '\U{000B}' || c == '\U{000C}' || c == '\r'
    || ('\U{001C}' <= c <= '\U{001F}')
    || c == '\U{00A0}' || c == '\U{1680}' || ('\U{2000}' <= c <= '\U{200A}')
    || c == '\U{2028}' || c == '\U{2029}' || c == '\U{202F}' || c == '\U{205F}' || c == '\U{3000}'
  }

  /** The regular-expression class `\s` of `java.util.regex` (ASCII only). */
  predicate IsRegexSpace(c: char) {
    c == ' ' || c == '\t' || c == '\n' || c == '\U{000B}' || c == '\U{000C}' || c == '\r'
  }

  /** The regular-expression class `\d` of `java.util.regex` (ASCII only). */
  predicate IsDigit(c: char) {
    '0' <= c <= '9'
  }

  predicate AllDigits(s: string) {
    forall k :: 0 <= k < |s| ==> IsDigit(s[k])
  }

  predicate AllWhitespace(s: string) {
    forall k :: 0 <= k < |s| ==> IsWhitespace(s[k])
  }

  // ---------------------------------------------------------------------------
  // Prefixes, suffixes and occurrences
  // ---------------------------------------------------------------------------

  predicate StartsWith(s: string, prefix: string) {
    |prefix| <= |s| && s[..|prefix|] == prefix
  }

  predicate EndsWith(s: string, suffix: string) {
    |suffix| <= |s| && s[|s| - |suffix|..] == suffix
  }

  /** `pattern` occurs in `s` starting at index `k`. */
  predicate OccursAt(s: string, pattern: string, k: nat) {
    k + |pattern| <= |s| && s[k..k + |pattern|] == pattern
  }

  /** The first occurrence of `pattern` in `s` at or after `from`. */
  function IndexOfFrom(s: string, pattern: string, from: nat): (r: Option<nat>)
    requires from <= |s|
    ensures r.Some? ==> from <= r.value && OccursAt(s, pattern, r.value)
    ensures r.Some? ==> forall k :: from <= k < r.value ==> !OccursAt(s, pattern, k)
    ensures r.None? ==> forall k :: from <= k <= |s| ==> !OccursAt(s, pattern, k)
    decreases |s| - from
  {
    if from + |pattern| > |s| then None
    else if s[from..from + |pattern|] == pattern then Some(from)
    else if from == |s| then None
    else IndexOfFrom(s, pattern, from + 1)
  }

  /** Kotlin's `indexOf`, with `None` for -1. */
  function IndexOf(s: string, pattern: string): Option<nat> {
    IndexOfFrom(s, pattern, 0)
  }

  /** Kotlin's `contains`. */
  predicate Contains(s: string, pattern: string) {
    IndexOf(s, pattern).Some?
  }

  /** A prefix is in particular an occurrence. */
  lemma StartsWithContains(s: string, prefix: string)
    requires StartsWith(s, prefix)
    ensures Contains(s, prefix)
  {
    assert OccursAt(s, prefix, 0);
  }

  /** The text before the first occurrence of `delimiter`, or all of `s`:
      element 0 of Kotlin's `s.split(delimiter)`. */
  function SubstringBefore(s: string, delimiter: string): (r: string)
    ensures StartsWith(s, r)
    ensures !Contains(s, delimiter) ==> r == s
    ensures Contains(s, delimiter) ==> OccursAt(s, delimiter, |r|)
    ensures forall k :: 0 <= k < |r| ==> !OccursAt(s, delimiter, k)
  {
    match IndexOf(s, delimiter)
    case None => s
    case Some(i) => s[..i]
  }

  /** Kotlin's `removePrefix`. */
  function RemovePrefix(s: string, prefix: string): (r: string)
    ensures StartsWith(s, prefix) ==> prefix + r == s
    ensures !StartsWith(s, prefix) ==> r == s
  {
    if StartsWith(s, prefix) then s[|prefix|..] else s
  }

  // ---------------------------------------------------------------------------
  // Splitting into lines and joining them back
  // ---------------------------------------------------------------------------

  /** `joinToString(separator)`. */
  function Join(parts: seq<string>, separator: string): string
    decreases |parts|
  {
    if |parts| == 0 then ""
    else if |parts| == 1 then parts[0]
    else parts[0] + separator + Join(parts[1..], separator)
  }

  /** Kotlin's `split` on a one-character delimiter: every delimiter ends a
      part, empty parts are kept, and there is always at least one part. */
  function Split(s: string, separator: char): (parts: seq<string>)
    ensures |parts| >= 1
    ensures forall i :: 0 <= i < |parts| ==> separator !in parts[i]
    decreases |s|
  {
    if |s| == 0 then [""]
    else
      var rest := Split(s[1..], separator);
      if s[0] == separator then [""] + rest
      else [[s[0]] + rest[0]] + rest[1..]
  }

  /** Joining the parts with the delimiter gives back the original text. */
  lemma {:induction false} JoinSplit(s: string, separator: char)
    ensures Join(Split(s, separator), [separator]) == s
    decreases |s|
  {
    if |s| > 0 {
      var rest := Split(s[1..], separator);
      JoinSplit(s[1..], separator);
      if s[0] == separator {
        assert Split(s, separator) == [""] + rest;
        assert s == [separator] + s[1..];
      } else {
        var parts := Split(s, separator);
        assert parts == [[s[0]] + rest[0]] + rest[1..];
        if |rest| == 1 {
          assert s == [s[0]] + s[1..];
        } else {
          assert parts[1..] == rest[1..];
          assert Join(parts, [separator]) == [s[0]] + (rest[0] + [separator] + Join(rest[1..], [separator]));
          assert s == [s[0]] + s[1..];
        }
      }
    }
  }

  /** Text without the delimiter is one part. */
  lemma {:induction false} SplitWithoutSeparator(s: string, separator: char)
    requires separator !in s
    ensures Split(s, separator) == [s]
    decreases |s|
  {
    if |s| > 0 {
      SplitWithoutSeparator(s[1..], separator);
      assert s == [s[0]] + s[1..];
    }
  }

  /** Splitting distributes over a delimiter. */
  lemma {:induction false} SplitAtSeparator(a: string, b: string, separator: char)
    ensures Split(a + [separator] + b, separator) == Split(a, separator) + Split(b, separator)
    decreases |a|
  {
    var s := a + [separator] + b;
    if |a| == 0 {
      assert s[1..] == b;
    } else {
      assert s[0] == a[0];
      assert s[1..] == a[1..] + [separator] + b;
      SplitAtSeparator(a[1..], b, separator);
    }
  }

  /** Parts without the delimiter are recovered by splitting their join. */
  lemma {:induction false} SplitJoin(parts: seq<string>, separator: char)
    requires |parts| >= 1
    requires forall i :: 0 <= i < |parts| ==> separator !in parts[i]
    ensures Split(Join(parts, [separator]), separator) == parts
    decreases |parts|
  {
    SplitWithoutSeparator(parts[0], separator);
    if |parts| > 1 {
      SplitJoin(parts[1..], separator);
      SplitAtSeparator(parts[0], Join(parts[1..], [separator]), separator);
      assert parts == [parts[0]] + parts[1..];
    }
  }

  // ---------------------------------------------------------------------------
  // Trimming
  // ---------------------------------------------------------------------------

  function TrimStart(s: string): (r: string)
    ensures |r| <= |s| && r == s[|s| - |r|..]
    ensures AllWhitespace(s[..|s| - |r|])
    ensures |r| > 0 ==> !IsWhitespace(r[0])
    decreases |s|
  {
    if |s| > 0 && IsWhitespace(s[0]) then TrimStart(s[1..]) else s
  }

  function TrimEnd(s: string): (r: string)
    ensures |r| <= |s| && r == s[..|r|]
    ensures AllWhitespace(s[|r|..])
    ensures |r| > 0 ==> !IsWhitespace(r[|r| - 1])
    decreases |s|
  {
    if |s| > 0 && IsWhitespace(s[|s| - 1]) then TrimEnd(s[..|s| - 1]) else s
  }

  /** `r` is the infix of `s` at `i`, and only whitespace surrounds it. */
  predicate TrimmedAt(s: string, r: string, i: nat) {
    && i + |r| <= |s|
    && r == s[i..i + |r|]
    && AllWhitespace(s[..i])
    && AllWhitespace(s[i + |r|..])
  }

  /** Kotlin's `trim()`: the infix left after removing whitespace from both
      ends. */
  function Trim(s: string): (r: string)
    ensures |r| > 0 ==> !IsWhitespace(r[0]) && !IsWhitespace(r[|r| - 1])
    ensures exists i :: TrimmedAt(s, r, i)
  {
    var t := TrimStart(s);
    var r := TrimEnd(t);
    var i := |s| - |t|;
    assert r == s[i..i + |r|];
    assert s[i + |r|..] == t[|r|..];
    assert |r| > 0 ==> r[0] == t[0];
    assert TrimmedAt(s, r, i);
    r
  }

  /** Trimming twice is trimming once. */
  lemma TrimIdempotent(s: string)
    ensures Trim(Trim(s)) == Trim(s)
  {
  }

  // ---------------------------------------------------------------------------
  // Decimal numerals
  // ---------------------------------------------------------------------------

  function DigitValue(c: char): nat
    requires IsDigit(c)
  {
    (c as int) - ('0' as int)
  }

  function DigitChar(d: nat): (c: char)
    requires d < 10
    ensures IsDigit(c) && DigitValue(c) == d
  {
    ((('0' as int) + d) as char)
  }

  /** The value of a run of decimal digits, most significant first (leading
      zeros allowed, as `toIntOrNull` allows them). */
  function DigitsValue(ds: string): nat
    requires AllDigits(ds)
    decreases |ds|
  {
    if |ds| == 0 then 0
    else DigitsValue(ds[..|ds| - 1]) * 10 + DigitValue(ds[|ds| - 1])
  }

  /** The decimal numeral of `n` without leading zeros; `DigitsValue` reads it
      back. */
  function NatToString(n: nat): (r: string)
    ensures |r| >= 1 && AllDigits(r)
    ensures DigitsValue(r) == n
    ensures r[0] == '0' ==> r == "0"
    decreases n
  {
    if n < 10 then [DigitChar(n)]
    else
      var r := NatToString(n / 10) + [DigitChar(n % 10)];
      assert r[..|r| - 1] == NatToString(n / 10);
      r
  }

  /** Kotlin's `Long.toString()`: a minus sign for negative values. */
  function IntToString(i: int): (r: string)
    ensures i >= 0 ==> r == NatToString(i)
    ensures i < 0 ==> r == "-" + NatToString(-i)
  {
    if i < 0 then "-" + NatToString(-i) else NatToString(i)
  }

  /** Different numbers render differently. */
  lemma NatToStringInjective(a: nat, b: nat)
    requires NatToString(a) == NatToString(b)
    ensures a == b
  {
  }
}
