/**
  The JavaScript string primitives the core relies on, over `seq<char>`:
  the whitespace and line-terminator classes of ECMAScript regular expressions
  and `trim`, `startsWith`, `indexOf`/`includes`, `split` on one character,
  `parseInt(_, 10)` and decimal formatting of non-negative integers.
 */
module Text {
  import opened Types

  /** `^` in multiline mode matches after these characters. */
  predicate IsLineTerminator(c: char)
  {
    c == '\n' || c == '\r' || c == '\U{2028}' || c == '\U{2029}'
  }

  /** The class `\s` and the characters `trim` removes (WhiteSpace and LineTerminator). */
  predicate IsWhitespace(c: char)
  {
    || IsLineTerminator(c)
    || c == '\t' || c == '\U{000B}' || c == '\U{000C}' || c == ' '
    || c == '\U{00A0}' || c == '\U{1680}' || ('\U{2000}' <= c <= '\U{200A}')
    || c == '\U{202F}' || c == '\U{205F}' || c == '\U{3000}' || c == '\U{FEFF}'
  }

  /** The class `\d`. */
  predicate IsDigit(c: char)
  {
    '0' <= c <= '9'
  }

  predicate AllWhitespace(s: string)
  {
    forall i :: 0 <= i < |s| ==> IsWhitespace(s[i])
  }

  predicate AllDigits(s: string)
  {
    forall i :: 0 <= i < |s| ==> IsDigit(s[i])
  }

  predicate StartsWith(s: string, p: string)
  {
    |p| <= |s| && s[..|p|] == p
  }

  /** `p` occurs in `s` beginning at index `i`. */
  predicate OccursAt(s: string, p: string, i: nat)
  {
    i + |p| <= |s| && s[i..i + |p|] == p
  }

  /** `s.includes(p)`. */
  predicate Contains(s: string, p: string)
  {
    exists i: nat :: i <= |s| && OccursAt(s, p, i)
  }

  /** The first occurrence of `p` in `s` at or after `from`. */
  function IndexFrom(s: string, p: string, from: nat): (r: Option<nat>)
    ensures r.Some? ==> from <= r.value && OccursAt(s, p, r.value)
    ensures r.Some? ==> forall j: nat :: from <= j < r.value ==> !OccursAt(s, p, j)
    ensures r.None? ==> forall j: nat :: from <= j ==> !OccursAt(s, p, j)
    decreases |s| + 1 - from
  {
    if from + |p| > |s| then None
    else if OccursAt(s, p, from) then Some(from)
    else IndexFrom(s, p, from + 1)
  }

  /** `s.indexOf(p)`, with -1 rendered as `None`. */
  function IndexOf(s: string, p: string): (r: Option<nat>)
    ensures r.Some? <==> Contains(s, p)
    ensures r.Some? ==> OccursAt(s, p, r.value)
    ensures r.Some? ==> forall j: nat :: j < r.value ==> !OccursAt(s, p, j)
  {
    IndexFrom(s, p, 0)
  }

  /** An occurrence at `i` is also an occurrence of `p` in any extension of `s`. */
  lemma OccursInExtension(s: string, t: string, p: string, i: nat)
    requires OccursAt(s, p, i)
    ensures OccursAt(s + t, p, i)
  {
    assert (s + t)[i..i + |p|] == s[i..i + |p|];
  }

  /** A string with a prefix `p` contains `p` at index 0. */
  lemma StartsWithOccurs(s: string, p: string)
    requires StartsWith(s, p)
    ensures OccursAt(s, p, 0) && Contains(s, p)
  {
    assert 0 <= |s| && OccursAt(s, p, 0);
  }

  /** Two adjacent characters `x`, `y` appear somewhere in `s`. */
  predicate HasPair(s: string, x: char, y: char)
  {
    exists i :: 0 <= i < |s| - 1 && s[i] == x && s[i + 1] == y
  }

  /** A pair cannot straddle `a + b` when `a` does not end with its first character. */
  lemma ConsPairFree(a: string, b: string, x: char, y: char)
    requires !HasPair(a, x, y) && !HasPair(b, x, y)
    requires a != [] && a[|a| - 1] != x
    ensures !HasPair(a + b, x, y)
  {
    forall i | 0 <= i < |a + b| - 1
      ensures !((a + b)[i] == x && (a + b)[i + 1] == y)
    {
      if i + 1 < |a| {
        assert (a + b)[i] == a[i] && (a + b)[i + 1] == a[i + 1];
      } else if i + 1 == |a| {
        assert (a + b)[i] == a[|a| - 1];
      } else {
        assert (a + b)[i] == b[i - |a|] && (a + b)[i + 1] == b[i - |a| + 1];
      }
    }
  }

  // ---------------------------------------------------------------- trim

  /** The number of whitespace characters at the start of `s`. */
  function LeadingWhitespace(s: string): (n: nat)
    ensures n <= |s|
    ensures AllWhitespace(s[..n])
    ensures n < |s| ==> !IsWhitespace(s[n])
  {
    if s == [] || !IsWhitespace(s[0]) then 0
    else
      var n := 1 + LeadingWhitespace(s[1..]);
      assert s[..n] == [s[0]] + s[1..][..n - 1];
      n
  }

  /** The number of whitespace characters at the end of `s`. */
  function TrailingWhitespace(s: string): (n: nat)
    ensures n <= |s|
    ensures AllWhitespace(s[|s| - n..])
    ensures n < |s| ==> !IsWhitespace(s[|s| - n - 1])
  {
    if s == [] || !IsWhitespace(s[|s| - 1]) then 0
    else
      var n := 1 + TrailingWhitespace(s[..|s| - 1]);
      assert s[|s| - n..] == s[..|s| - 1][|s| - n..] + [s[|s| - 1]];
      n
  }

  /** `s.trim()`: the infix of `s` left after removing whitespace at both ends. */
  function Trim(s: string): (r: string)
    ensures r == [] || (!IsWhitespace(r[0]) && !IsWhitespace(r[|r| - 1]))
    ensures LeadingWhitespace(s) + |r| <= |s|
    ensures r == s[LeadingWhitespace(s)..LeadingWhitespace(s) + |r|]
    ensures AllWhitespace(s[LeadingWhitespace(s) + |r|..])
    ensures r == [] <==> AllWhitespace(s)
  {
    var a := LeadingWhitespace(s);
    var rest := s[a..];
    var b := TrailingWhitespace(rest);
    var r := rest[..|rest| - b];
    assert s[a + |r|..] == rest[|rest| - b..];
    if r == [] then
      assert rest == rest[|rest| - b..];
      WhitespaceConcat(s[..a], rest);
      assert s == s[..a] + rest;
      r
    else
      r
  }

  lemma WhitespaceConcat(a: string, b: string)
    requires AllWhitespace(a) && AllWhitespace(b)
    ensures AllWhitespace(a + b)
  {
  }

  /** A string with no whitespace at either end is its own trim. */
  lemma TrimOfTrimmed(s: string)
    requires s == [] || (!IsWhitespace(s[0]) && !IsWhitespace(s[|s| - 1]))
    ensures Trim(s) == s
  {
    if s != [] {
      assert LeadingWhitespace(s) == 0;
      assert TrailingWhitespace(s) == 0;
    }
  }

  /** Trimming twice is trimming once. */
  lemma TrimIdempotent(s: string)
    ensures Trim(Trim(s)) == Trim(s)
  {
    TrimOfTrimmed(Trim(s));
  }

  // ------------------------------------------------------------ digits

  function DigitValue(c: char): (d: nat)
    requires IsDigit(c)
    ensures d < 10
  {
    c as int - '0' as int
  }

  function DigitChar(d: nat): (c: char)
    requires d < 10
    ensures IsDigit(c) && DigitValue(c) == d
  {
    ('0' as int + d) as char
  }

  /** The value of a string of decimal digits, most significant first. */
  function DigitsValue(ds: string): nat
    requires AllDigits(ds)
  {
    if ds == [] then 0
    else DigitsValue(ds[..|ds| - 1]) * 10 + DigitValue(ds[|ds| - 1])
  }

  /** The number of decimal digits at the start of `s`. */
  function LeadingDigits(s: string): (n: nat)
    ensures n <= |s|
    ensures AllDigits(s[..n])
    ensures n < |s| ==> !IsDigit(s[n])
  {
    if s == [] || !IsDigit(s[0]) then 0
    else
      var n := 1 + LeadingDigits(s[1..]);
      assert s[..n] == [s[0]] + s[1..][..n - 1];
      n
  }

  /**
    `parseInt(s, 10)` on a string without leading whitespace or sign (the only
    strings the core gives it): the value of the leading run of digits, or
    `None` (NaN) when `s` does not begin with a digit.
   */
  function ParseInt(s: string): (r: Option<nat>)
    ensures r.None? <==> s == [] || !IsDigit(s[0])
  {
    var n := LeadingDigits(s);
    if n == 0 then None else Some(DigitsValue(s[..n]))
  }

  /** The decimal rendering of `n` (`String(n)` / a template literal). */
  function NatToDecimal(n: nat): (r: string)
    ensures |r| >= 1 && AllDigits(r)
    ensures r[0] == '0' ==> n == 0 && r == "0"
  {
    if n < 10 then [DigitChar(n)]
    else NatToDecimal(n / 10) + [DigitChar(n % 10)]
  }

  /** Reading back the decimal rendering of `n` yields `n`. */
  lemma {:induction false} DecimalValue(n: nat)
    ensures DigitsValue(NatToDecimal(n)) == n
  {
    var r := NatToDecimal(n);
    if n >= 10 {
      DecimalValue(n / 10);
      assert r[..|r| - 1] == NatToDecimal(n / 10);
    }
  }

  /** `LeadingDigits` is the length of the digit run that `n` delimits. */
  lemma {:induction false} LeadingDigitsExact(s: string, n: nat)
    requires n <= |s| && AllDigits(s[..n])
    requires n == |s| || !IsDigit(s[n])
    ensures LeadingDigits(s) == n
  {
    if n > 0 {
      assert s[..n][0] == s[0];
      assert s[1..][..n - 1] == s[..n][1..];
      LeadingDigitsExact(s[1..], n - 1);
    }
  }

  /** `parseInt` inverts decimal formatting. */
  lemma ParseIntOfDecimal(n: nat)
    ensures ParseInt(NatToDecimal(n)) == Some(n)
  {
    var r := NatToDecimal(n);
    assert r[..|r|] == r;
    LeadingDigitsExact(r, |r|);
    DecimalValue(n);
  }

  /** `parseInt` stops at the first character that is not a digit: `parseInt("12 3")` is 12. */
  lemma ParseIntStopsAtNonDigit(n: nat, rest: string)
    requires rest == [] || !IsDigit(rest[0])
    ensures ParseInt(NatToDecimal(n) + rest) == Some(n)
  {
    var d := NatToDecimal(n);
    var s := d + rest;
    assert s[..|d|] == d;
    LeadingDigitsExact(s, |d|);
    DecimalValue(n);
  }

  /** Different numbers have different decimal renderings. */
  lemma DecimalInjective(m: nat, n: nat)
    requires NatToDecimal(m) == NatToDecimal(n)
    ensures m == n
  {
    DecimalValue(m);
    DecimalValue(n);
  }

  // ------------------------------------------------------------- split

  /** `parts.join("")`. */
  function Concat(parts: seq<string>): string
  {
    if parts == [] then [] else parts[0] + Concat(parts[1..])
  }

  /** A pattern whose first character is absent from `s` does not occur in it. */
  lemma AbsentFirstChar(s: string, p: string)
    requires |p| >= 1 && p[0] !in s
    ensures !Contains(s, p)
  {
    forall i: nat | i <= |s|
      ensures !OccursAt(s, p, i)
    {
      if i + |p| <= |s| {
        assert s[i..i + |p|][0] == s[i];
      }
    }
  }

  /** A pattern whose first two characters never appear side by side in `s` does not occur in it. */
  lemma AbsentFirstPair(s: string, p: string)
    requires |p| >= 2 && !HasPair(s, p[0], p[1])
    ensures !Contains(s, p)
  {
    forall i: nat | i <= |s|
      ensures !OccursAt(s, p, i)
    {
      if i + |p| <= |s| {
        assert s[i..i + |p|][0] == s[i] && s[i..i + |p|][1] == s[i + 1];
      }
    }
  }

  /** `parts.join(sep)`. */
  function JoinWith(parts: seq<string>, sep: char): string
  {
    if parts == [] then []
    else if |parts| == 1 then parts[0]
    else parts[0] + [sep] + JoinWith(parts[1..], sep)
  }

  /** `s.split(sep)` for a one-character separator. */
  function SplitOn(s: string, sep: char): (parts: seq<string>)
    ensures |parts| >= 1
    ensures forall k :: 0 <= k < |parts| ==> sep !in parts[k]
    ensures JoinWith(parts, sep) == s
    decreases |s|
  {
    match IndexOf(s, [sep])
    case None =>
      NoSeparatorBefore(s, sep, |s|);
      [s]
    case Some(i) =>
      var head := s[..i];
      NoSeparatorBefore(s, sep, i);
      var tail := SplitOn(s[i + 1..], sep);
      assert s == head + [sep] + s[i + 1..];
      [head] + tail
  }

  /** A character that occurs at no index below `n` is absent from `s[..n]`. */
  lemma NoSeparatorBefore(s: string, sep: char, n: nat)
    requires n <= |s|
    requires forall j: nat :: j < n ==> !OccursAt(s, [sep], j)
    ensures sep !in s[..n]
  {
    forall j | 0 <= j < n
      ensures s[..n][j] != sep
    {
      assert !OccursAt(s, [sep], j);
      assert s[j..j + 1] == [s[j]];
    }
  }

  /** Splitting on a character the string does not contain yields the string itself. */
  lemma SplitWithoutSeparator(s: string, sep: char)
    requires sep !in s
    ensures SplitOn(s, sep) == [s]
  {
    forall i: nat | i <= |s|
      ensures !OccursAt(s, [sep], i)
    {
      if i < |s| {
        assert s[i] != sep;
        assert s[i..i + 1] == [s[i]];
      }
    }
    assert IndexOf(s, [sep]).None?;
  }
}
