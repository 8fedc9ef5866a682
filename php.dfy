/** The few PHP string conversions the core relies on, for the decimal and
    ASCII cases it meets. */
module PhpText {
  predicate IsDigit(c: char) {
    '0' <= c <= '9'
  }

  predicate AllDigits(s: string) {
    forall i :: 0 <= i < |s| ==> IsDigit(s[i])
  }

  /** The value of a string of decimal digits. */
  function DigitsValue(s: string): nat
    requires AllDigits(s)
  {
    if s == [] then 0
    else DigitsValue(s[..|s| - 1]) * 10 + (s[|s| - 1] as int - '0' as int)
  }

  /** The longest prefix made of decimal digits. */
  function LeadingDigits(s: string): (r: string)
    ensures AllDigits(r) && r <= s
  {
    if s == [] || !IsDigit(s[0]) then [] else [s[0]] + LeadingDigits(s[1..])
  }

  /** PHP's `(int)` cast of a prefix string, for the decimal forms: the value
      of its leading digits, 0 when there are none. */
  function IntCast(s: string): nat {
    DigitsValue(LeadingDigits(s))
  }

  /** The decimal numeral of n, without leading zeros. */
  function NatToString(n: nat): (r: string)
    ensures AllDigits(r) && |r| > 0
  {
    if n < 10 then [('0' as int + n) as char]
    else NatToString(n / 10) + [('0' as int + n % 10) as char]
  }

  lemma {:induction false} NatToStringValue(n: nat)
    ensures DigitsValue(NatToString(n)) == n
  {
    var r := NatToString(n);
    if n >= 10 {
      NatToStringValue(n / 10);
      assert r[..|r| - 1] == NatToString(n / 10);
    }
  }

  lemma {:induction false} LeadingDigitsOfDigits(s: string)
    requires AllDigits(s)
    ensures LeadingDigits(s) == s
  {
    if s != [] {
      LeadingDigitsOfDigits(s[1..]);
    }
  }

  /** PHP's conversion of an integer to a string. */
  function IntToString(i: int): (r: string)
    ensures |r| > 0
  {
    if i < 0 then "-" + NatToString(-i) else NatToString(i)
  }

  /** The whitespace the `(int)` cast skips, removed from the front. */
  function SkipSpaces(s: string): (r: string)
    ensures |r| <= |s| && r == s[|s| - |r|..]
    decreases |s|
  {
    if |s| > 0 && s[0] in {' ', '\t', '\n', '\r', '\U{B}', '\U{C}'} then SkipSpaces(s[1..]) else s
  }

  /** PHP's `(int)` on a string: leading whitespace, an optional sign, then
      the leading decimal digits. */
  function StringIntCast(s: string): int {
    var t := SkipSpaces(s);
    if |t| > 0 && t[0] == '-' then -(IntCast(t[1..]) as int)
    else if |t| > 0 && t[0] == '+' then IntCast(t[1..])
    else IntCast(t)
  }

  /** Casting the decimal form of an integer back gives the integer. */
  lemma IntToStringRoundTrip(i: int)
    ensures StringIntCast(IntToString(i)) == i
  {
    var n: nat := if i < 0 then -i else i;
    var d := NatToString(n);
    NumeralCast(n);
    var r := IntToString(i);
    if i < 0 {
      assert r == "-" + d;
      assert r[0] == '-' && r[1..] == d;
    } else {
      assert r == d && IsDigit(d[0]);
    }
    assert !(r[0] in {' ', '\t', '\n', '\r', '\U{B}', '\U{C}'});
    assert SkipSpaces(r) == r;
  }

  /** The cast of a numeral is its value. */
  lemma NumeralCast(n: nat)
    ensures IntCast(NatToString(n)) == n
  {
    NatToStringValue(n);
    LeadingDigitsOfDigits(NatToString(n));
  }

  /** A string of digits has nothing for `(int)` to skip or read as a sign,
      so its cast is its value. */
  lemma DigitsIntCast(s: string)
    requires AllDigits(s)
    ensures StringIntCast(s) == DigitsValue(s)
  {
    LeadingDigitsOfDigits(s);
    if |s| > 0 {
      assert IsDigit(s[0]);
      assert !(s[0] in {' ', '\t', '\n', '\r', '\U{B}', '\U{C}'});
    }
    assert SkipSpaces(s) == s;
  }

  /** `(int)` skips a leading space before the digits. */
  lemma SpacedDigitsCast(d: string)
    requires AllDigits(d)
    ensures StringIntCast(" " + d) == DigitsValue(d)
  {
    SkipSpacedDigits(d);
    DigitsIntCast(d);
  }

  lemma SkipSpacedDigits(d: string)
    requires AllDigits(d)
    ensures SkipSpaces(d) == d
    ensures SkipSpaces(" " + d) == d
  {
    assert (" " + d)[0] == ' ' && (" " + d)[1..] == d;
    if |d| > 0 {
      assert IsDigit(d[0]);
    }
  }

  /** `(int)` reads a plus sign before the digits. */
  lemma PlusDigitsCast(d: string)
    requires AllDigits(d)
    ensures StringIntCast("+" + d) == DigitsValue(d)
  {
    SignedCast('+', d);
  }

  /** `(int)` reads a minus sign before the digits. */
  lemma MinusDigitsCast(d: string)
    requires AllDigits(d)
    ensures StringIntCast("-" + d) == -(DigitsValue(d) as int)
  {
    SignedCast('-', d);
  }

  /** A sign is not whitespace, so `(int)` reads it first. */
  lemma SignedCast(c: char, d: string)
    requires c == '+' || c == '-'
    requires AllDigits(d)
    ensures SkipSpaces([c] + d) == [c] + d
    ensures ([c] + d)[1..] == d
    ensures IntCast(d) == DigitsValue(d)
  {
    LeadingDigitsOfDigits(d);
  }

  /** The characters PHP's `trim` strips by default. */
  predicate TrimmedChar(c: char) {
    c in {' ', '\t', '\n', '\r', '\0', '\U{B}'}
  }

  /**
   * `s[i..j]` is what is left of `s` once stripped characters are removed
   * from its ends: everything before `i` and from `j` on is stripped.
   */
  predicate StrippedTo(s: string, i: int, j: int) {
    && 0 <= i <= j <= |s|
    && (forall k :: 0 <= k < i ==> TrimmedChar(s[k]))
    && (forall k :: j <= k < |s| ==> TrimmedChar(s[k]))
  }

  /** Stripping a stripped first character moves both ends by one. */
  lemma StrippedFirst(s: string, i: int, j: int)
    requires |s| > 0 && TrimmedChar(s[0]) && StrippedTo(s[1..], i, j)
    ensures StrippedTo(s, i + 1, j + 1) && s[1..][i..j] == s[i + 1..j + 1]
  {
    forall k | 0 < k < |s| ensures s[k] == s[1..][k - 1] { }
  }

  /** Stripping a stripped last character leaves both ends in place. */
  lemma StrippedLast(s: string, i: int, j: int)
    requires |s| > 0 && TrimmedChar(s[|s| - 1]) && StrippedTo(s[..|s| - 1], i, j)
    ensures StrippedTo(s, i, j) && s[..|s| - 1][i..j] == s[i..j]
  {
    forall k | 0 <= k < |s| - 1 ensures s[k] == s[..|s| - 1][k] { }
  }

  /**
   * PHP's `trim` with its default character list: the result is the
   * piece of the input left once every stripped character at either end
   * is gone.
   */
  function Trim(s: string): (r: string)
    ensures |r| == 0 || (!TrimmedChar(r[0]) && !TrimmedChar(r[|r| - 1]))
    ensures exists i, j :: StrippedTo(s, i, j) && r == s[i..j]
    decreases |s|
  {
    if |s| > 0 && TrimmedChar(s[0]) then
      var t := Trim(s[1..]);
      assert exists i, j :: StrippedTo(s, i, j) && t == s[i..j] by {
        var i, j :| StrippedTo(s[1..], i, j) && t == s[1..][i..j];
        StrippedFirst(s, i, j);
      }
      t
    else if |s| > 0 && TrimmedChar(s[|s| - 1]) then
      var t := Trim(s[..|s| - 1]);
      assert exists i, j :: StrippedTo(s, i, j) && t == s[i..j] by {
        var i, j :| StrippedTo(s[..|s| - 1], i, j) && t == s[..|s| - 1][i..j];
        StrippedLast(s, i, j);
      }
      t
    else
      assert StrippedTo(s, 0, |s|) && s == s[0..|s|];
      s
  }
}
