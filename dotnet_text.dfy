/**
 * The parts of the .NET string library that the leave-request tool relies on,
 * modelled on `seq<char>`: the null-or-empty test, lower-casing, decimal
 * rendering of an `int` and string interpolation. Each operation comes with a
 * partner that pins down what it means: a reference case-insensitive equality
 * for `ToLower`, a reader for the decimal rendering. `Contains` is not used by
 * the tool; it states what a caller can test in the tool's answer.
 */
module DotNetText {
  import opened Wrappers

  /** A C# `string` reference, which may be `null` (`None`). */
  type NullableString = Option<string>

  /** A C# `int`: a 32-bit two's-complement integer. */
  newtype Int32 = x: int | -0x8000_0000 <= x < 0x8000_0000

  /** `string.IsNullOrEmpty`: null, or no characters. */
  predicate IsNullOrEmpty(s: NullableString) {
    s.None? || s.value == ""
  }

  // ---------------------------------------------------------------- case

  predicate IsAsciiUpper(c: char) { 'A' <= c <= 'Z' }

  /** `char.ToLower` on the ASCII letters; every other character maps to itself. */
  function ToLowerChar(c: char): char {
    if IsAsciiUpper(c) then (c as int - 'A' as int + 'a' as int) as char else c
  }

  /**
   * Reference relation: the same character, or the same ASCII letter once in
   * upper and once in lower case.
   */
  predicate SameLetterIgnoringCase(a: char, b: char) {
    || a == b
    || (IsAsciiUpper(a) && b as int == a as int + 32)
    || (IsAsciiUpper(b) && a as int == b as int + 32)
  }

  /** Ordinal equality of two strings that ignores ASCII letter case. */
  predicate EqualsIgnoringCase(s: string, t: string) {
    |s| == |t| && forall i :: 0 <= i < |s| ==> SameLetterIgnoringCase(s[i], t[i])
  }

  /** `string.ToLower`: every ASCII upper-case letter replaced by its lower-case form. */
  function ToLower(s: string): (r: string)
    ensures |r| == |s|
    ensures forall i :: 0 <= i < |r| ==> !IsAsciiUpper(r[i])
    ensures EqualsIgnoringCase(s, r)
  {
    seq(|s|, i requires 0 <= i < |s| => ToLowerChar(s[i]))
  }

  /** Lower-casing identifies exactly the strings that are equal ignoring case. */
  lemma ToLowerEqualIff(s: string, t: string)
    ensures ToLower(s) == ToLower(t) <==> EqualsIgnoringCase(s, t)
  {
  }

  /** Lower-casing twice is lower-casing once. */
  lemma ToLowerIdempotent(s: string)
    ensures ToLower(ToLower(s)) == ToLower(s)
  {
  }

  // ---------------------------------------------------------------- decimal

  predicate IsDigit(c: char) { '0' <= c <= '9' }

  predicate AllDigits(s: string) {
    forall i :: 0 <= i < |s| ==> IsDigit(s[i])
  }

  function DigitChar(d: nat): (c: char)
    requires d < 10
    ensures IsDigit(c)
  {
    ('0' as int + d) as char
  }

  function DigitValue(c: char): (d: nat)
    requires IsDigit(c)
    ensures d < 10 && DigitChar(d) == c
  {
    c as int - '0' as int
  }

  /** The decimal digits of `n`, most significant first, with no leading zero. */
  function NatToDecimal(n: nat): (r: string)
    ensures 1 <= |r| && AllDigits(r)
    ensures r[0] == '0' <==> n == 0
    ensures r[0] == '0' ==> |r| == 1
    decreases n
  {
    if n < 10 then [DigitChar(n)] else NatToDecimal(n / 10) + [DigitChar(n % 10)]
  }

  /** `int.ToString()` in the invariant culture: a '-' for a negative value, then the digits. */
  function IntToDecimal(n: int): (r: string)
    ensures 1 <= |r|
    ensures r[0] == '-' <==> n < 0
    ensures n < 0 ==> 2 <= |r| && AllDigits(r[1..]) && r[1] != '0'
    ensures n >= 0 ==> AllDigits(r) && (r[0] == '0' <==> n == 0) && (r[0] == '0' ==> |r| == 1)
  {
    if n < 0 then "-" + NatToDecimal(-n) else NatToDecimal(n)
  }

  /** The value of a string of decimal digits. */
  function DigitsValue(s: string): nat
    requires AllDigits(s)
    decreases |s|
  {
    if s == [] then 0 else 10 * DigitsValue(s[..|s| - 1]) + DigitValue(s[|s| - 1])
  }

  /** Reads back an optional '-' followed by one or more decimal digits. */
  function ParseDecimal(s: string): Option<int> {
    if |s| >= 2 && s[0] == '-' && AllDigits(s[1..]) then Some(0 - DigitsValue(s[1..]) as int)
    else if |s| >= 1 && AllDigits(s) then Some(DigitsValue(s))
    else None
  }

  lemma {:induction false} NatToDecimalValue(n: nat)
    ensures DigitsValue(NatToDecimal(n)) == n
    decreases n
  {
    var r := NatToDecimal(n);
    if n >= 10 {
      assert r[..|r| - 1] == NatToDecimal(n / 10);
      NatToDecimalValue(n / 10);
    }
  }

  /** Reading back the rendering of any integer gives that integer. */
  lemma DecimalRoundTrip(n: int)
    ensures ParseDecimal(IntToDecimal(n)) == Some(n)
  {
    if n < 0 {
      NegativeRoundTrip(n);
    } else {
      assert IntToDecimal(n) == NatToDecimal(n);
      NatToDecimalValue(n);
    }
  }

  lemma NegativeRoundTrip(n: int)
    requires n < 0
    ensures ParseDecimal(IntToDecimal(n)) == Some(n)
  {
    var digits := NatToDecimal(-n);
    var s := "-" + digits;
    assert IntToDecimal(n) == s;
    assert s[1..] == digits;
    NatToDecimalValue(-n);
  }

  /** Distinct integers are rendered as distinct strings. */
  lemma IntToDecimalInjective(m: int, n: int)
    ensures IntToDecimal(m) == IntToDecimal(n) ==> m == n
  {
    DecimalRoundTrip(m);
    DecimalRoundTrip(n);
  }

  // ---------------------------------------------------------------- search

  /** `sub` occurs in `s` starting at offset `i`. */
  predicate OccursAt(s: string, sub: string, i: int) {
    0 <= i && i + |sub| <= |s| && s[i..i + |sub|] == sub
  }

  /** `s.Contains(sub)`: `sub` occurs in `s` at some offset. */
  predicate Contains(s: string, sub: string) {
    exists i | 0 <= i <= |s| - |sub| :: OccursAt(s, sub, i)
  }

  // ---------------------------------------------------------------- interpolation

  /** One piece of a C# interpolated string: literal text, or a hole's formatted value. */
  datatype Segment = Literal(text: string) | Hole(formatted: string) {
    function Text(): string {
      match this
      case Literal(t) => t
      case Hole(f) => f
    }
  }

  /** An interpolated string `$"..."`: the texts of its segments, concatenated in order. */
  function Interpolate(parts: seq<Segment>): string {
    if parts == [] then "" else parts[0].Text() + Interpolate(parts[1..])
  }

  /** An interpolated string contains the text of each of its segments. */
  lemma {:induction false} InterpolateContains(parts: seq<Segment>, k: nat)
    requires k < |parts|
    ensures Contains(Interpolate(parts), parts[k].Text())
  {
    var a, rest := parts[0].Text(), Interpolate(parts[1..]);
    if k == 0 {
      assert OccursAt(a + rest, a, 0);
    } else {
      InterpolateContains(parts[1..], k - 1);
      assert parts[1..][k - 1] == parts[k];
      ContainsInSuffix(a, rest, parts[k].Text());
    }
  }

  /** What occurs in `b` occurs in `a + b`, shifted by the length of `a`. */
  lemma ContainsInSuffix(a: string, b: string, sub: string)
    requires Contains(b, sub)
    ensures Contains(a + b, sub)
  {
    var i :| 0 <= i <= |b| - |sub| && OccursAt(b, sub, i);
    assert (a + b)[|a| + i..|a| + i + |sub|] == b[i..i + |sub|];
    assert OccursAt(a + b, sub, |a| + i);
  }

  /** Interpolating a concatenation of segment lists concatenates the interpolations. */
  lemma {:induction false} InterpolateAppend(p: seq<Segment>, q: seq<Segment>)
    ensures Interpolate(p + q) == Interpolate(p) + Interpolate(q)
  {
    if p == [] {
      assert p + q == q;
    } else {
      assert (p + q)[1..] == p[1..] + q;
      InterpolateAppend(p[1..], q);
    }
  }

  /** Interpolating from segment `k` on is segment `k`'s text followed by the rest. */
  lemma InterpolateFrom(parts: seq<Segment>, k: nat)
    requires k < |parts|
    ensures Interpolate(parts[k..]) == parts[k].Text() + Interpolate(parts[k + 1..])
  {
  }
}
