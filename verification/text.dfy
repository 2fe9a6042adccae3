/** ASCII text helpers: case folding, suffix tests and decimal rendering of integers. */
module Text {

  predicate IsDigit(c: char) { '0' <= c <= '9' }

  predicate AllDigits(s: string) { forall i :: 0 <= i < |s| ==> IsDigit(s[i]) }

  function LowerChar(c: char): (d: char)
    ensures 'A' <= c <= 'Z' ==> 'a' <= d <= 'z' && d as int - c as int == 32
    ensures !('A' <= c <= 'Z') ==> d == c
  {
    if 'A' <= c <= 'Z' then (c as int + 32) as char else c
  }

  /** `str.lower()` restricted to ASCII letters. */
  function Lower(s: string): (r: string)
    ensures |r| == |s|
    ensures forall i :: 0 <= i < |s| ==> r[i] == LowerChar(s[i])
  {
    if s == [] then [] else [LowerChar(s[0])] + Lower(s[1..])
  }

  /** `s.endswith(suffix)`. */
  predicate EndsWith(s: string, suffix: string)
  {
    |suffix| <= |s| && s[|s| - |suffix|..] == suffix
  }

  /** `s.endswith(tuple)`: true when any of the suffixes ends `s`. */
  predicate EndsWithAny(s: string, suffixes: seq<string>)
  {
    exists k :: 0 <= k < |suffixes| && EndsWith(s, suffixes[k])
  }

  /** Lower-casing commutes with taking a suffix. */
  lemma LowerSuffix(s: string, n: nat)
    requires n <= |s|
    ensures Lower(s)[|s| - n..] == Lower(s[|s| - n..])
  {
  }

  /** Testing a suffix of the lower-cased string is testing the lower-cased tail. */
  lemma {:induction false} EndsWithLower(s: string, suffix: string)
    requires |suffix| <= |s|
    ensures EndsWith(Lower(s), suffix) <==> Lower(s[|s| - |suffix|..]) == suffix
  {
    var n := |suffix|;
    LowerSuffix(s, n);
    assert EndsWith(Lower(s), suffix) == (Lower(s)[|s| - n..] == suffix);
  }

  /** A three-suffix tuple test is the disjunction of the three tests. */
  lemma EndsWithAnyOfThree(s: string, a: string, b: string, c: string)
    ensures EndsWithAny(s, [a, b, c]) <==> EndsWith(s, a) || EndsWith(s, b) || EndsWith(s, c)
  {
    var sfx := [a, b, c];
    if EndsWith(s, a) { assert EndsWith(s, sfx[0]); }
    if EndsWith(s, b) { assert EndsWith(s, sfx[1]); }
    if EndsWith(s, c) { assert EndsWith(s, sfx[2]); }
  }

  function DigitChar(d: nat): (c: char)
    requires d < 10
    ensures IsDigit(c) && DigitValue(c) == d
  {
    ('0' as int + d) as char
  }

  function DigitValue(c: char): nat
    requires IsDigit(c)
  {
    c as int - '0' as int
  }

  /** `str(n)` for a non-negative integer: its decimal digits, without leading zeros. */
  function NatToString(n: nat): (s: string)
    ensures |s| >= 1 && AllDigits(s)
    ensures s[0] == '0' <==> n == 0
    ensures n == 0 ==> s == "0"
    decreases n
  {
    if n < 10 then [DigitChar(n)] else NatToString(n / 10) + [DigitChar(n % 10)]
  }

  /** The value of a string of decimal digits (`int(s)` for such strings). */
  function ParseNat(s: string): nat
    requires AllDigits(s)
  {
    if s == [] then 0 else ParseNat(s[..|s| - 1]) * 10 + DigitValue(s[|s| - 1])
  }

  /** `str(i)` / `f'{i}'` for any integer: a minus sign before the digits of a negative one. */
  function IntToString(i: int): (s: string)
    ensures |s| >= 1
    ensures i >= 0 ==> AllDigits(s)
    ensures i < 0 ==> s[0] == '-' && |s| >= 2 && AllDigits(s[1..])
  {
    if i < 0 then "-" + NatToString(-i) else NatToString(i)
  }

  /** The value of a string `IntToString` can produce. */
  function ParseInt(s: string): int
    requires |s| >= 1
    requires AllDigits(s) || (s[0] == '-' && AllDigits(s[1..]))
  {
    if s[0] == '-' then 0 - ParseNat(s[1..]) as int else ParseNat(s)
  }

  /** Reading back the decimal rendering gives the number it was made from. */
  lemma {:induction false} ParseNatToString(n: nat)
    ensures ParseNat(NatToString(n)) == n
    decreases n
  {
    if n >= 10 {
      var s := NatToString(n);
      assert s[..|s| - 1] == NatToString(n / 10);
      ParseNatToString(n / 10);
    }
  }

  lemma ParseIntToString(i: int)
    ensures ParseInt(IntToString(i)) == i
  {
    if i < 0 {
      assert IntToString(i)[1..] == NatToString(-i);
      ParseNatToString(-i);
    } else {
      ParseNatToString(i);
    }
  }

  /** The decimal rendering is injective: different numbers never share a string. */
  lemma IntToStringInjective(i: int, j: int)
    requires IntToString(i) == IntToString(j)
    ensures i == j
  {
    ParseIntToString(i);
    ParseIntToString(j);
  }
}
