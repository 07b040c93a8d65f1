/** Hexadecimal numerals, most significant digit first. */
module Hexadecimal {

  predicate IsHexDigit(c: char) {
    '0' <= c <= '9' || 'a' <= c <= 'f' || 'A' <= c <= 'F'
  }

  predicate IsHex(s: string) {
    forall i :: 0 <= i < |s| ==> IsHexDigit(s[i])
  }

  predicate IsLowerHex(s: string) {
    forall i :: 0 <= i < |s| ==> '0' <= s[i] <= '9' || 'a' <= s[i] <= 'f'
  }

  /** The sixteen digits, the letters in either case. */
  lemma DigitsAre(v: nat, c: char)
    requires v < 16
    ensures v < 10 ==> IsHexDigit((48 + v) as char) && DigitValue((48 + v) as char) == v
    ensures v >= 10 ==> IsHexDigit((55 + v) as char) && DigitValue((55 + v) as char) == v
    ensures v >= 10 ==> IsHexDigit((87 + v) as char) && DigitValue((87 + v) as char) == v
    ensures IsHexDigit(c) ==> c as int in {48 + DigitValue(c), 55 + DigitValue(c), 87 + DigitValue(c)}
  {
  }

  function DigitValue(c: char): (v: nat)
    requires IsHexDigit(c)
    ensures v < 16
  {
    if c <= '9' then c as int - '0' as int
    else if c <= 'F' then c as int - 'A' as int + 10
    else c as int - 'a' as int + 10
  }

  function DigitChar(v: nat): (c: char)
    requires v < 16
    ensures IsLowerHex([c]) && IsHexDigit(c) && DigitValue(c) == v
  {
    if v < 10 then ('0' as int + v) as char else ('a' as int + v - 10) as char
  }

  function Pow16(n: nat): (p: nat)
    ensures p > 0
  {
    if n == 0 then 1 else 16 * Pow16(n - 1)
  }

  /** The number a run of hex digits denotes, most significant digit first. */
  function HexValue(s: string): (v: nat)
    requires IsHex(s)
    ensures v < Pow16(|s|)
  {
    if s == "" then 0 else 16 * HexValue(s[..|s| - 1]) + DigitValue(s[|s| - 1])
  }

  /** The n-digit hex text of v: the inverse of HexValue. */
  function HexDigits(v: nat, n: nat): (s: string)
    requires v < Pow16(n)
    ensures |s| == n && IsLowerHex(s)
  {
    if n == 0 then "" else HexDigits(v / 16, n - 1) + [DigitChar(v % 16)]
  }

  lemma ValueOfAppended(front: string, last: char)
    requires IsHex(front) && IsHexDigit(last)
    ensures HexValue(front + [last]) / 16 == HexValue(front)
    ensures HexValue(front + [last]) % 16 == DigitValue(last)
  {
    assert (front + [last])[..|front|] == front;
  }

  /** Words of n hex digits are in bijection with the numbers below 16^n, so a
      count over numbers is a count over digests. */
  lemma {:induction false} NumberOfDigits(v: nat, n: nat)
    requires v < Pow16(n)
    ensures HexValue(HexDigits(v, n)) == v
  {
    if n > 0 {
      var front, last := HexDigits(v / 16, n - 1), DigitChar(v % 16);
      NumberOfDigits(v / 16, n - 1);
      assert HexDigits(v, n) == front + [last];
      hide HexValue, HexDigits, DigitChar, DigitValue, Pow16;
      ValueOfAppended(front, last);
    }
  }

  lemma {:induction false} DigitsOfNumber(s: string)
    requires IsLowerHex(s)
    ensures HexDigits(HexValue(s), |s|) == s
  {
    if s != "" {
      var front, last := s[..|s| - 1], s[|s| - 1];
      DigitsOfNumber(front);
      ValueOfAppended(front, last);
      assert DigitChar(DigitValue(last)) == last;
      assert s == front + [last];
      hide HexValue, DigitChar, DigitValue, Pow16;
    }
  }

  lemma {:induction false} ValueOfConcat(a: string, b: string)
    requires IsHex(a) && IsHex(b)
    ensures HexValue(a + b) == HexValue(a) * Pow16(|b|) + HexValue(b)
  {
    if b == "" {
      assert a + b == a;
    } else {
      var front := b[..|b| - 1];
      ValueOfConcat(a, front);
      assert (a + b)[..|a + b| - 1] == a + front;
      OneMoreDigit(HexValue(a), Pow16(|front|), HexValue(front));
    }
  }

  lemma OneMoreDigit(a: nat, p: nat, b: nat)
    ensures 16 * (a * p + b) == a * (16 * p) + 16 * b
  {
  }
}
