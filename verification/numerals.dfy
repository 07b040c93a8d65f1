/** Number.parseInt in bases 10 and 16. */
module Numerals {
  import opened Wrappers
  import opened Text
  import opened Hexadecimal

  /** The longest prefix of digits. */
  function DigitRun(s: string, hex: bool): (r: string)
    ensures |r| <= |s| && r == s[..|r|]
    ensures hex ==> IsHex(r)
    ensures !hex ==> AllDigits(r)
  {
    if s != "" && (if hex then IsHexDigit(s[0]) else IsDigit(s[0])) then [s[0]] + DigitRun(s[1..], hex) else ""
  }

  /** parseInt(text, 16 or 10): leading space, a sign, an optional 0x in base 16, then digits up to
      the first other character; None is NaN. */
  function ParseInt(text: string, hex: bool): Option<int> {
    var s := TrimStart(text);
    var negative := s != "" && s[0] == '-';
    var body := if s != "" && (s[0] == '-' || s[0] == '+') then s[1..] else s;
    ParseUnsigned(negative, body, hex)
  }

  function ParseUnsigned(negative: bool, body: string, hex: bool): Option<int> {
    var prefixed := hex && |body| >= 2 && body[0] == '0' && (body[1] == 'x' || body[1] == 'X');
    var digits := DigitRun(if prefixed then body[2..] else body, hex);
    if digits == "" then None
    else
      var v: int := if hex then HexValue(digits) else DecValue(digits);
      Some(if negative then -v else v)
  }

  lemma {:induction false} DigitRunOfDigits(s: string, hex: bool)
    requires if hex then IsHex(s) else AllDigits(s)
    ensures DigitRun(s, hex) == s
  {
    if s != "" {
      DigitRunOfDigits(s[1..], hex);
    }
  }

  predicate IsDigitIn(c: char, hex: bool) {
    if hex then IsHexDigit(c) else IsDigit(c)
  }

  lemma {:induction false} DigitRunStops(digits: string, rest: string, hex: bool)
    requires if hex then IsHex(digits) else AllDigits(digits)
    requires rest == "" || !IsDigitIn(rest[0], hex)
    ensures DigitRun(digits + rest, hex) == digits
  {
    if digits == "" {
      assert digits + rest == rest;
    } else {
      DigitRunStops(digits[1..], rest, hex);
      assert (digits + rest)[1..] == digits[1..] + rest;
    }
  }

  predicate IsSign(sign: string) {
    sign == "" || sign == "-" || sign == "+"
  }

  /** A number may be preceded by white space and a sign and followed by anything that does not start with a
      digit: that is what parseInt reads. */
  lemma ParseIntReads(space: string, sign: string, digits: string, rest: string, hex: bool)
    requires AllSpace(space) && IsSign(sign) && digits != ""
    requires if hex then IsHex(digits) else AllDigits(digits)
    requires rest == "" || !IsDigitIn(rest[0], hex)
    requires hex ==> !(digits == "0" && rest != "" && (rest[0] == 'x' || rest[0] == 'X'))
    ensures var v: int := if hex then HexValue(digits) else DecValue(digits);
            ParseInt(space + (sign + (digits + rest)), hex) == Some(if sign == "-" then -v else v)
  {
    var s := sign + (digits + rest);
    TrimStartDrops(space, s);
    assert sign != "" ==> s[1..] == digits + rest;
    assert sign == "" ==> s == digits + rest;
    UnsignedReads(sign == "-", digits, rest, hex);
    hide TrimStart, ParseUnsigned, HexValue, DecValue;
  }

  lemma UnsignedReads(negative: bool, digits: string, rest: string, hex: bool)
    requires digits != "" && if hex then IsHex(digits) else AllDigits(digits)
    requires rest == "" || !IsDigitIn(rest[0], hex)
    requires hex ==> !(digits == "0" && rest != "" && (rest[0] == 'x' || rest[0] == 'X'))
    ensures var v: int := if hex then HexValue(digits) else DecValue(digits);
            ParseUnsigned(negative, digits + rest, hex) == Some(if negative then -v else v)
  {
    hide DigitRun, HexValue, DecValue;
    DigitRunStops(digits, rest, hex);
    var body := digits + rest;
    if hex && |body| >= 2 && body[0] == '0' && |digits| >= 2 {
      assert body[1] == digits[1];
    }
  }

  /** Anything else is NaN: no digit stands where the number should start. */
  lemma ParseIntRejects(space: string, sign: string, rest: string)
    requires AllSpace(space) && IsSign(sign)
    requires rest == "" || !IsDigit(rest[0])
    requires sign == "" && rest != "" ==> !IsSpace(rest[0]) && rest[0] != '-' && rest[0] != '+'
    ensures ParseInt(space + (sign + rest), false).None?
  {
    var s := sign + rest;
    TrimStartDrops(space, s);
    assert sign != "" ==> s[1..] == rest;
    assert sign == "" ==> s == rest;
    hide TrimStart;
  }

  /** In base 16 a leading 0x or 0X is skipped, and no digit behind it is NaN. */
  lemma HexPrefixIsSkipped(space: string, sign: string, x: string, digits: string, rest: string)
    requires AllSpace(space) && IsSign(sign) && x in {"0x", "0X"} && IsHex(digits)
    requires rest == "" || !IsHexDigit(rest[0])
    ensures var v: int := HexValue(digits);
            ParseInt(space + (sign + (x + (digits + rest))), true)
            == if digits == "" then None else Some(if sign == "-" then -v else v)
  {
    var body := x + (digits + rest);
    var s := sign + body;
    TrimStartDrops(space, s);
    assert sign != "" ==> s[1..] == body;
    assert sign == "" ==> s == body;
    PrefixedReads(sign == "-", x, digits, rest);
    hide TrimStart, ParseUnsigned, HexValue;
  }

  lemma PrefixedReads(negative: bool, x: string, digits: string, rest: string)
    requires x in {"0x", "0X"} && IsHex(digits) && (rest == "" || !IsHexDigit(rest[0]))
    ensures var v: int := HexValue(digits);
            ParseUnsigned(negative, x + (digits + rest), true)
            == if digits == "" then None else Some(if negative then -v else v)
  {
    hide DigitRun, HexValue;
    var body := x + (digits + rest);
    assert body[2..] == digits + rest && body[0] == x[0] && body[1] == x[1];
    DigitRunStops(digits, rest, true);
  }
}
