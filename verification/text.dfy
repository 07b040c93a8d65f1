/** The string operations of JavaScript that the parsers and printers use, on ASCII text. */
module Text {
  import opened Wrappers

  /** s.split(sep) for a one-character separator: always at least one part. */
  function Split(s: string, sep: char): (parts: seq<string>)
    ensures |parts| >= 1
  {
    if s == "" then [""]
    else
      var rest := Split(s[1..], sep);
      if s[0] == sep then [""] + rest else [[s[0]] + rest[0]] + rest[1..]
  }

  function Join(parts: seq<string>, sep: char): string {
    if parts == [] then ""
    else if |parts| == 1 then parts[0]
    else parts[0] + [sep] + Join(parts[1..], sep)
  }

  lemma {:induction false} SplitPrefix(part: string, rest: string, sep: char)
    requires sep !in part
    ensures Split(part, sep) == [part]
    ensures Split(part + [sep] + rest, sep) == [part] + Split(rest, sep)
  {
    if part == "" {
      assert part + [sep] + rest == [sep] + rest;
      assert ([sep] + rest)[1..] == rest;
    } else {
      SplitPrefix(part[1..], rest, sep);
      assert (part + [sep] + rest)[1..] == part[1..] + [sep] + rest;
      assert [part[0]] + part[1..] == part;
      assert (["" + part[1..]] + Split(rest, sep))[1..] == Split(rest, sep);
    }
  }

  /** Splitting undoes joining when no part contains the separator. */
  lemma {:induction false} SplitOfJoin(parts: seq<string>, sep: char)
    requires |parts| >= 1 && forall i :: 0 <= i < |parts| ==> sep !in parts[i]
    ensures Split(Join(parts, sep), sep) == parts
  {
    if |parts| == 1 {
      SplitPrefix(parts[0], "", sep);
    } else {
      SplitOfJoin(parts[1..], sep);
      SplitPrefix(parts[0], Join(parts[1..], sep), sep);
    }
  }

  predicate IsSpace(c: char) {
    c == ' ' || c == '\t' || c == '\n' || c == '\r' || c == '\U{0B}' || c == '\U{0C}'
  }

  function TrimStart(s: string): string {
    if s != "" && IsSpace(s[0]) then TrimStart(s[1..]) else s
  }

  function TrimEnd(s: string): string {
    if s != "" && IsSpace(s[|s| - 1]) then TrimEnd(s[..|s| - 1]) else s
  }

  function Trim(s: string): string {
    TrimEnd(TrimStart(s))
  }

  // ----- Decimal numerals -----

  predicate IsDigit(c: char) {
    '0' <= c <= '9'
  }

  predicate AllDigits(s: string) {
    forall i :: 0 <= i < |s| ==> IsDigit(s[i])
  }

  function DigitOf(c: char): (d: nat)
    requires IsDigit(c)
    ensures d < 10
  {
    c as int - '0' as int
  }

  function CharOf(d: nat): (c: char)
    requires d < 10
    ensures IsDigit(c) && DigitOf(c) == d
  {
    ('0' as int + d) as char
  }

  function DecValue(s: string): nat
    requires AllDigits(s)
  {
    if s == "" then 0 else 10 * DecValue(s[..|s| - 1]) + DigitOf(s[|s| - 1])
  }

  /** n.toString() for a non-negative integer. */
  function DecText(n: nat): (s: string)
    ensures s != "" && AllDigits(s)
  {
    if n < 10 then [CharOf(n)] else DecText(n / 10) + [CharOf(n % 10)]
  }

  lemma {:induction false} ValueOfDecText(n: nat)
    ensures DecValue(DecText(n)) == n
  {
    if n < 10 {
      assert DecText(n)[..0] == "";
    } else {
      ValueOfDecText(n / 10);
      assert DecText(n)[..|DecText(n)| - 1] == DecText(n / 10);
    }
  }

  function Zeros(n: nat): (s: string)
    ensures |s| == n && AllDigits(s) && forall i :: 0 <= i < n ==> s[i] == '0'
  {
    seq(n, _ => '0')
  }

  /** s.padStart(width, '0') */
  function PadStart(s: string, width: nat): string {
    if |s| >= width then s else Zeros(width - |s|) + s
  }

  lemma {:induction false} ValueOfZeros(n: nat, s: string)
    requires AllDigits(s)
    ensures DecValue(Zeros(n) + s) == DecValue(s)
  {
    if s == "" {
      if n > 0 {
        ValueOfZeros(n - 1, "");
        assert (Zeros(n) + s)[..n - 1] == Zeros(n - 1) + "";
      }
    } else {
      ValueOfZeros(n, s[..|s| - 1]);
      assert (Zeros(n) + s)[..n + |s| - 1] == Zeros(n) + s[..|s| - 1];
    }
  }

  function Pow10(n: nat): (p: nat)
    ensures p > 0
  {
    if n == 0 then 1 else 10 * Pow10(n - 1)
  }

  lemma {:induction false} ValueOfConcat(a: string, b: string)
    requires AllDigits(a) && AllDigits(b)
    ensures DecValue(a + b) == DecValue(a) * Pow10(|b|) + DecValue(b)
  {
    if b == "" {
      assert a + b == a;
    } else {
      var n := |b| - 1;
      ValueOfConcat(a, b[..n]);
      assert (a + b)[..|a| + n] == a + b[..n];
      OneMoreDigit(DecValue(a), Pow10(n), DecValue(b[..n]));
    }
  }

  lemma OneMoreDigit(a: nat, p: nat, b: nat)
    ensures 10 * (a * p + b) == a * (10 * p) + 10 * b
  {
  }

  lemma {:induction false} ValueBound(s: string)
    requires AllDigits(s)
    ensures DecValue(s) < Pow10(|s|)
  {
    if s != "" {
      ValueBound(s[..|s| - 1]);
    }
  }

  lemma {:induction false} DecTextLength(n: nat, width: nat)
    requires width >= 1 && n < Pow10(width)
    ensures |DecText(n)| <= width
  {
    if n >= 10 {
      DecTextLength(n / 10, width - 1);
    }
  }

  /** BigInt(text): an optional sign and decimal digits, surrounding white space ignored, and the
      empty text is 0; None where it throws. */
  function ParseBigInt(text: string): Option<int> {
    var s := Trim(text);
    if s == "" then Some(0)
    else
      var digits := if s[0] == '-' || s[0] == '+' then s[1..] else s;
      if digits == "" || !AllDigits(digits) then None
      else
        var n: int := if s[0] == '-' then -(DecValue(digits) as int) else DecValue(digits);
        Some(n)
  }

  lemma TrimOfSolid(s: string)
    requires s != "" ==> !IsSpace(s[0]) && !IsSpace(s[|s| - 1])
    ensures Trim(s) == s
  {
  }

  lemma ParseDigits(s: string)
    requires AllDigits(s) && s != ""
    ensures ParseBigInt(s) == Some(DecValue(s) as int)
  {
    TrimOfSolid(s);
  }

  lemma ParseNegative(s: string)
    requires AllDigits(s) && s != ""
    ensures ParseBigInt("-" + s) == Some(-(DecValue(s) as int))
  {
    TrimOfSolid("-" + s);
    assert ("-" + s)[1..] == s;
    assert ("-" + s)[|s|] == s[|s| - 1];
  }

  lemma {:induction false} JoinOfSplit(s: string, sep: char)
    ensures Join(Split(s, sep), sep) == s
    ensures forall part :: part in Split(s, sep) ==> sep !in part
  {
    if s != "" {
      JoinOfSplit(s[1..], sep);
      var rest := Split(s[1..], sep);
      assert Split(s, sep)[1..] == if s[0] == sep then rest else rest[1..];
      assert s == [s[0]] + s[1..];
      if s[0] != sep && |rest| > 1 {
        assert Join(rest, sep) == rest[0] + [sep] + Join(rest[1..], sep);
      }
    }
  }

  lemma {:induction false} NoLeadingZero(n: nat)
    ensures n == 0 || DecText(n)[0] != '0'
    ensures n < 10 ==> |DecText(n)| == 1
  {
    if n >= 10 {
      NoLeadingZero(n / 10);
    }
  }

  // ----- Which texts are numbers -----

  lemma SpaceIs(c: char)
    ensures IsSpace(c) <==> c as int == 32 || 9 <= c as int <= 13
  {
  }

  predicate AllSpace(s: string) {
    forall i :: 0 <= i < |s| ==> IsSpace(s[i])
  }

  /** No space at either end. */
  predicate IsSolid(s: string) {
    s != "" ==> !IsSpace(s[0]) && !IsSpace(s[|s| - 1])
  }

  lemma {:induction false} TrimStartDrops(before: string, s: string)
    requires AllSpace(before) && (s != "" ==> !IsSpace(s[0]))
    ensures TrimStart(before + s) == s
  {
    if before == "" {
      assert before + s == s;
    } else {
      assert (before + s)[1..] == before[1..] + s;
      TrimStartDrops(before[1..], s);
    }
  }

  lemma {:induction false} TrimEndDrops(s: string, after: string)
    requires AllSpace(after) && (s != "" ==> !IsSpace(s[|s| - 1]))
    ensures TrimEnd(s + after) == s
  {
    if after == "" {
      assert s + after == s;
    } else {
      assert (s + after)[..|s + after| - 1] == s + after[..|after| - 1];
      TrimEndDrops(s, after[..|after| - 1]);
    }
  }

  lemma {:induction false} TrimStartAll(s: string)
    requires AllSpace(s)
    ensures TrimStart(s) == ""
  {
    if s != "" {
      TrimStartAll(s[1..]);
    }
  }

  /** Trimming removes the spaces around a text and nothing else. */
  lemma TrimIs(before: string, s: string, after: string)
    requires AllSpace(before) && AllSpace(after) && IsSolid(s)
    ensures Trim(before + s + after) == s
  {
    if s == "" {
      assert before + s + after == before + after;
      TrimStartAll(before + after);
    } else {
      assert before + s + after == before + (s + after);
      TrimStartDrops(before, s + after);
      TrimEndDrops(s, after);
    }
  }

  /** BigInt ignores the white space around a text. */
  lemma BigIntIgnoresSpace(before: string, s: string, after: string)
    requires AllSpace(before) && AllSpace(after) && IsSolid(s)
    ensures ParseBigInt(before + s + after) == ParseBigInt(s)
  {
    TrimIs(before, s, after);
    TrimOfSolid(s);
    hide Trim, DecValue, AllDigits;
  }

  /** BigInt reads an optional sign and at least one digit, and the empty text as 0; every other text it
      rejects. */
  lemma BigIntReadsIff(s: string)
    requires IsSolid(s)
    ensures ParseBigInt(s).Some? <==>
            s == "" || IsNumeral(s) || (s[0] in {'-', '+'} && IsNumeral(s[1..]))
    ensures s == "" ==> ParseBigInt(s) == Some(0)
    ensures IsNumeral(s) ==> ParseBigInt(s) == Some(DecValue(s) as int)
    ensures s != "" && s[0] == '+' && IsNumeral(s[1..]) ==> ParseBigInt(s) == Some(DecValue(s[1..]) as int)
    ensures s != "" && s[0] == '-' && IsNumeral(s[1..]) ==> ParseBigInt(s) == Some(-(DecValue(s[1..]) as int))
  {
    TrimOfSolid(s);
    hide Trim, DecValue;
    assert IsNumeral(s) ==> IsDigit(s[0]);
  }

  predicate IsNumeral(s: string) {
    s != "" && AllDigits(s)
  }
}
