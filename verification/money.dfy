/** Micro-unit money texts: packages/wallet-spec (toMicro, fromMicro), the reconcile script
    (fmtMicro), and the game client (formatMicroAmount, hnlToMicro). */
module Money {
  import opened Wrappers
  import opened Text
  import opened IntFacts

  const MICRO_PER_UNIT: nat := 100_000

  /** Whole units in micro-units. */
  function InMicro(units: int): int {
    units * 100_000
  }

  function AbsInt(n: int): nat {
    if n < 0 then -n else n
  }

  /** text.replace(/0+$/, '') */
  function StripTrailingZeros(s: string): (r: string)
    ensures |r| <= |s| && r == s[..|r|]
    ensures r != "" ==> r[|r| - 1] != '0'
  {
    if s != "" && s[|s| - 1] == '0' then StripTrailingZeros(s[..|s| - 1]) else s
  }

  function FromMicro(micro: int): string {
    var abs := AbsInt(micro);
    var intPart := DecText(abs / MICRO_PER_UNIT);
    var fracPart := StripTrailingZeros(PadStart(DecText(abs % MICRO_PER_UNIT), 5));
    var s := if |fracPart| > 0 then intPart + "." + fracPart else intPart;
    if micro < 0 then "-" + s else s
  }

  function FormatMicroAmount(micro: int): string {
    var abs := AbsInt(micro);
    var whole, frac := abs / MICRO_PER_UNIT, abs % MICRO_PER_UNIT;
    var sign := if micro < 0 then "-" else "";
    if frac == 0 then sign + DecText(whole)
    else sign + DecText(whole) + "." + StripTrailingZeros(PadStart(DecText(frac), 5))
  }

  function FmtMicro(n: int): string {
    var abs := AbsInt(n);
    (if n < 0 then "-" else "") + DecText(abs / MICRO_PER_UNIT) + "." + PadStart(DecText(abs % MICRO_PER_UNIT), 5)
  }

  /** value.split('.'): the text before the first dot, and the text up to a second one. */
  function IntPart(value: string): string {
    Split(value, '.')[0]
  }

  function FracPart(value: string): string {
    var parts := Split(value, '.');
    if |parts| > 1 then parts[1] else ""
  }

  /** toMicro on a string; None where BigInt throws. */
  function ToMicro(value: string): Option<int> {
    MicroOfParts(IntPart(value), FracPart(value))
  }

  /** (frac + '00000').slice(0, 5) */
  function FiveDigits(frac: string): (cut: string)
    ensures |cut| == 5 && (AllDigits(frac) ==> AllDigits(cut))
  {
    (frac + "00000")[..5]
  }

  function MicroOfParts(intPart: string, fracPart: string): Option<int> {
    var units := ParseBigInt(if intPart == "" then "0" else intPart);
    var fraction := ParseBigInt(FiveDigits(fracPart));
    if units.None? || fraction.None? then None else Some(InMicro(units.value) + fraction.value)
  }

  /** s.replace(/[^\d]/g, '') */
  function OnlyDigits(s: string): (r: string)
    ensures AllDigits(r)
  {
    if s == "" then "" else if IsDigit(s[0]) then [s[0]] + OnlyDigits(s[1..]) else OnlyDigits(s[1..])
  }

  function HnlToMicro(value: string): int {
    var digits := OnlyDigits(IntPart(Trim(value)));
    var safeInt := if digits == "" then "0" else digits;
    InMicro(DecValue(safeInt)) + DecValue(FiveDigits(OnlyDigits(FracPart(Trim(value)))))
  }

  // ----- The two display printers print the same text -----

  lemma {:induction false} StripKeepsValue(s: string, k: nat)
    requires AllDigits(s) && |s| <= k
    ensures AllDigits(StripTrailingZeros(s))
    ensures StripTrailingZeros(s) + Zeros(k - |StripTrailingZeros(s)|) == s + Zeros(k - |s|)
    ensures StripTrailingZeros(s) == "" <==> DecValue(s) == 0
  {
    if s != "" && s[|s| - 1] == '0' {
      StripKeepsValue(s[..|s| - 1], k);
      assert s == s[..|s| - 1] + "0";
      assert s + Zeros(k - |s|) == s[..|s| - 1] + Zeros(k - |s| + 1);
    }
  }

  /** The five fraction digits, before zeros are dropped. */
  lemma FractionDigits(abs: nat)
    ensures var frac := PadStart(DecText(abs % MICRO_PER_UNIT), 5);
            |frac| == 5 && AllDigits(frac) && DecValue(frac) == abs % MICRO_PER_UNIT
  {
    var f := abs % MICRO_PER_UNIT;
    assert Pow10(5) == MICRO_PER_UNIT;
    DecTextLength(f, 5);
    ValueOfDecText(f);
    ValueOfZeros(5 - |DecText(f)|, DecText(f));
  }

  lemma DisplaysAgree(micro: int)
    ensures FormatMicroAmount(micro) == FromMicro(micro)
  {
    var abs := AbsInt(micro);
    FractionDigits(abs);
    StripKeepsValue(PadStart(DecText(abs % MICRO_PER_UNIT), 5), 5);
  }

  // ----- Reading back what was printed -----

  /** A sign, whole digits, and fraction digits of which the dropped ones are zeros. */
  predicate IsPrinted(s: string, negative: bool, whole: string, frac: string) {
    && whole != "" && AllDigits(whole) && AllDigits(frac) && |frac| <= 5
    && (s == Head(negative, whole) + "." + frac || (frac == "" && s == Head(negative, whole)))
  }

  function Head(negative: bool, whole: string): string {
    if negative then "-" + whole else whole
  }

  lemma FiveDigitsPad(frac: string)
    requires |frac| <= 5
    ensures FiveDigits(frac) == frac + Zeros(5 - |frac|)
  {
  }

  lemma PartsArePrinted(negative: bool, whole: string, frac: string)
    requires whole != "" && AllDigits(whole) && AllDigits(frac) && |frac| <= 5
    ensures var s := if |frac| > 0 then whole + "." + frac else whole;
            IsPrinted(if negative then "-" + s else s, negative, whole, frac)
  {
    assert "-" + (whole + "." + frac) == "-" + whole + "." + frac;
  }

  lemma FromMicroPrints(micro: int) returns (whole: string, frac: string)
    ensures IsPrinted(FromMicro(micro), micro < 0, whole, frac)
    ensures InMicro(DecValue(whole)) + DecValue(FiveDigits(frac)) == AbsInt(micro)
  {
    var abs := AbsInt(micro);
    whole := DecText(abs / MICRO_PER_UNIT);
    var padded := PadStart(DecText(abs % MICRO_PER_UNIT), 5);
    frac := StripTrailingZeros(padded);
    FractionDigits(abs);
    StripKeepsValue(padded, 5);
    FiveDigitsPad(frac);
    ValueOfDecText(abs / MICRO_PER_UNIT);
    hide DecText, DecValue, PadStart, StripTrailingZeros, FiveDigits;
    assert padded + Zeros(0) == padded;
    PartsArePrinted(micro < 0, whole, frac);
    hide IsPrinted;
  }

  /** No leading zero, no trailing zero behind a point, and no point behind whole units. */
  predicate IsShortest(s: string, first: nat) {
    first < |s| && IsDigit(s[first]) &&
    (s[first] == '0' && first + 1 < |s| ==> s[first + 1] == '.') &&
    ('.' in s ==> IsDigit(s[|s| - 1]) && s[|s| - 1] != '0')
  }

  lemma ShortestOfParts(whole: string, frac: string)
    requires whole != "" && AllDigits(whole) && (|whole| == 1 || whole[0] != '0')
    requires AllDigits(frac) && (frac != "" ==> frac[|frac| - 1] != '0')
    ensures var s := if |frac| > 0 then whole + "." + frac else whole;
            s != "" && s[0] != '-' && IsShortest(s, 0)
  {
    var s := if |frac| > 0 then whole + "." + frac else whole;
    assert s[0] == whole[0];
    if frac != "" {
      assert s[|s| - 1] == frac[|frac| - 1];
      assert |whole| == 1 ==> s[1] == '.';
    }
  }

  lemma ShortestSigned(s: string)
    requires IsShortest(s, 0)
    ensures IsShortest("-" + s, 1) && ("-" + s)[0] == '-'
  {
    assert forall i :: 0 <= i < |s| ==> ("-" + s)[i + 1] == s[i];
    assert '.' in "-" + s <==> '.' in s;
  }

  /** fromMicro prints the shortest text of the amount. */
  lemma FromMicroIsShortest(micro: int)
    ensures IsShortest(FromMicro(micro), if micro < 0 then 1 else 0)
    ensures FromMicro(micro)[0] == '-' <==> micro < 0
  {
    var abs := AbsInt(micro);
    var whole, padded := DecText(abs / MICRO_PER_UNIT), PadStart(DecText(abs % MICRO_PER_UNIT), 5);
    var frac := StripTrailingZeros(padded);
    NoLeadingZero(abs / MICRO_PER_UNIT);
    FractionDigits(abs);
    hide DecText, PadStart, StripTrailingZeros, DecValue;
    ShortestOfParts(whole, frac);
    var s := if |frac| > 0 then whole + "." + frac else whole;
    ShortestSigned(s);
    hide IsShortest, AllDigits;
    assert FromMicro(micro) == if micro < 0 then "-" + s else s;
  }

  lemma FmtMicroPrints(micro: int) returns (whole: string, frac: string)
    ensures IsPrinted(FmtMicro(micro), micro < 0, whole, frac)
    ensures |frac| == 5
    ensures InMicro(DecValue(whole)) + DecValue(FiveDigits(frac)) == AbsInt(micro)
  {
    var abs := AbsInt(micro);
    whole, frac := DecText(abs / MICRO_PER_UNIT), PadStart(DecText(abs % MICRO_PER_UNIT), 5);
    FractionDigits(abs);
    FiveDigitsPad(frac);
    assert frac + Zeros(0) == frac;
    ValueOfDecText(abs / MICRO_PER_UNIT);
    assert "" + whole == whole;
  }

  lemma SplitPrinted(s: string, negative: bool, whole: string, frac: string)
    requires IsPrinted(s, negative, whole, frac)
    ensures IntPart(s) == Head(negative, whole) && FracPart(s) == frac
  {
    SplitPrefix(Head(negative, whole), frac, '.');
    SplitPrefix(frac, "", '.');
  }

  /** toMicro keeps the sign of the whole part but always adds the fraction. */
  lemma ToMicroOfPrinted(s: string, negative: bool, whole: string, frac: string)
    requires IsPrinted(s, negative, whole, frac)
    ensures var units: int := DecValue(whole);
            ToMicro(s) == Some(InMicro(if negative then -units else units) + DecValue(FiveDigits(frac)))
  {
    SplitPrinted(s, negative, whole, frac);
    PartsOfPrinted(negative, whole, frac);
  }

  lemma PartsOfPrinted(negative: bool, whole: string, frac: string)
    requires whole != "" && AllDigits(whole) && AllDigits(frac)
    ensures var units: int := DecValue(whole);
            MicroOfParts(Head(negative, whole), frac)
            == Some(InMicro(if negative then -units else units) + DecValue(FiveDigits(frac)))
  {
    ParseHead(negative, whole);
    ParseDigits(FiveDigits(frac));
  }

  lemma ParseHead(negative: bool, whole: string)
    requires whole != "" && AllDigits(whole)
    ensures ParseBigInt(Head(negative, whole)) == Some(if negative then -(DecValue(whole) as int) else DecValue(whole))
  {
    if negative {
      ParseNegative(whole);
    } else {
      ParseDigits(whole);
    }
  }

  lemma PrintedRoundTripIff(s: string, micro: int, whole: string, frac: string)
    requires IsPrinted(s, micro < 0, whole, frac)
    requires InMicro(DecValue(whole)) + DecValue(FiveDigits(frac)) == AbsInt(micro)
    ensures ToMicro(s) == Some(micro) <==> micro >= 0 || micro % MICRO_PER_UNIT == 0
  {
    hide ToMicro, DecValue;
    ToMicroOfPrinted(s, micro < 0, whole, frac);
    FiveDigitsBound(frac);
    SignedReadBack(micro, DecValue(whole), DecValue(FiveDigits(frac)));
  }

  /** toMicro undoes both printers exactly on the non-negative amounts and the whole negative ones. */
  lemma ToMicroRoundTripIff(micro: int)
    ensures ToMicro(FromMicro(micro)) == Some(micro) <==> micro >= 0 || micro % MICRO_PER_UNIT == 0
    ensures ToMicro(FmtMicro(micro)) == Some(micro) <==> micro >= 0 || micro % MICRO_PER_UNIT == 0
  {
    var w1, f1 := FromMicroPrints(micro);
    PrintedRoundTripIff(FromMicro(micro), micro, w1, f1);
    var w2, f2 := FmtMicroPrints(micro);
    PrintedRoundTripIff(FmtMicro(micro), micro, w2, f2);
  }

  lemma FiveDigitsBound(frac: string)
    requires AllDigits(frac)
    ensures DecValue(FiveDigits(frac)) < MICRO_PER_UNIT
  {
    ValueBound(FiveDigits(frac));
    assert Pow10(5) == MICRO_PER_UNIT;
  }

  lemma SignedReadBack(micro: int, units: int, fraction: nat)
    requires InMicro(units) + fraction == AbsInt(micro) && fraction < MICRO_PER_UNIT
    ensures InMicro(if micro < 0 then -units else units) + fraction == micro
       <==> micro >= 0 || micro % MICRO_PER_UNIT == 0
  {
  }

  lemma {:induction false} OnlyDigitsOfDigits(s: string)
    requires AllDigits(s)
    ensures OnlyDigits(s) == s
  {
    if s != "" {
      OnlyDigitsOfDigits(s[1..]);
    }
  }

  lemma HnlToMicroOfPrinted(s: string, negative: bool, whole: string, frac: string)
    requires IsPrinted(s, negative, whole, frac)
    ensures HnlToMicro(s) == InMicro(DecValue(whole)) + DecValue(FiveDigits(frac))
  {
    TrimOfSolid(s);
    SplitPrinted(s, negative, whole, frac);
    OnlyDigitsOfDigits(whole);
    OnlyDigitsOfDigits(frac);
    assert ("-" + whole)[1..] == whole;
  }

  /** The client's reader drops the sign: it returns the absolute amount of whatever was printed. */
  lemma HnlToMicroReadsAbsolute(micro: int)
    ensures HnlToMicro(FromMicro(micro)) == AbsInt(micro)
    ensures HnlToMicro(FmtMicro(micro)) == AbsInt(micro)
  {
    var w1, f1 := FromMicroPrints(micro);
    HnlToMicroOfPrinted(FromMicro(micro), micro < 0, w1, f1);
    var w2, f2 := FmtMicroPrints(micro);
    HnlToMicroOfPrinted(FmtMicro(micro), micro < 0, w2, f2);
  }

  // ----- toMicro truncates -----

  /** On any non-negative decimal text toMicro is the value times 10^5, rounded down: with n fraction
      digits the value is DecValue(whole + frac) / 10^n. Without a point it is the value times 10^5. */
  lemma ToMicroFloors(whole: string, frac: string)
    requires AllDigits(whole) && AllDigits(frac)
    ensures ToMicro(whole + "." + frac) == Some(InMicro(DecValue(whole + frac)) / Pow10(|frac|))
    ensures ToMicro(whole) == Some(InMicro(DecValue(whole)))
  {
    hide ToMicro, DecValue, FiveDigits;
    ToMicroOfDecimal(whole, frac);
    DecimalFloor(whole, frac);
    ToMicroOfWhole(whole);
  }

  lemma ToMicroOfWhole(whole: string)
    requires AllDigits(whole)
    ensures ToMicro(whole) == Some(InMicro(DecValue(whole)))
  {
    hide DecValue, FiveDigits, MicroOfParts, IntPart, FracPart;
    SplitWhole(whole);
    PartsOfDecimal(whole, "");
    NoFraction();
  }

  lemma SplitWhole(whole: string)
    requires AllDigits(whole)
    ensures IntPart(whole) == whole && FracPart(whole) == ""
  {
    SplitPrefix(whole, "", '.');
  }

  lemma NoFraction()
    ensures DecValue(FiveDigits("")) == 0
  {
    FiveDigitsPad("");
    assert FiveDigits("") == Zeros(5) + "";
    ValueOfZeros(5, "");
  }

  lemma DecimalFloor(whole: string, frac: string)
    requires AllDigits(whole) && AllDigits(frac)
    ensures InMicro(DecValue(whole + frac)) / Pow10(|frac|) == InMicro(DecValue(whole)) + DecValue(FiveDigits(frac))
  {
    ValueOfConcat(whole, frac);
    var rest := CutRemainder(frac);
    FloorOfSum(DecValue(whole + frac), DecValue(whole), DecValue(frac), Pow10(|frac|), DecValue(FiveDigits(frac)),
               rest);
  }

  lemma ToMicroOfDecimal(whole: string, frac: string)
    requires AllDigits(whole) && AllDigits(frac)
    ensures ToMicro(whole + "." + frac) == Some(InMicro(DecValue(whole)) + DecValue(FiveDigits(frac)))
  {
    SplitDecimal(whole, frac);
    PartsOfDecimal(whole, frac);
  }

  lemma PartsOfDecimal(whole: string, frac: string)
    requires AllDigits(whole) && AllDigits(frac)
    ensures MicroOfParts(whole, frac) == Some(InMicro(DecValue(whole)) + DecValue(FiveDigits(frac)))
  {
    ParseDigits(FiveDigits(frac));
    WholeValue(whole);
  }

  lemma SplitDecimal(whole: string, frac: string)
    requires AllDigits(whole) && AllDigits(frac)
    ensures IntPart(whole + "." + frac) == whole && FracPart(whole + "." + frac) == frac
  {
    SplitPrefix(whole, frac, '.');
    SplitPrefix(frac, "", '.');
  }

  lemma WholeValue(whole: string)
    requires AllDigits(whole)
    ensures ParseBigInt(if whole == "" then "0" else whole) == Some(DecValue(whole) as int)
  {
    ParseDigits(if whole == "" then "0" else whole);
    assert DecValue("0") == DecValue("") by { assert "0"[..0] == ""; }
  }

  /** frac as a fraction times 10^5 is the cut digits and a remainder. */
  lemma CutRemainder(frac: string) returns (rest: nat)
    requires AllDigits(frac)
    ensures InMicro(DecValue(frac)) == DecValue(FiveDigits(frac)) * Pow10(|frac|) + rest && rest < Pow10(|frac|)
  {
    var n := |frac|;
    assert Pow10(5) == MICRO_PER_UNIT;
    if n <= 5 {
      assert FiveDigits(frac) == frac + Zeros(5 - n);
      ValueOfConcat(frac, Zeros(5 - n));
      ValueOfZeros(5 - n, "");
      assert Zeros(5 - n) + "" == Zeros(5 - n);
      Pow10Sum(5 - n, n);
      rest := 0;
      Regroup(DecValue(frac), Pow10(5 - n), Pow10(n));
    } else {
      var cut, tail := FiveDigits(frac), frac[5..];
      assert frac == cut + tail;
      ValueOfConcat(cut, tail);
      Pow10Sum(5, n - 5);
      ValueBound(tail);
      rest := InMicro(DecValue(tail));
      Regroup(DecValue(cut), Pow10(n - 5), Pow10(5));
    }
  }

  lemma Regroup(a: nat, p: nat, q: nat)
    ensures a * p * q == a * (p * q) == a * (q * p)
  {
  }

  lemma FloorOfSum(v: nat, w: nat, f: nat, p: nat, cut: nat, rest: nat)
    requires v == w * p + f && InMicro(f) == cut * p + rest && rest < p
    ensures InMicro(v) / p == InMicro(w) + cut
  {
    assert InMicro(w * p) == InMicro(w) * p;
    assert (InMicro(w) + cut) * p == InMicro(w) * p + cut * p;
    QuotientUnique(InMicro(v), p, InMicro(w) + cut, rest);
  }

  lemma {:induction false} Pow10Sum(m: nat, n: nat)
    ensures Pow10(m + n) == Pow10(m) * Pow10(n)
  {
    if m > 0 {
      Pow10Sum(m - 1, n);
    }
  }

  // ----- hnlToMicro truncates as well -----

  /** The digits of a text in order, every other character dropped. */
  lemma {:induction false} OnlyDigitsByCharacter(a: string, b: string, c: char)
    ensures OnlyDigits("") == "" && OnlyDigits(a + b) == OnlyDigits(a) + OnlyDigits(b)
    ensures OnlyDigits([c]) == if '0' <= c <= '9' then [c] else ""
  {
    assert OnlyDigits("") == "" && [c][1..] == "";
    if a == "" {
      assert a + b == b;
    } else {
      assert (a + b)[1..] == a[1..] + b;
      OnlyDigitsByCharacter(a[1..], b, c);
    }
  }

  /** On any text hnlToMicro is the number its digits spell around the first point, times 10^5 and rounded down. */
  lemma HnlToMicroFloors(whole: string, frac: string)
    requires '.' !in whole && '.' !in frac && IsSolid(whole + "." + frac)
    ensures var w, f := OnlyDigits(whole), OnlyDigits(frac);
            HnlToMicro(whole + "." + frac) == InMicro(DecValue(w + f)) / Pow10(|f|)
  {
    TrimOfSolid(whole + "." + frac);
    SplitPrefix(whole, frac, '.');
    SplitPrefix(frac, "", '.');
    NoWholeIsZero(OnlyDigits(whole));
    DecimalFloor(OnlyDigits(whole), OnlyDigits(frac));
    hide Trim, Split, DecValue, FiveDigits, OnlyDigits, InMicro;
  }

  /** A text without a point is whole units. */
  lemma HnlToMicroOfWhole(whole: string)
    requires '.' !in whole && IsSolid(whole)
    ensures HnlToMicro(whole) == InMicro(DecValue(OnlyDigits(whole)))
  {
    TrimOfSolid(whole);
    SplitPrefix(whole, "", '.');
    NoWholeIsZero(OnlyDigits(whole));
    NoFraction();
    hide Trim, Split, DecValue, FiveDigits, InMicro;
    assert OnlyDigits("") == "";
  }

  lemma NoWholeIsZero(digits: string)
    requires AllDigits(digits)
    ensures DecValue(if digits == "" then "0" else digits) == DecValue(digits)
  {
    assert "0"[..0] == "";
  }
}
