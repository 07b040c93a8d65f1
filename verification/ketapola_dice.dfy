/** Ketapola Dice: outcome and settlement (games/ketapola-dice), and the second implementation of
    the outcome that the operator portal runs in the browser (apps/operator-portal/src/utils/proof.ts). */
module KetapolaDice {
  import opened RealFacts
  import opened GameContract
  import opened Hexadecimal
  import opened RngCore
  import Bits

  const WORDS: nat := 0x1_0000_0000

  datatype Side = LOW | HIGH

  datatype RoundOutcome = RoundOutcome(outcomeSum: int, outcomeSide: Side)

  datatype DiceError = BadWeights | BadNonce

  datatype DiceResult = Rolled(outcome: RoundOutcome) | Failed(error: DiceError)

  function Faces(side: Side): seq<int> {
    match side
    case LOW => [3, 6, 9]
    case HIGH => [12, 15, 18]
  }

  function TotalWeight(lowWeight: real, highWeight: real): real {
    lowWeight + highWeight
  }

  function Threshold(lowWeight: real, highWeight: real, words: nat): real
    requires lowWeight > 0.0 && highWeight > 0.0
  {
    lowWeight / TotalWeight(lowWeight, highWeight) * (words - 1) as real
  }

  function SideOf(sideValue: nat, lowWeight: real, highWeight: real, words: nat): Side
    requires lowWeight > 0.0 && highWeight > 0.0
  {
    if sideValue as real < Threshold(lowWeight, highWeight, words) then LOW else HIGH
  }

  predicate ValidNonce(nonce: real) {
    nonce.Floor as real == nonce && nonce >= 0.0
  }

  /** The server rejects the weights before the RNG rejects the nonce. */
  function DetermineOutcome(hmac: string, nonce: real, lowWeight: real, highWeight: real): DiceResult
    requires IsHmac(hmac)
  {
    if lowWeight <= 0.0 || highWeight <= 0.0 then Failed(BadWeights)
    else if !ValidNonce(nonce) then Failed(BadNonce)
    else
      var side := SideOf(Uint32At(hmac, 0), lowWeight, highWeight, WORDS);
      var faceValue := Uint32At(hmac, 8);
      var faces := Faces(side);
      Rolled(RoundOutcome(faces[faceValue % |faces|], side))
  }

  function SettleKetapolaDiceBet(side: Side, amountMicro: int, outcome: RoundOutcome,
                                 commissionMicro: int): Settlement
  {
    if side != outcome.outcomeSide then Settlement(false, 0)
    else
      var gross := amountMicro * 2;
      Settlement(true, if gross > commissionMicro then gross - commissionMicro else 0)
  }

  // ----- How many side words are LOW -----

  function CountLow(m: nat, lowWeight: real, highWeight: real, words: nat): nat
    requires lowWeight > 0.0 && highWeight > 0.0
  {
    if m == 0 then 0
    else CountLow(m - 1, lowWeight, highWeight, words) +
         if SideOf(m - 1, lowWeight, highWeight, words) == LOW then 1 else 0
  }

  lemma {:induction false} CountBelowThreshold(m: nat, lowWeight: real, highWeight: real, words: nat)
    requires lowWeight > 0.0 && highWeight > 0.0 && Threshold(lowWeight, highWeight, words) >= 0.0
    ensures var c := Ceil(Threshold(lowWeight, highWeight, words));
            CountLow(m, lowWeight, highWeight, words) == if m <= c then m else c
  {
    if m > 0 {
      CountBelowThreshold(m - 1, lowWeight, highWeight, words);
    }
  }

  lemma ThresholdFacts(l: real, h: real, words: nat)
    requires l > 0.0 && h > 0.0 && words > 0
    ensures 0.0 <= Threshold(l, h, words) <= (words - 1) as real
    ensures Times(Threshold(l, h, words), TotalWeight(l, h)) == Times(l, words as real) - l
  {
    Fraction(l, TotalWeight(l, h));
    PartOfWords(l / TotalWeight(l, h), (words - 1) as real, TotalWeight(l, h), l);
    LessOne(l, words);
  }

  lemma Fraction(l: real, total: real)
    requires 0.0 < l < total
    ensures 0.0 <= l / total <= 1.0 && Times(l / total, total) == l
  {
    QuotientAtLeast(l, total, 0.0);
    QuotientAtLeast(l, total, 1.0);
  }

  lemma LessOne(l: real, words: nat)
    requires words > 0
    ensures Times(l, (words - 1) as real) == Times(l, words as real) - l
  {
  }

  lemma PartOfWords(p: real, n: real, total: real, l: real)
    requires 0.0 <= p <= 1.0 && n >= 0.0 && Times(p, total) == l
    ensures 0.0 <= p * n <= n && Times(p * n, total) == Times(l, n)
  {
    MulAtMost(p, 1.0, n);
    MulAtMost(0.0, p, n);
    assert p * n * total == (p * total) * n;
  }

  /** By how much c words out of the total exceed the LOW side's share, scaled by both weights. */
  function LowExcess(c: nat, l: real, h: real, words: nat): real {
    Times(c as real, TotalWeight(l, h)) - Times(l, words as real)
  }

  /** The weights are met to within one word either way. */
  lemma LowWordCount(l: real, h: real, words: nat)
    requires l > 0.0 && h > 0.0 && words > 0
    ensures -l <= LowExcess(CountLow(words, l, h, words), l, h, words) < h
  {
    ThresholdFacts(l, h, words);
    CountBelowThreshold(words, l, h, words);
    var t, c := Threshold(l, h, words), CountLow(words, l, h, words);
    RoundedUpBounds(t, c as real, TotalWeight(l, h));
  }

  lemma RoundedUpBounds(t: real, c: real, total: real)
    requires total > 0.0 && t <= c < t + 1.0
    ensures Times(t, total) <= Times(c, total) < Times(t, total) + total
  {
    if t < c {
      TimesLess(t, c, total);
    }
    TimesLess(c, t + 1.0, total);
    TimesSum(t, 1.0, total);
    assert Times(1.0, total) == total;
  }

  /** Equal weights split an even number of words exactly in half. */
  lemma EqualWeightsAreFair(w: real, words: nat)
    requires w > 0.0 && words > 0 && words % 2 == 0
    ensures CountLow(words, w, w, words) == words / 2
  {
    LowWordCount(w, w, words);
    var c := CountLow(words, w, w, words);
    ExcessOfEqual(c, w, words);
    WithinOneWeight((2 * c - words) as real, w);
    assert -1 <= 2 * c - words < 1;
  }

  lemma WithinOneWeight(excess: real, w: real)
    requires w > 0.0 && -w <= Times(excess, w) < w
    ensures -1.0 <= excess < 1.0
  {
    if excess >= 1.0 {
      MulAtMost(1.0, excess, w);
    } else if excess < -1.0 {
      MulLess(excess, -1.0, w);
    }
  }

  lemma ExcessOfEqual(c: nat, w: real, words: nat)
    ensures LowExcess(c, w, w, words) == Times((2 * c - words) as real, w)
  {
  }

  // ----- What one digest gives -----

  /** When the weights or the nonce are refused, and what is rolled otherwise: the first eight digits decide
      the side, by their weight, and the next eight the face, by their remainder. */
  lemma OutcomeIs(hmac: string, nonce: real, l: real, h: real)
    requires IsHmac(hmac)
    ensures var r := DetermineOutcome(hmac, nonce, l, h);
            var isNonce := nonce >= 0.0 && nonce.Floor as real == nonce;
            (r == Failed(BadWeights) <==> l <= 0.0 || h <= 0.0) &&
            (r == Failed(BadNonce) <==> l > 0.0 && h > 0.0 && !isNonce) &&
            (r.Rolled? ==>
               var side, face := HexValue(hmac[..8]), HexValue(hmac[8..16]);
               (r.outcome.outcomeSide == LOW <==> Times(side as real, l + h) < Times(4294967295.0, l)) &&
               r.outcome.outcomeSum == (if r.outcome.outcomeSide == LOW then 3 else 12) + 3 * (face % 3) &&
               (r.outcome.outcomeSide == LOW <==> r.outcome.outcomeSum < 10))
  {
    assert hmac[0..8] == hmac[..8];
    if l > 0.0 && h > 0.0 {
      SideIsLowIff(Uint32At(hmac, 0), l, h);
    }
  }

  lemma SideIsLowIff(sideValue: nat, l: real, h: real)
    requires l > 0.0 && h > 0.0
    ensures SideOf(sideValue, l, h, WORDS) == LOW <==> Times(sideValue as real, l + h) < Times(4294967295.0, l)
  {
    var total := l + h;
    Fraction(l, total);
    QuotientTimes(l, total);
    var t := l / total * 4294967295.0;
    assert Times(t, total) == Times(4294967295.0, l);
    if sideValue as real < t {
      TimesLess(sideValue as real, t, total);
    } else if t < sideValue as real {
      TimesLess(t, sideValue as real, total);
    }
  }

  // ----- How many face words give each sum -----

  function CountFace(m: nat, face: nat): nat {
    if m == 0 then 0 else CountFace(m - 1, face) + if (m - 1) % 3 == face then 1 else 0
  }

  lemma {:induction false} FaceWordCount(m: nat, face: nat)
    requires face < 3
    ensures CountFace(m, face) == (m + 2 - face) / 3
  {
    if m > 0 {
      FaceWordCount(m - 1, face);
    }
  }

  /** The digest with another face word, and everything else as it is. */
  function WithFaceWord(hmac: string, word: nat): (s: string)
    requires IsHmac(hmac) && word < WORDS
    ensures IsHmac(s)
  {
    assert Pow16(8) == WORDS;
    hmac[..8] + HexDigits(word, 8) + hmac[16..]
  }

  /** For how many of the face words below m the game rolls this sum. */
  function CountSum(m: nat, hmac: string, nonce: real, l: real, h: real, sum: int): nat
    requires IsHmac(hmac) && m <= WORDS
  {
    if m == 0 then 0
    else
      var r := DetermineOutcome(WithFaceWord(hmac, m - 1), nonce, l, h);
      CountSum(m - 1, hmac, nonce, l, h, sum) + if r.Rolled? && r.outcome.outcomeSum == sum then 1 else 0
  }

  /** The smallest sum of the side that the digest's side word gives. */
  function LowestSum(hmac: string, l: real, h: real): int
    requires IsHmac(hmac)
  {
    if Times(HexValue(hmac[..8]) as real, l + h) < Times(4294967295.0, l) then 3 else 12
  }

  lemma OutcomeOfFaceWord(hmac: string, word: nat, nonce: real, l: real, h: real)
    requires IsHmac(hmac) && word < WORDS && l > 0.0 && h > 0.0 && ValidNonce(nonce)
    ensures var r := DetermineOutcome(WithFaceWord(hmac, word), nonce, l, h);
            r.Rolled? && r.outcome.outcomeSum == LowestSum(hmac, l, h) + 3 * (word % 3)
  {
    var s := WithFaceWord(hmac, word);
    assert Pow16(8) == WORDS;
    NumberOfDigits(word, 8);
    assert s[8..16] == HexDigits(word, 8) && s[..8] == hmac[..8];
    OutcomeIs(s, nonce, l, h);
  }

  lemma {:induction false} CountSumIsCountFace(m: nat, hmac: string, nonce: real, l: real, h: real, face: nat)
    requires IsHmac(hmac) && m <= WORDS && l > 0.0 && h > 0.0 && ValidNonce(nonce) && face < 3
    ensures CountSum(m, hmac, nonce, l, h, LowestSum(hmac, l, h) + 3 * face) == CountFace(m, face)
  {
    hide DetermineOutcome, WithFaceWord, LowestSum, ValidNonce, IsHmac;
    if m > 0 {
      CountSumIsCountFace(m - 1, hmac, nonce, l, h, face);
      OutcomeOfFaceWord(hmac, m - 1, nonce, l, h);
    }
  }

  /** With everything else in the digest fixed, each of the three sums of its side -- 3, 6 and 9, or 12, 15 and
      18 -- is rolled for the same number of face words, give or take one, and together for all of them. */
  lemma SumsAreEven(hmac: string, nonce: real, l: real, h: real)
    requires IsHmac(hmac) && l > 0.0 && h > 0.0 && ValidNonce(nonce)
    ensures var low := LowestSum(hmac, l, h);
            var a, b, c := CountSum(WORDS, hmac, nonce, l, h, low), CountSum(WORDS, hmac, nonce, l, h, low + 3),
                           CountSum(WORDS, hmac, nonce, l, h, low + 6);
            -1 <= a - b <= 1 && -1 <= b - c <= 1 && -1 <= a - c <= 1 && a + b + c == WORDS
  {
    hide DetermineOutcome, WithFaceWord, LowestSum, ValidNonce, IsHmac, CountSum, CountFace;
    CountSumIsCountFace(WORDS, hmac, nonce, l, h, 0);
    CountSumIsCountFace(WORDS, hmac, nonce, l, h, 1);
    CountSumIsCountFace(WORDS, hmac, nonce, l, h, 2);
    FacesAreEven(WORDS, 0, 1);
    FacesAreEven(WORDS, 1, 2);
    FacesAreEven(WORDS, 0, 2);
  }

  /** Any two faces of a side are picked by the same number of words, give or take one. */
  lemma FacesAreEven(words: nat, f: nat, g: nat)
    requires f < 3 && g < 3
    ensures -1 <= CountFace(words, f) - CountFace(words, g) <= 1
    ensures CountFace(words, 0) + CountFace(words, 1) + CountFace(words, 2) == words
  {
    FaceWordCount(words, f);
    FaceWordCount(words, g);
    FaceWordCount(words, 0);
    FaceWordCount(words, 1);
    FaceWordCount(words, 2);
  }

  // ----- Settlement over all side words -----

  /** A bet wins iff its side was rolled; twice the stake is paid, less the commission, or nothing where that
      is not positive. */
  lemma SettledBetIs(side: Side, amountMicro: nat, outcome: RoundOutcome, commissionMicro: nat)
    ensures var s := SettleKetapolaDiceBet(side, amountMicro, outcome, commissionMicro);
            (s.won <==> outcome.outcomeSide == side) &&
            s.payoutMicro + (if s.won && commissionMicro < 2 * amountMicro then commissionMicro else 0)
              == if s.won && commissionMicro < 2 * amountMicro then 2 * amountMicro else 0
  {
  }

  function TotalPayout(m: nat, l: real, h: real, words: nat, side: Side, amountMicro: int, commissionMicro: int): int
    requires l > 0.0 && h > 0.0
  {
    if m == 0 then 0
    else TotalPayout(m - 1, l, h, words, side, amountMicro, commissionMicro) +
         SettleKetapolaDiceBet(side, amountMicro, RoundOutcome(0, SideOf(m - 1, l, h, words)),
                               commissionMicro).payoutMicro
  }

  lemma {:induction false} TotalIsCountTimesPayout(m: nat, l: real, h: real, words: nat, side: Side,
                                                   amountMicro: int, commissionMicro: int)
    requires l > 0.0 && h > 0.0
    ensures var wins := if side == LOW then CountLow(m, l, h, words) else m - CountLow(m, l, h, words);
            var net := if amountMicro * 2 > commissionMicro then amountMicro * 2 - commissionMicro else 0;
            TotalPayout(m, l, h, words, side, amountMicro, commissionMicro) == wins * net
  {
    if m > 0 {
      TotalIsCountTimesPayout(m - 1, l, h, words, side, amountMicro, commissionMicro);
    }
  }

  /** With equal weights the game returns every stake less the commission of the winners, on
      either side, as long as the commission is below a gross win. */
  lemma EqualWeightsReturnStakes(w: real, side: Side, amountMicro: nat, commissionMicro: nat)
    requires w > 0.0 && commissionMicro < 2 * amountMicro
    ensures TotalPayout(WORDS, w, w, WORDS, side, amountMicro, commissionMicro)
         == WORDS * amountMicro - WORDS / 2 * commissionMicro
  {
    EqualWeightsAreFair(w, WORDS);
    TotalIsCountTimesPayout(WORDS, w, w, WORDS, side, amountMicro, commissionMicro);
  }

  // ----- The browser's second implementation -----

  /** Two lowercase hex digits per byte, as the server's digest('hex') prints them. */
  function HexOfBytes(bytes: seq<Bits.Byte>): (s: string)
    ensures |s| == 2 * |bytes| && IsLowerHex(s)
  {
    if bytes == [] then ""
    else HexOfBytes(bytes[..|bytes| - 1]) + [DigitChar(bytes[|bytes| - 1] / 16), DigitChar(bytes[|bytes| - 1] % 16)]
  }

  /** Number.prototype.toString(16) on a byte, then padStart(2, '0'). */
  function PaddedHex(b: Bits.Byte): string {
    var digits := if b < 16 then [DigitChar(b)] else [DigitChar(b / 16), DigitChar(b % 16)];
    if |digits| < 2 then "0" + digits else digits
  }

  lemma PaddedIsTwoDigits(b: Bits.Byte)
    ensures PaddedHex(b) == [DigitChar(b / 16), DigitChar(b % 16)]
  {
    if b < 16 {
      assert DigitChar(0) == '0';
    }
  }

  method ToHex(bytes: seq<Bits.Byte>) returns (out: string)
    ensures out == HexOfBytes(bytes)
  {
    hide PaddedHex, DigitChar, DigitValue, IsLowerHex;
    out := "";
    var i := 0;
    while i < |bytes|
      invariant 0 <= i <= |bytes|
      invariant out == HexOfBytes(bytes[..i])
    {
      assert bytes[..i + 1][..i] == bytes[..i];
      PaddedIsTwoDigits(bytes[i]);
      out := out + PaddedHex(bytes[i]);
      i := i + 1;
    }
    assert bytes[..i] == bytes;
  }

  /** The hex text determines the bytes: each pair of digits reads back as its byte. */
  lemma {:induction false} HexOfBytesReadsBack(bytes: seq<Bits.Byte>, i: nat)
    requires i < |bytes|
    ensures HexValue(HexOfBytes(bytes)[2 * i..2 * i + 2]) == bytes[i]
  {
    var n, s := |bytes| - 1, HexOfBytes(bytes);
    if i < n {
      HexOfBytesReadsBack(bytes[..n], i);
      assert s[2 * i..2 * i + 2] == HexOfBytes(bytes[..n])[2 * i..2 * i + 2];
    } else {
      var hi, lo := DigitChar(bytes[i] / 16), DigitChar(bytes[i] % 16);
      assert s[2 * i..2 * i + 2] == [hi] + [lo];
      ValueOfAppended([hi], lo);
      ValueOfAppended("", hi);
      assert "" + [hi] == [hi];
    }
  }

  /** The portal's verifier agrees with the server on every digest; only the order of the two
      input checks differs. */
  method DetermineOutcomeBrowser(digest: seq<Bits.Byte>, nonce: real, lowWeight: real, highWeight: real)
    returns (r: DiceResult)
    requires |digest| == 32
    ensures r == if !ValidNonce(nonce) then Failed(BadNonce)
                 else DetermineOutcome(HexOfBytes(digest), nonce, lowWeight, highWeight)
  {
    if !ValidNonce(nonce) {
      return Failed(BadNonce);
    }
    if lowWeight <= 0.0 || highWeight <= 0.0 {
      return Failed(BadWeights);
    }
    var hex := ToHex(digest);
    WordBound(hex[0..8]);
    var sideValue := HexValue(hex[0..8]);
    var totalWeight := lowWeight + highWeight;
    var threshold := lowWeight / totalWeight * 4294967295.0;
    var side := if sideValue as real < threshold then LOW else HIGH;
    var faceValue := HexValue(hex[8..16]);
    var faces := if side == LOW then [3, 6, 9] else [12, 15, 18];
    return Rolled(RoundOutcome(faces[faceValue % |faces|], side));
  }

  lemma WordBound(s: string)
    requires IsHex(s) && |s| == 8
    ensures HexValue(s) < WORDS
  {
    assert Pow16(8) == WORDS;
  }

  /** Comparing hashes without an early exit: or-ing the differences is zero iff they are equal. */
  method VerifyServerSeed(hash: string, expectedHash: string) returns (ok: bool)
    ensures ok <==> hash == expectedHash
  {
    if |hash| != |expectedHash| {
      return false;
    }
    var diff: nat := 0;
    var i := 0;
    while i < |hash|
      invariant 0 <= i <= |hash|
      invariant diff == 0 <==> hash[..i] == expectedHash[..i]
    {
      var d := Bits.BitXor(hash[i] as int, expectedHash[i] as int);
      Bits.XorZeroIff(hash[i] as int, expectedHash[i] as int);
      Bits.OrZeroIff(diff, d);
      diff := Bits.BitOr(diff, d);
      assert hash[..i + 1] == hash[..i] + [hash[i]];
      assert expectedHash[..i + 1] == expectedHash[..i] + [expectedHash[i]];
      i := i + 1;
    }
    assert hash[..i] == hash && expectedHash[..i] == expectedHash;
    return diff == 0;
  }
}
