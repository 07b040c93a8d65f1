/** The bitwise operators of JavaScript on non-negative numbers, defined bit by bit. A 32-bit
    value is kept in its unsigned form, which has the same bits and the same equalities. */
module Bits {
  import opened IntFacts

  type Byte = b: nat | b < 256

  function Pow2(n: nat): (p: nat)
    ensures p > 0
  {
    if n == 0 then 1 else 2 * Pow2(n - 1)
  }

  function BitAnd(a: nat, b: nat): nat {
    if a == 0 || b == 0 then 0
    else 2 * BitAnd(a / 2, b / 2) + if a % 2 == 1 && b % 2 == 1 then 1 else 0
  }

  function BitOr(a: nat, b: nat): nat {
    if a == 0 then b
    else if b == 0 then a
    else 2 * BitOr(a / 2, b / 2) + if a % 2 == 1 || b % 2 == 1 then 1 else 0
  }

  function BitXor(a: nat, b: nat): nat {
    if a == 0 then b
    else if b == 0 then a
    else 2 * BitXor(a / 2, b / 2) + if a % 2 != b % 2 then 1 else 0
  }

  const TWO32: nat := 0x1_0000_0000

  /** a << count on 32 bits: only the low five bits of the count are used. */
  function ShiftLeft32(a: nat, count: nat): (r: nat)
    ensures r < TWO32
  {
    Truncate32(a * Pow2(count % 32))
  }

  function Truncate32(n: nat): (r: nat)
    ensures r < TWO32
  {
    n % TWO32
  }

  // ----- Masks and shifts as arithmetic -----

  lemma Pow2Of32()
    ensures Pow2(32) == TWO32
    ensures Pow2(8) == 256
  {
    assert Pow2(8) == 256;
    assert Pow2(16) == 65536;
    assert Pow2(24) == 65536 * 256;
  }

  lemma {:induction false} Pow2Sum(m: nat, n: nat)
    ensures Pow2(m + n) == Pow2(m) * Pow2(n)
  {
    if m > 0 {
      Pow2Sum(m - 1, n);
    }
  }

  lemma {:induction false} AndAllOnes(a: nat, n: nat)
    requires a < Pow2(n)
    ensures BitAnd(a, Pow2(n) - 1) == a
  {
    if n > 0 {
      AndAllOnes(a / 2, n - 1);
      assert (Pow2(n) - 1) / 2 == Pow2(n - 1) - 1;
    }
  }

  /** n bits, of which the s low ones are zero. */
  function HighMask(s: nat, n: nat): (mask: nat)
    requires s <= n
    ensures mask + Pow2(s) == Pow2(n)
  {
    if s == 0 then Pow2(n) - 1 else 2 * HighMask(s - 1, n - 1)
  }

  lemma AndEven(a: nat, m: nat)
    ensures BitAnd(a, 2 * m) == 2 * BitAnd(a / 2, m)
  {
  }

  /** n right shifts by one: division by Pow2(n). */
  function Drop(a: nat, n: nat): nat {
    if n == 0 then a else Drop(a / 2, n - 1)
  }

  lemma {:induction false} DropIsDivision(a: nat, n: nat)
    ensures Drop(a, n) == a / Pow2(n)
  {
    if n > 0 {
      DropIsDivision(a / 2, n - 1);
      DivTwice(a, Pow2(n - 1));
    }
  }

  lemma {:induction false} DropInSteps(a: nat, m: nat, n: nat)
    ensures Drop(Drop(a, m), n) == Drop(a, m + n)
  {
    if m > 0 {
      DropInSteps(a / 2, m - 1, n);
    }
  }

  lemma {:induction false} DropAll(a: nat, n: nat)
    requires a < Pow2(n)
    ensures Drop(a, n) == 0
  {
    if n > 0 {
      DropAll(a / 2, n - 1);
    }
  }

  lemma {:induction false} DropSum(v: nat, x: nat, k: nat, s: nat)
    requires s <= k
    ensures Drop(v * Pow2(k) + x, s) == v * Pow2(k - s) + Drop(x, s)
  {
    if s > 0 {
      TwiceProduct(v, Pow2(k - 1));
      DropSum(v, x / 2, k - 1, s - 1);
    }
  }

  lemma TwiceProduct(v: nat, p: nat)
    ensures v * (2 * p) == 2 * (v * p)
  {
  }

  /** Equal under a mask that clears the s low bits iff equal after dropping them. */
  lemma {:induction false} MaskedEqualIff(a: nat, b: nat, s: nat, n: nat)
    requires s <= n && a < Pow2(n) && b < Pow2(n)
    ensures BitAnd(a, HighMask(s, n)) == BitAnd(b, HighMask(s, n)) <==> Drop(a, s) == Drop(b, s)
  {
    if s == 0 {
      AndAllOnes(a, n);
      AndAllOnes(b, n);
    } else {
      AndEven(a, HighMask(s - 1, n - 1));
      AndEven(b, HighMask(s - 1, n - 1));
      MaskedEqualIff(a / 2, b / 2, s - 1, n - 1);
    }
  }

  lemma OrHalves(a: nat, v: nat)
    ensures BitOr(2 * a, v) == 2 * BitOr(a, v / 2) + v % 2
  {
  }

  /** Or-ing into freshly shifted-in zeros is addition. */
  lemma {:induction false} OrIsSum(hi: nat, v: nat, s: nat)
    requires v < Pow2(s)
    ensures BitOr(hi * Pow2(s), v) == hi * Pow2(s) + v
  {
    if s > 0 {
      TwiceProduct(hi, Pow2(s - 1));
      OrHalves(hi * Pow2(s - 1), v);
      OrIsSum(hi, v / 2, s - 1);
    }
  }

  // ----- Comparing by or-ing exclusive ors -----

  lemma {:induction false} XorZeroIff(a: nat, b: nat)
    ensures BitXor(a, b) == 0 <==> a == b
  {
    if a != 0 && b != 0 {
      XorZeroIff(a / 2, b / 2);
    }
  }

  lemma {:induction false} OrZeroIff(a: nat, b: nat)
    ensures BitOr(a, b) == 0 <==> a == 0 && b == 0
  {
    if a != 0 && b != 0 {
      OrZeroIff(a / 2, b / 2);
    }
  }

  // ----- Bit by bit -----

  predicate HasBit(a: nat, k: nat) {
    Drop(a, k) % 2 == 1
  }

  /** The operators combine their operands bit by bit. */
  lemma {:induction false} BitwiseAt(a: nat, b: nat, k: nat)
    ensures HasBit(BitAnd(a, b), k) <==> HasBit(a, k) && HasBit(b, k)
    ensures HasBit(BitOr(a, b), k) <==> HasBit(a, k) || HasBit(b, k)
    ensures HasBit(BitXor(a, b), k) <==> HasBit(a, k) != HasBit(b, k)
  {
    LowBits(a, b);
    HalvesCombine(a, b);
    hide BitAnd, BitOr, BitXor;
    if k > 0 {
      BitwiseAt(a / 2, b / 2, k - 1);
    }
  }

  lemma LowBits(a: nat, b: nat)
    ensures BitAnd(a, b) % 2 == 1 <==> a % 2 == 1 && b % 2 == 1
    ensures BitOr(a, b) % 2 == 1 <==> a % 2 == 1 || b % 2 == 1
    ensures BitXor(a, b) % 2 == 1 <==> a % 2 != b % 2
  {
    if a != 0 && b != 0 {
      var both, either := a % 2 == 1 && b % 2 == 1, a % 2 == 1 || b % 2 == 1;
      assert BitAnd(a, b) == 2 * BitAnd(a / 2, b / 2) + if both then 1 else 0;
      assert BitOr(a, b) == 2 * BitOr(a / 2, b / 2) + if either then 1 else 0;
      assert BitXor(a, b) == 2 * BitXor(a / 2, b / 2) + if a % 2 != b % 2 then 1 else 0;
      hide BitAnd, BitOr, BitXor;
      LastBit(BitAnd(a / 2, b / 2), both);
      LastBit(BitOr(a / 2, b / 2), either);
      LastBit(BitXor(a / 2, b / 2), a % 2 != b % 2);
    }
  }

  lemma LastBit(half: nat, bit: bool)
    ensures (2 * half + if bit then 1 else 0) % 2 == 1 <==> bit
  {
  }

  lemma HalvesCombine(a: nat, b: nat)
    ensures BitAnd(a, b) / 2 == BitAnd(a / 2, b / 2)
    ensures BitOr(a, b) / 2 == BitOr(a / 2, b / 2)
    ensures BitXor(a, b) / 2 == BitXor(a / 2, b / 2)
  {
  }
}
