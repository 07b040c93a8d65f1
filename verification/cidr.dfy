/** CIDR matching of apps/rgs-server/src/middleware/ip-allow-list.ts on address values: the 32-bit
    shift and mask, and the loop over sixteen bytes, mean that the leading bits agree (section 3.1
    of RFC 4632). */
module Cidr {
  import opened IntFacts
  import opened Bits

  /** The two addresses agree on their first bits, out of width. */
  predicate SamePrefix(a: nat, b: nat, width: nat, bits: nat)
    requires bits <= width
  {
    Drop(a, width - bits) == Drop(b, width - bits)
  }

  /** In numbers: the addresses are equal after integer division by 2^(width - bits). */
  lemma SamePrefixIsDivision(a: nat, b: nat, width: nat, bits: nat)
    requires bits <= width
    ensures SamePrefix(a, b, width, bits) <==> a / Pow2(width - bits) == b / Pow2(width - bits)
  {
    DropIsDivision(a, width - bits);
    DropIsDivision(b, width - bits);
  }

  /** Agreement on a longer prefix implies agreement on every shorter one. */
  lemma LongerPrefixImpliesShorter(a: nat, b: nat, width: nat, longer: nat, shorter: nat)
    requires shorter <= longer <= width && SamePrefix(a, b, width, longer)
    ensures SamePrefix(a, b, width, shorter)
  {
    DropInSteps(a, width - longer, longer - shorter);
    DropInSteps(b, width - longer, longer - shorter);
  }

  /** The full prefix is equality, and the empty one always agrees. */
  lemma PrefixExtremes(a: nat, b: nat, width: nat)
    requires a < Pow2(width) && b < Pow2(width)
    ensures SamePrefix(a, b, width, width) <==> a == b
    ensures SamePrefix(a, b, width, 0)
  {
    DropAll(a, width);
    DropAll(b, width);
  }

  // ----- IPv4 -----

  /** The mask code: (~0 << (32 - bits)) >>> 0, where a shift by 32 would be a shift by 0. */
  predicate MasksAgree(a: nat, b: nat, bits: nat)
    requires bits <= 32
  {
    if bits == 0 then true
    else
      var mask := ShiftLeft32(TWO32 - 1, 32 - bits);
      BitAnd(a, mask) == BitAnd(b, mask)
  }

  lemma MaskIsHighMask(bits: nat)
    requires 1 <= bits <= 32
    ensures ShiftLeft32(TWO32 - 1, 32 - bits) == HighMask(32 - bits, 32)
  {
    Pow2Of32();
    Pow2Sum(32 - bits, bits);
    ShiftByCount(TWO32 - 1, 32 - bits);
    ShiftedOnes(Pow2(32 - bits), Pow2(bits), TWO32);
  }

  lemma ShiftByCount(a: nat, count: nat)
    requires count < 32
    ensures ShiftLeft32(a, count) == Truncate32(a * Pow2(count))
  {
    assert count % 32 == count;
  }

  lemma ShiftedOnes(p: nat, q: nat, n: nat)
    requires p > 0 && q > 0 && p * q == n
    ensures (n - 1) * p % n == n - p
  {
    TimesAtLeastOne(q, p);
    assert (n - 1) * p == (p - 1) * n + (n - p);
    QuotientUnique((n - 1) * p, n, p - 1, n - p);
  }

  /** The shift-and-mask test is prefix agreement, for every prefix length. */
  lemma MasksAgreeIff(a: nat, b: nat, bits: nat)
    requires a < TWO32 && b < TWO32 && bits <= 32
    ensures MasksAgree(a, b, bits) <==> SamePrefix(a, b, 32, bits)
  {
    Pow2Of32();
    if bits == 0 {
      PrefixExtremes(a, b, 32);
    } else {
      MaskIsHighMask(bits);
      MaskedEqualIff(a, b, 32 - bits, 32);
    }
  }

  // ----- IPv6 -----

  /** The number a run of bytes denotes, most significant byte first. */
  function BigEndian(bytes: seq<Byte>): nat {
    if bytes == [] then 0 else 256 * BigEndian(bytes[..|bytes| - 1]) + bytes[|bytes| - 1]
  }

  lemma Pow2Byte(n: nat)
    ensures Pow2(8 * (n + 1)) == 256 * Pow2(8 * n)
  {
    Pow2Of32();
    Pow2Sum(8, 8 * n);
  }

  lemma {:induction false} BigEndianBound(bytes: seq<Byte>)
    ensures BigEndian(bytes) < Pow2(8 * |bytes|)
  {
    if bytes != [] {
      var n := |bytes| - 1;
      BigEndianBound(bytes[..n]);
      Pow2Byte(n);
    }
  }

  /** Dropping whole bytes drops their bits. */
  lemma {:induction false} LeadingBytes(bytes: seq<Byte>, k: nat)
    requires k <= |bytes|
    ensures Drop(BigEndian(bytes), 8 * k) == BigEndian(bytes[..|bytes| - k])
  {
    if k == 0 {
      assert bytes[..|bytes|] == bytes;
    } else {
      var front := bytes[..|bytes| - 1];
      hide BigEndian, Drop, Pow2;
      DropLastByte(bytes);
      DropInSteps(BigEndian(bytes), 8, 8 * (k - 1));
      LeadingBytes(front, k - 1);
      assert front[..|front| - (k - 1)] == bytes[..|bytes| - k];
    }
  }

  lemma DropLastByte(bytes: seq<Byte>)
    requires bytes != []
    ensures Drop(BigEndian(bytes), 8) == BigEndian(bytes[..|bytes| - 1])
  {
    var front, last := bytes[..|bytes| - 1], bytes[|bytes| - 1];
    assert BigEndian(bytes) == 256 * BigEndian(front) + last;
    Pow2Of32();
    assert Pow2(0) == 1;
    hide BigEndian, Drop, Pow2;
    DropSum(BigEndian(front), last, 8, 8);
    DropAll(last, 8);
  }

  /** With equal bytes before it, only byte i decides a prefix that ends inside it. */
  lemma ByteDecides(a: seq<Byte>, b: seq<Byte>, i: nat, r: nat)
    requires |a| == |b| == 16 && i < 16 && r <= 8 && a[..i] == b[..i]
    ensures SamePrefix(BigEndian(a), BigEndian(b), 128, 8 * i + r) <==> Drop(a[i], 8 - r) == Drop(b[i], 8 - r)
  {
    PrefixOfBytes(a, i, r);
    PrefixOfBytes(b, i, r);
  }

  /** A prefix of 8 i + r bits keeps i bytes and the r high bits of the next one. */
  lemma PrefixOfBytes(bytes: seq<Byte>, i: nat, r: nat)
    requires |bytes| == 16 && i < 16 && r <= 8
    ensures Drop(BigEndian(bytes), 128 - (8 * i + r)) == BigEndian(bytes[..i]) * Pow2(r) + Drop(bytes[i], 8 - r)
  {
    LeadingBytes(bytes, 15 - i);
    assert bytes[..i + 1][..i] == bytes[..i];
    assert BigEndian(bytes[..i + 1]) == 256 * BigEndian(bytes[..i]) + bytes[i];
    hide BigEndian, Drop, Pow2;
    DropPartOfByte(BigEndian(bytes), BigEndian(bytes[..i]), bytes[i], i, r);
  }

  lemma DropPartOfByte(b: nat, v: nat, x: Byte, i: nat, r: nat)
    requires i < 16 && r <= 8 && Drop(b, 8 * (15 - i)) == 256 * v + x
    ensures Drop(b, 128 - (8 * i + r)) == v * Pow2(r) + Drop(x, 8 - r)
  {
    hide Drop, Pow2;
    DropInSteps(b, 8 * (15 - i), 8 - r);
    assert 8 * (15 - i) + (8 - r) == 128 - (8 * i + r);
    DropFromLastByte(v, x, r);
  }

  lemma DropFromLastByte(v: nat, x: Byte, r: nat)
    requires r <= 8
    ensures Drop(256 * v + x, 8 - r) == v * Pow2(r) + Drop(x, 8 - r)
  {
    Pow2Of32();
    DropSum(v, x, 8, 8 - r);
  }

  /** (0xff << (8 - r)) & 0xff */
  function ByteMask(r: nat): nat
    requires r < 8
  {
    BitAnd(ShiftLeft32(0xff, 8 - r), 0xff)
  }

  lemma ByteMaskAgrees(x: Byte, y: Byte, r: nat)
    requires 0 < r < 8
    ensures BitAnd(x, ByteMask(r)) == BitAnd(y, ByteMask(r)) <==> Drop(x, 8 - r) == Drop(y, 8 - r)
  {
    Pow2Of32();
    hide ByteMask, BitAnd, Drop, Pow2;
    ByteMaskIsHighMask(r);
    MaskedEqualIff(x, y, 8 - r, 8);
  }

  lemma ByteMaskIsHighMask(r: nat)
    requires 0 < r < 8
    ensures ByteMask(r) == HighMask(8 - r, 8)
  {
    Pow2Of32();
    Pow2Sum(8 - r, r);
    hide BitAnd, ShiftLeft32, Pow2, HighMask;
    MaskFromPower(8 - r, Pow2(8 - r), Pow2(r));
  }

  lemma MaskFromPower(s: nat, p: nat, q: nat)
    requires s <= 8 && p == Pow2(s) && q > 0 && p * q == 256 && Pow2(8) == 256
    ensures BitAnd(ShiftLeft32(0xff, s), 0xff) == HighMask(s, 8)
  {
    hide BitAnd, ShiftLeft32, Pow2;
    ShiftedByte(s, p, q);
    LowByte(p - 1, 256 - p);
  }

  lemma ShiftedByte(s: nat, p: nat, q: nat)
    requires s < 32 && p == Pow2(s) && q > 0 && p * q == 256
    ensures p <= 256 && ShiftLeft32(0xff, s) == (p - 1) * 256 + (256 - p)
  {
    TimesAtLeastOne(q, p);
    NoOverflow(s, p);
  }

  lemma NoOverflow(s: nat, p: nat)
    requires s < 32 && p == Pow2(s) && p <= 256
    ensures ShiftLeft32(0xff, s) == 0xff * p
  {
    hide ShiftLeft32, Pow2, Truncate32;
    ShiftByCount(0xff, s);
    TruncateSmall(0xff * p);
  }

  lemma TruncateSmall(n: nat)
    requires n < TWO32
    ensures Truncate32(n) == n
  {
  }

  lemma LowByte(hi: nat, lo: nat)
    requires lo < 256
    ensures BitAnd(hi * 256 + lo, 0xff) == lo
  {
    AndLowBits(hi, lo, 8);
    Pow2Of32();
  }

  lemma {:induction false} AndLowBits(hi: nat, lo: nat, n: nat)
    requires lo < Pow2(n)
    ensures BitAnd(hi * Pow2(n) + lo, Pow2(n) - 1) == lo
  {
    if n > 0 {
      var p := Pow2(n - 1);
      assert hi * Pow2(n) == 2 * (hi * p);
      AndLowBits(hi, lo / 2, n - 1);
    }
  }

  lemma WholeByte(a: seq<Byte>, b: seq<Byte>, i: nat, bits: nat)
    requires |a| == |b| == 16 && i < 16 && a[..i] == b[..i] && 8 * i + 8 <= bits <= 128
    ensures a[i] != b[i] ==> !SamePrefix(BigEndian(a), BigEndian(b), 128, bits)
    ensures a[i] == b[i] && bits == 8 * i + 8 ==> SamePrefix(BigEndian(a), BigEndian(b), 128, bits)
    ensures a[i] == b[i] ==> a[..i + 1] == b[..i + 1]
  {
    ByteDecides(a, b, i, 8);
    if a[i] != b[i] && SamePrefix(BigEndian(a), BigEndian(b), 128, bits) {
      LongerPrefixImpliesShorter(BigEndian(a), BigEndian(b), 128, bits, 8 * i + 8);
    }
    assert a[..i + 1] == a[..i] + [a[i]] && b[..i + 1] == b[..i] + [b[i]];
  }

  lemma NoBits(a: seq<Byte>, b: seq<Byte>)
    requires |a| == |b| == 16
    ensures SamePrefix(BigEndian(a), BigEndian(b), 128, 0)
  {
    BigEndianBound(a);
    BigEndianBound(b);
    PrefixExtremes(BigEndian(a), BigEndian(b), 128);
  }

  /** The byte loop is prefix agreement, for every prefix length. */
  method MatchBytes(a: seq<Byte>, b: seq<Byte>, bits: nat) returns (ok: bool)
    requires |a| == |b| == 16 && bits <= 128
    ensures ok <==> SamePrefix(BigEndian(a), BigEndian(b), 128, bits)
  {
    NoBits(a, b);
    var remaining := bits;
    var i := 0;
    while i < 16 && remaining > 0
      invariant 0 <= i <= 16 && 0 <= remaining
      invariant remaining > 0 ==> remaining == bits - 8 * i && a[..i] == b[..i]
      invariant remaining == 0 ==> SamePrefix(BigEndian(a), BigEndian(b), 128, bits)
      decreases 16 - i
    {
      if remaining >= 8 {
        WholeByte(a, b, i, bits);
        if a[i] != b[i] {
          return false;
        }
        remaining := remaining - 8;
      } else {
        ByteDecides(a, b, i, remaining);
        ByteMaskAgrees(a[i], b[i], remaining);
        var mask := ByteMask(remaining);
        if BitAnd(a[i], mask) != BitAnd(b[i], mask) {
          return false;
        }
        remaining := 0;
      }
      i := i + 1;
    }
    return true;
  }

  lemma {:induction false} BigEndianIsInjective(a: seq<Byte>, b: seq<Byte>)
    requires |a| == |b|
    ensures BigEndian(a) == BigEndian(b) <==> a == b
  {
    if a != [] && BigEndian(a) == BigEndian(b) {
      BigEndianIsInjective(a[..|a| - 1], b[..|b| - 1]);
      assert a == a[..|a| - 1] + [a[|a| - 1]] && b == b[..|b| - 1] + [b[|b| - 1]];
    }
  }
}
