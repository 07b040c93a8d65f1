/** Dotted quads of the IP allow-list (apps/rgs-server/src/middleware/ip-allow-list.ts). */
module Ipv4Text {
  import opened Wrappers
  import opened Text
  import opened Numerals
  import opened Bits
  import opened Cidr

  /** One dotted part: None where the loop returns null. */
  function Octet(part: string): Option<Byte> {
    match ParseInt(part, false)
    case Some(v) => if 0 <= v <= 255 then Some(v) else None
    case None => None
  }

  /** The value of the parts read so far, most significant first; None once a part is malformed. */
  function OctetsValue(parts: seq<string>): Option<nat> {
    if parts == [] then Some(0)
    else
      var before, last := OctetsValue(parts[..|parts| - 1]), Octet(parts[|parts| - 1]);
      if before.None? || last.None? then None else Some(256 * before.value + last.value)
  }

  function Ipv4ToInt(ip: string): Option<nat> {
    var parts := Split(ip, '.');
    if |parts| != 4 then None else OctetsValue(parts)
  }

  lemma {:induction false} OctetsBound(parts: seq<string>)
    ensures OctetsValue(parts).Some? ==> OctetsValue(parts).value < Pow2(8 * |parts|)
  {
    if parts != [] {
      OctetsBound(parts[..|parts| - 1]);
      Pow2Byte(|parts| - 1);
    }
  }

  lemma {:induction false} MalformedPartSpoils(parts: seq<string>, i: nat)
    requires i < |parts| && Octet(parts[i]).None?
    ensures OctetsValue(parts).None?
  {
    if i < |parts| - 1 {
      MalformedPartSpoils(parts[..|parts| - 1], i);
    }
  }

  /** n = (n << 8) | v on 32 bits. */
  lemma ShiftOrIsHorner(n: nat, v: Byte, k: nat)
    requires k < 4 && n < Pow2(8 * k)
    ensures BitOr(ShiftLeft32(n, 8), v) == 256 * n + v
  {
    Pow2Of32();
    Pow2Byte(k);
    Pow2Sum(8 * (k + 1), 32 - 8 * (k + 1));
    assert Pow2(8 * (k + 1)) <= TWO32 by { TimesAtLeastOnePower(Pow2(8 * (k + 1)), Pow2(32 - 8 * (k + 1))); }
    assert ShiftLeft32(n, 8) == n * 256;
    OrIsSum(n, v, 8);
  }

  lemma TimesAtLeastOnePower(p: nat, q: nat)
    requires q >= 1
    ensures p <= p * q
  {
  }

  method Ipv4ToIntLoop(ip: string) returns (r: Option<nat>)
    ensures r == Ipv4ToInt(ip)
  {
    var parts := Split(ip, '.');
    if |parts| != 4 {
      return None;
    }
    hide Octet;
    var n: nat := 0;
    var i := 0;
    while i < |parts|
      invariant 0 <= i <= |parts|
      invariant OctetsValue(parts[..i]) == Some(n)
    {
      var v := Octet(parts[i]);
      if v.None? {
        MalformedPartSpoils(parts, i);
        return None;
      }
      OneMoreOctet(parts, i, n, v.value);
      n := BitOr(ShiftLeft32(n, 8), v.value);
      i := i + 1;
    }
    assert parts[..i] == parts;
    return Some(n);
  }

  lemma OneMoreOctet(parts: seq<string>, i: nat, n: nat, v: Byte)
    requires i < |parts| == 4 && OctetsValue(parts[..i]) == Some(n) && Octet(parts[i]) == Some(v)
    ensures OctetsValue(parts[..i + 1]) == Some(BitOr(ShiftLeft32(n, 8), v))
  {
    hide Octet;
    assert parts[..i + 1][..i] == parts[..i];
    OctetsBound(parts[..i]);
    ShiftOrIsHorner(n, v, i);
  }

  predicate MatchCidrIPv4(ip: string, range: string, bits: nat) {
    if bits > 32 then false
    else
      var a, b := Ipv4ToInt(ip), Ipv4ToInt(range);
      if a.None? || b.None? then false else MasksAgree(a.value, b.value, bits)
  }

  lemma Ipv4Bound(ip: string)
    ensures Ipv4ToInt(ip).Some? ==> Ipv4ToInt(ip).value < TWO32
  {
    Pow2Of32();
    OctetsBound(Split(ip, '.'));
  }

  /** An IPv4 pattern matches iff its length is at most 32, both texts are addresses, and the
      addresses agree on that many leading bits. */
  lemma MatchCidrIPv4Iff(ip: string, range: string, bits: nat)
    ensures MatchCidrIPv4(ip, range, bits) <==>
            bits <= 32 && Ipv4ToInt(ip).Some? && Ipv4ToInt(range).Some? &&
            SamePrefix(Ipv4ToInt(ip).value, Ipv4ToInt(range).value, 32, bits)
  {
    Ipv4Bound(ip);
    Ipv4Bound(range);
    if bits <= 32 && Ipv4ToInt(ip).Some? && Ipv4ToInt(range).Some? {
      MasksAgreeIff(Ipv4ToInt(ip).value, Ipv4ToInt(range).value, bits);
    }
  }

  /** The dotted form of an address. */
  function Dotted(o: seq<Byte>): string
    requires |o| == 4
  {
    Join([DecText(o[0]), DecText(o[1]), DecText(o[2]), DecText(o[3])], '.')
  }

  lemma OctetOfText(b: Byte)
    ensures Octet(DecText(b)) == Some(b)
  {
    DigitRunOfDigits(DecText(b), false);
    ValueOfDecText(b);
  }

  /** Every address reads back from its dotted form. */
  lemma DottedReadsBack(o: seq<Byte>)
    requires |o| == 4
    ensures Ipv4ToInt(Dotted(o)) == Some(BigEndian(o))
  {
    var parts := [DecText(o[0]), DecText(o[1]), DecText(o[2]), DecText(o[3])];
    SplitOfJoin(parts, '.');
    OctetsOfTexts(parts, o);
  }

  lemma {:induction false} OctetsOfTexts(parts: seq<string>, o: seq<Byte>)
    requires |parts| == |o| && forall i :: 0 <= i < |o| ==> parts[i] == DecText(o[i])
    ensures OctetsValue(parts) == Some(BigEndian(o))
  {
    hide Octet;
    if o != [] {
      OctetsOfTexts(parts[..|parts| - 1], o[..|o| - 1]);
      OctetOfText(o[|o| - 1]);
    }
  }

  /** What follows the digits of a part is ignored, and a part out of range spoils the address. */
  lemma OctetReads(digits: string, rest: string)
    requires AllDigits(digits) && digits != "" && (rest == "" || !IsDigit(rest[0]))
    ensures Octet(digits + rest) == if DecValue(digits) <= 255 then Some(DecValue(digits)) else None
  {
    ParseIntReads("", "", digits, rest, false);
    assert "" + ("" + (digits + rest)) == digits + rest;
    hide ParseInt, DecValue;
  }
}
