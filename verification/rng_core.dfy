/** Words read from the HMAC digest (packages/rng-core). The digest itself is an arbitrary string
    of 64 lowercase hex digits; its cryptographic strength is not modelled. */
module RngCore {
  import opened Hexadecimal
  import IntFacts

  predicate IsHmac(s: string) {
    |s| == 64 && IsLowerHex(s)
  }

  /** The 32-bit word that starts at the given hex offset. */
  function Uint32At(hmac: string, offset: nat): (w: nat)
    requires IsHex(hmac) && offset + 8 <= |hmac|
    ensures w < 0x1_0000_0000
  {
    assert Pow16(8) == 0x1_0000_0000;
    HexValue(hmac[offset..offset + 8])
  }

  /** The first 52 bits: 13 hex digits. */
  function Bits52(hmac: string): (w: nat)
    requires IsHex(hmac) && |hmac| >= 13
    ensures w < 0x10_0000_0000_0000
  {
    assert Pow16(13) == 0x10_0000_0000_0000;
    HexValue(hmac[..13])
  }

  /** A word is the part of the digest's number that its place says: the digits behind it divided away, the
      digits before it dropped. */
  lemma WordIsSlice(hmac: string, offset: nat)
    requires IsHmac(hmac) && offset + 8 <= |hmac|
    ensures Uint32At(hmac, offset) == HexValue(hmac) / Pow16(|hmac| - offset - 8) % 0x1_0000_0000
  {
    var front, word, back := hmac[..offset], hmac[offset..offset + 8], hmac[offset + 8..];
    assert hmac == front + word + back;
    ValueOfConcat(front + word, back);
    ValueOfConcat(front, word);
    assert Pow16(8) == 0x1_0000_0000;
    IntFacts.QuotientUnique(HexValue(hmac), Pow16(|back|), HexValue(front + word), HexValue(back));
    IntFacts.QuotientUnique(HexValue(front + word), 0x1_0000_0000, HexValue(front), HexValue(word));
  }

  /** The draw is the number that the first 52 of the 256 bits denote. */
  lemma DrawIsTopBits(hmac: string)
    requires IsHmac(hmac)
    ensures Bits52(hmac) == HexValue(hmac) / Pow16(51)
  {
    assert hmac == hmac[..13] + hmac[13..];
    ValueOfConcat(hmac[..13], hmac[13..]);
    IntFacts.QuotientUnique(HexValue(hmac), Pow16(51), HexValue(hmac[..13]), HexValue(hmac[13..]));
  }
}
