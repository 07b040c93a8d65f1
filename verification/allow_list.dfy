/** Patterns of the IP allow-list (apps/rgs-server/src/middleware/ip-allow-list.ts): exact texts and
    CIDR ranges, with the IPv4-mapped form folded into IPv4. Case folding is ASCII. */
module AllowList {
  import opened Wrappers
  import opened Text
  import opened Hexadecimal
  import opened Numerals
  import opened Bits
  import opened Cidr
  import opened Ipv4Text
  import opened Ipv6Text

  /** The quad of /^::ffff:(\d{1,3}(?:\.\d{1,3}){3})$/. */
  function MappedQuad(ip: string): Option<string> {
    if |ip| < 7 || ip[..7] != "::ffff:" then None
    else
      var parts := Split(ip[7..], '.');
      if |parts| == 4 && forall i :: 0 <= i < 4 ==> 1 <= |parts[i]| <= 3 && AllDigits(parts[i])
      then Some(ip[7..]) else None
  }

  function LowerCase(s: string): string {
    seq(|s|, i requires 0 <= i < |s| => if 'A' <= s[i] <= 'Z' then (s[i] as int + 32) as char else s[i])
  }

  function Normalise(ip: string): string {
    match MappedQuad(ip)
    case Some(quad) => quad
    case None => LowerCase(ip)
  }

  predicate MatchCidr(clientIp: string, cidr: string) {
    var parts := Split(cidr, '/');
    if parts[0] == "" || |parts| < 2 || parts[1] == "" then false
    else
      var bits := ParseInt(parts[1], false);
      if bits.None? || bits.value < 0 then false
      else if ':' in parts[0] then MatchCidrIPv6(clientIp, parts[0], bits.value)
      else MatchCidrIPv4(clientIp, parts[0], bits.value)
  }

  predicate MatchIp(clientIp: string, pattern: string) {
    if '/' !in pattern then Normalise(clientIp) == Normalise(pattern)
    else MatchCidr(Normalise(clientIp), pattern)
  }

  /** A pattern with a slash: both halves must be there, the second must read as a number that is not
      negative, and the matcher of the first half's family decides; a further slash and what follows it is
      ignored. Every other pattern with a slash matches nobody. */
  lemma CidrPatternIff(clientIp: string, range: string, bitsText: string, more: string)
    requires '/' !in range && '/' !in bitsText && (more == "" || more[0] == '/')
    ensures MatchCidr(clientIp, range + "/" + (bitsText + more)) <==>
            var bits := ParseInt(bitsText, false);
            range != "" && bitsText != "" && bits.Some? && bits.value >= 0 &&
            if ':' in range then MatchCidrIPv6(clientIp, range, bits.value)
            else MatchCidrIPv4(clientIp, range, bits.value)
  {
    hide MatchCidrIPv6, MatchCidrIPv4, ParseInt;
    SplitPrefix(range, bitsText + more, '/');
    SplitPrefix(bitsText, if more == "" then "" else more[1..], '/');
    assert more != "" ==> bitsText + more == bitsText + ['/'] + more[1..];
    assert more == "" ==> bitsText + more == bitsText;
    assert range + "/" + (bitsText + more) == range + ['/'] + (bitsText + more);
    hide Split;
  }

  /** A well-formed CIDR pattern hands its two halves to the matcher of its address family. */
  lemma PatternHalves(clientIp: string, range: string, bits: nat)
    requires range != "" && '/' !in range
    ensures MatchCidr(clientIp, range + "/" + DecText(bits)) ==
            if ':' in range then MatchCidrIPv6(clientIp, range, bits) else MatchCidrIPv4(clientIp, range, bits)
  {
    hide MatchCidr, MatchCidrIPv6, MatchCidrIPv4, ParseInt;
    BitsRead(bits);
    CidrPatternIff(clientIp, range, DecText(bits), "");
    assert DecText(bits) + "" == DecText(bits);
  }

  lemma BitsRead(bits: nat)
    ensures ParseInt(DecText(bits), false) == Some(bits as int)
  {
    DigitRunOfDigits(DecText(bits), false);
    ValueOfDecText(bits);
  }

  lemma DottedShape(o: seq<Byte>)
    requires |o| == 4
    ensures Dotted(o) != "" && '/' !in Dotted(o) && ':' !in Dotted(o)
    ensures Split(Dotted(o), '.') == [DecText(o[0]), DecText(o[1]), DecText(o[2]), DecText(o[3])]
    ensures forall i :: 0 <= i < 4 ==> 1 <= |DecText(o[i])| <= 3
    ensures LowerCase(Dotted(o)) == Dotted(o)
  {
    var parts := [DecText(o[0]), DecText(o[1]), DecText(o[2]), DecText(o[3])];
    SplitOfJoin(parts, '.');
    assert Pow10(3) == 1000;
    forall i | 0 <= i < 4
      ensures |DecText(o[i])| <= 3
    {
      DecTextLength(o[i], 3);
    }
    JoinedDigits(parts);
    NoCapitals(Dotted(o));
  }

  lemma NoCapitals(s: string)
    requires forall c :: c in s ==> !('A' <= c <= 'Z')
    ensures LowerCase(s) == s
  {
    assert forall i :: 0 <= i < |s| ==> s[i] in s;
  }

  lemma {:induction false} JoinedDigits(parts: seq<string>)
    requires |parts| >= 1 && forall i :: 0 <= i < |parts| ==> parts[i] != "" && AllDigits(parts[i])
    ensures Join(parts, '.') != "" && forall c :: c in Join(parts, '.') ==> IsDigit(c) || c == '.'
  {
    if |parts| > 1 {
      JoinedDigits(parts[1..]);
    }
  }

  /** For every two IPv4 addresses and every prefix length, the textual pattern matches -- from a plain
      or an IPv4-mapped client address -- exactly when the length is at most 32 and the addresses agree
      on that many leading bits. */
  lemma Ipv4PatternMeansPrefix(client: seq<Byte>, range: seq<Byte>, bits: nat)
    requires |client| == |range| == 4
    ensures var pattern := Dotted(range) + "/" + DecText(bits);
            var agree := bits <= 32 && SamePrefix(BigEndian(client), BigEndian(range), 32, bits);
            MatchIp(Dotted(client), pattern) == agree && MatchIp("::ffff:" + Dotted(client), pattern) == agree
  {
    hide Ipv4ToInt, Dotted, MatchCidr, MatchCidrIPv4, SamePrefix;
    DottedShape(client);
    DottedShape(range);
    NormaliseDotted(client);
    PatternHalves(Dotted(client), Dotted(range), bits);
    assert '/' in Dotted(range) + "/" + DecText(bits);
    MatchCidrIPv4Iff(Dotted(client), Dotted(range), bits);
    DottedReadsBack(client);
    DottedReadsBack(range);
  }

  lemma NormaliseDotted(o: seq<Byte>)
    requires |o| == 4
    ensures Normalise(Dotted(o)) == Dotted(o) && Normalise("::ffff:" + Dotted(o)) == Dotted(o)
  {
    hide Dotted, Split;
    DottedShape(o);
    var mapped := "::ffff:" + Dotted(o);
    assert mapped[..7] == "::ffff:" && mapped[7..] == Dotted(o);
    assert |Dotted(o)| > 0 && Dotted(o)[0] != ':';
  }

  /** A text of the address with these eight groups: the full form, or the form in which '::' stands for
      a non-empty run of zero groups. */
  ghost predicate Spells(text: string, groups: seq<string>)
    requires |groups| == 8
  {
    || text == FullForm(groups)
    || exists lo: nat, hi: nat :: IsZeroRun(groups, lo, hi) && text == CompressedForm(groups, lo, hi)
  }

  predicate IsZeroRun(groups: seq<string>, lo: nat, hi: nat) {
    lo < hi <= |groups| && forall i :: lo <= i < hi ==> GroupValue(groups[i]) == Some(0)
  }

  /** For every two IPv6 addresses, each in full or in any compressed form, in either letter case, and
      every prefix length, the textual pattern matches exactly when the length is at most 128 and the
      addresses agree on that many leading bits. */
  lemma Ipv6PatternMeansPrefix(clientText: string, client: seq<string>, rangeText: string, range: seq<string>,
                               bits: nat)
    requires |client| == |range| == 8 && AreGroups(client) && AreGroups(range)
    requires Spells(clientText, client) && Spells(rangeText, range)
    ensures var a, b := Ipv6ToBytes(FullForm(client)), Ipv6ToBytes(FullForm(range));
            a.Some? && b.Some? &&
            (MatchIp(clientText, rangeText + "/" + DecText(bits)) <==>
             bits <= 128 && SamePrefix(BigEndian(a.value), BigEndian(b.value), 128, bits))
  {
    hide Ipv6ToBytes, FullForm, MatchCidr, SamePrefix, Spells, LowerCase, Normalise;
    FullFormReads(client);
    FullFormReads(range);
    TextIsNormalised(clientText, client);
    LowerTextReads(clientText, client);
    TextReads(rangeText, range);
    TextCharacters(rangeText, range);
    PatternHalves(LowerCase(clientText), rangeText, bits);
    assert '/' in rangeText + "/" + DecText(bits);
  }

  lemma TextReads(text: string, groups: seq<string>)
    requires |groups| == 8 && AreGroups(groups) && Spells(text, groups)
    ensures Ipv6ToBytes(text) == Ipv6ToBytes(FullForm(groups))
  {
    hide Ipv6ToBytes, FullForm, CompressedForm, GroupValue;
    if text != FullForm(groups) {
      var lo: nat, hi: nat :| IsZeroRun(groups, lo, hi) && text == CompressedForm(groups, lo, hi);
      ExpanderUndoesCompression(groups, lo, hi);
    }
  }

  // ----- Letter case -----

  function LowerGroups(groups: seq<string>): (r: seq<string>)
    ensures |r| == |groups|
  {
    seq(|groups|, i requires 0 <= i < |groups| => LowerCase(groups[i]))
  }

  lemma LowerConcat(a: string, b: string)
    ensures LowerCase(a + b) == LowerCase(a) + LowerCase(b)
  {
  }

  lemma {:induction false} LowerJoin(groups: seq<string>)
    ensures LowerCase(Join(groups, ':')) == Join(LowerGroups(groups), ':')
  {
    if |groups| > 1 {
      var rest := Join(groups[1..], ':');
      LowerJoin(groups[1..]);
      assert LowerGroups(groups)[1..] == LowerGroups(groups[1..]);
      LowerConcat(groups[0] + [':'], rest);
      LowerConcat(groups[0], [':']);
      hide LowerCase;
      assert LowerCase([':']) == [':'] by { NoCapitals([':']); }
      assert Join(LowerGroups(groups), ':') == LowerCase(groups[0]) + [':'] + Join(LowerGroups(groups[1..]), ':');
    }
  }

  lemma {:induction false} LowerHexValue(s: string)
    requires IsHex(s)
    ensures IsHex(LowerCase(s)) && HexValue(LowerCase(s)) == HexValue(s)
  {
    if s != "" {
      var front := s[..|s| - 1];
      LowerHexValue(front);
      assert LowerCase(s)[..|s| - 1] == LowerCase(front);
    }
  }

  lemma LowerGroup(g: string)
    requires IsGroup(g)
    ensures IsGroup(LowerCase(g)) && GroupValue(LowerCase(g)) == GroupValue(g)
  {
    LowerHexValue(g);
    GroupReads(g);
    GroupReads(LowerCase(g));
  }

  /** The lowercase text of an address is a text of the same address. */
  lemma LowerTextReads(text: string, groups: seq<string>)
    requires |groups| == 8 && AreGroups(groups) && Spells(text, groups)
    ensures Ipv6ToBytes(LowerCase(text)) == Ipv6ToBytes(FullForm(groups))
  {
    hide LowerCase, GroupValue, Ipv6ToBytes, IsGroup;
    var lower := LowerGroups(groups);
    forall i | 0 <= i < 8
      ensures IsGroup(lower[i]) && GroupValue(lower[i]) == GroupValue(groups[i])
    {
      LowerGroup(groups[i]);
    }
    if text == FullForm(groups) {
      LowerJoin(groups);
    } else {
      var lo: nat, hi: nat :| IsZeroRun(groups, lo, hi) && text == CompressedForm(groups, lo, hi);
      LowerCompressed(groups, lo, hi);
      assert IsZeroRun(lower, lo, hi);
    }
    TextReads(LowerCase(text), lower);
    SameValuesReadAlike(lower, groups);
  }

  lemma LowerCompressed(groups: seq<string>, lo: nat, hi: nat)
    requires lo <= hi <= |groups|
    ensures LowerCase(CompressedForm(groups, lo, hi)) == CompressedForm(LowerGroups(groups), lo, hi)
  {
    var left, right := Join(groups[..lo], ':'), Join(groups[hi..], ':');
    LowerConcat(left + "::", right);
    LowerConcat(left, "::");
    NoCapitals("::");
    LowerJoin(groups[..lo]);
    LowerJoin(groups[hi..]);
    assert LowerGroups(groups)[..lo] == LowerGroups(groups[..lo]);
    assert LowerGroups(groups)[hi..] == LowerGroups(groups[hi..]);
  }

  lemma SameValuesReadAlike(g: seq<string>, h: seq<string>)
    requires |g| == |h| == 8 && AreGroups(g) && AreGroups(h)
    requires forall i :: 0 <= i < 8 ==> GroupValue(g[i]) == GroupValue(h[i])
    ensures Ipv6ToBytes(FullForm(g)) == Ipv6ToBytes(FullForm(h))
  {
    hide GroupValue, FullForm, BytesOfGroups, GroupsOf;
    GroupsOfFull(g);
    GroupsOfFull(h);
    BytesDependOnValues(g, h);
  }

  // ----- The characters of an address text -----

  predicate IsAddressCharacter(c: char) {
    c == ':' || IsHexDigit(c)
  }

  lemma {:induction false} JoinedCharacters(groups: seq<string>)
    requires AreGroups(groups)
    ensures forall c :: c in Join(groups, ':') ==> IsAddressCharacter(c)
    ensures |groups| >= 2 ==> ':' in Join(groups, ':')
  {
    if |groups| >= 2 {
      JoinedCharacters(groups[1..]);
    }
  }

  lemma TextCharacters(text: string, groups: seq<string>)
    requires |groups| == 8 && AreGroups(groups) && Spells(text, groups)
    ensures text != "" && ':' in text && forall c :: c in text ==> IsAddressCharacter(c)
  {
    hide GroupValue, IsAddressCharacter, Join;
    JoinedCharacters(groups);
    if text != FullForm(groups) {
      var lo: nat, hi: nat :| IsZeroRun(groups, lo, hi) && text == CompressedForm(groups, lo, hi);
      JoinedCharacters(groups[..lo]);
      JoinedCharacters(groups[hi..]);
      assert IsAddressCharacter(':');
    }
  }

  /** Without a dot no text is taken for an IPv4-mapped one, '::ffff:' prefix or not. */
  lemma TextIsNormalised(text: string, groups: seq<string>)
    requires |groups| == 8 && AreGroups(groups) && Spells(text, groups)
    ensures Normalise(text) == LowerCase(text)
  {
    TextCharacters(text, groups);
    hide Spells, LowerCase;
    assert '.' !in text;
    if |text| >= 7 {
      SplitPrefix(text[7..], "", '.');
    }
  }

  // ----- Across families, and without a slash -----

  lemma DottedIsNoIpv6(o: seq<Byte>)
    requires |o| == 4
    ensures Ipv6ToBytes(Dotted(o)).None?
  {
    DottedShape(o);
    hide Dotted, BytesOfGroups;
    SplitDoubleFree(Dotted(o));
    SplitPrefix(Dotted(o), "", ':');
  }

  lemma AddressTextIsNoIpv4(text: string)
    requires forall c :: c in text ==> IsAddressCharacter(c)
    ensures Ipv4ToInt(text).None?
  {
    hide OctetsValue;
    assert '.' !in text;
    SplitPrefix(text, "", '.');
  }

  /** The two families never match each other, whatever the length: an IPv4 client, plain or mapped, is
      refused by every IPv6 pattern, "::/0" included, and an IPv6 client by every IPv4 pattern. */
  lemma FamiliesNeverMatch(v4: seq<Byte>, v6Text: string, v6: seq<string>, bits: nat)
    requires |v4| == 4 && |v6| == 8 && AreGroups(v6) && Spells(v6Text, v6)
    ensures !MatchIp(Dotted(v4), v6Text + "/" + DecText(bits))
    ensures !MatchIp("::ffff:" + Dotted(v4), v6Text + "/" + DecText(bits))
    ensures !MatchIp(v6Text, Dotted(v4) + "/" + DecText(bits))
  {
    DottedShape(v4);
    NormaliseDotted(v4);
    DottedIsNoIpv6(v4);
    TextCharacters(v6Text, v6);
    TextIsNormalised(v6Text, v6);
    LowerCharacters(v6Text);
    AddressTextIsNoIpv4(LowerCase(v6Text));
    hide Dotted, Spells, MatchCidr, Ipv4ToInt, Ipv6ToBytes, Normalise, LowerCase;
    assert '/' !in v6Text;
    PatternHalves(Dotted(v4), v6Text, bits);
    PatternHalves(LowerCase(v6Text), Dotted(v4), bits);
    assert '/' in v6Text + "/" + DecText(bits) && '/' in Dotted(v4) + "/" + DecText(bits);
  }

  lemma LowerCharacters(s: string)
    requires forall c :: c in s ==> IsAddressCharacter(c)
    ensures forall c :: c in LowerCase(s) ==> IsAddressCharacter(c)
  {
    forall c | c in LowerCase(s)
      ensures IsAddressCharacter(c)
    {
      var i :| 0 <= i < |s| && LowerCase(s)[i] == c;
      assert s[i] in s;
    }
  }

  predicate IsQuad(parts: seq<string>) {
    |parts| == 4 && forall i :: 0 <= i < 4 ==> 1 <= |parts[i]| <= 3 && AllDigits(parts[i])
  }

  /** The IPv4-mapped form is recognised exactly where four runs of one to three digits follow '::ffff:'. */
  lemma MappedIff(ip: string, quad: string)
    ensures MappedQuad(ip) == Some(quad)
       <==> ip == "::ffff:" + quad && exists parts :: IsQuad(parts) && Join(parts, '.') == quad
  {
    if ip == "::ffff:" + quad {
      assert ip[..7] == "::ffff:" && ip[7..] == quad;
      if parts :| IsQuad(parts) && Join(parts, '.') == quad {
        SplitOfJoin(parts, '.');
      }
    }
    if MappedQuad(ip) == Some(quad) {
      JoinOfSplit(quad, '.');
      hide Join;
      assert ip == ip[..7] + ip[7..];
      assert IsQuad(Split(quad, '.'));
    }
  }

  predicate SpellsIpv4(text: string, o: seq<Byte>)
    requires |o| == 4
  {
    text == Dotted(o) || text == "::ffff:" + Dotted(o)
  }

  lemma Ipv4TextIsNormalised(text: string, o: seq<Byte>)
    requires |o| == 4 && SpellsIpv4(text, o)
    ensures Normalise(text) == Dotted(o) && '/' !in text
  {
    hide Dotted, Normalise;
    DottedShape(o);
    NormaliseDotted(o);
  }

  /** The exact IPv4 entry: client and pattern, each plain or IPv4-mapped, match iff they are the same address. */
  lemma ExactIpv4PatternIff(clientText: string, client: seq<Byte>, pattern: string, entry: seq<Byte>)
    requires |client| == |entry| == 4 && SpellsIpv4(clientText, client) && SpellsIpv4(pattern, entry)
    ensures MatchIp(clientText, pattern) <==> client == entry
  {
    Ipv4TextIsNormalised(clientText, client);
    Ipv4TextIsNormalised(pattern, entry);
    hide Dotted, SpellsIpv4, Normalise, Ipv4ToInt;
    DottedReadsBack(client);
    DottedReadsBack(entry);
    BigEndianIsInjective(client, entry);
  }

  /** Equal but for the case of ASCII letters. */
  predicate EqualUpToCase(a: string, b: string) {
    |a| == |b| && forall i :: 0 <= i < |a| ==> SameLetter(a[i], b[i])
  }

  predicate SameLetter(c: char, d: char) {
    || c == d
    || ('A' <= c <= 'Z' && d as int == c as int + 32)
    || ('A' <= d <= 'Z' && c as int == d as int + 32)
  }

  lemma LowerCaseIff(a: string, b: string)
    ensures LowerCase(a) == LowerCase(b) <==> EqualUpToCase(a, b)
  {
    var x, y := LowerCase(a), LowerCase(b);
    if |a| == |b| {
      assert forall i :: 0 <= i < |a| ==> (x[i] == y[i] <==> SameLetter(a[i], b[i]));
    }
  }

  /** A pattern without a slash compares texts: two IPv6 texts match iff they are the same up to letter
      case, so one address in two spellings does not match. */
  lemma ExactIpv6PatternIff(clientText: string, client: seq<string>, pattern: string, groups: seq<string>)
    requires |client| == |groups| == 8 && AreGroups(client) && AreGroups(groups)
    requires Spells(clientText, client) && Spells(pattern, groups)
    ensures MatchIp(clientText, pattern) <==> EqualUpToCase(clientText, pattern)
  {
    TextIsNormalised(clientText, client);
    TextIsNormalised(pattern, groups);
    TextCharacters(pattern, groups);
    LowerCaseIff(clientText, pattern);
    hide Spells, LowerCase, Normalise, EqualUpToCase;
    assert '/' !in pattern;
  }

  /** Exact entries never match across families either. */
  lemma ExactFamiliesNeverMatch(v4Text: string, v4: seq<Byte>, v6Text: string, v6: seq<string>)
    requires |v4| == 4 && SpellsIpv4(v4Text, v4) && |v6| == 8 && AreGroups(v6) && Spells(v6Text, v6)
    ensures !MatchIp(v4Text, v6Text) && !MatchIp(v6Text, v4Text)
  {
    Ipv4TextIsNormalised(v4Text, v4);
    DottedShape(v4);
    TextIsNormalised(v6Text, v6);
    TextCharacters(v6Text, v6);
    LowerKeepsColon(v6Text);
    hide Spells, SpellsIpv4, LowerCase, Normalise, Dotted;
    assert '/' !in v6Text;
  }

  lemma LowerKeepsColon(s: string)
    requires ':' in s
    ensures ':' in LowerCase(s)
  {
    var i :| 0 <= i < |s| && s[i] == ':';
    assert LowerCase(s)[i] == ':';
  }

  // ----- The code's own path, loops included -----

  method MatchIpLoop(clientIp: string, pattern: string) returns (ok: bool)
    ensures ok == MatchIp(clientIp, pattern)
  {
    if '/' !in pattern {
      return Normalise(clientIp) == Normalise(pattern);
    }
    var parts := Split(pattern, '/');
    if parts[0] == "" || |parts| < 2 || parts[1] == "" {
      return false;
    }
    var bits := ParseInt(parts[1], false);
    if bits.None? || bits.value < 0 {
      return false;
    }
    if ':' in parts[0] {
      ok := MatchCidrIPv6Loop(Normalise(clientIp), parts[0], bits.value);
    } else if bits.value > 32 {
      ok := false;
    } else {
      var a := Ipv4ToIntLoop(Normalise(clientIp));
      var b := Ipv4ToIntLoop(parts[0]);
      ok := a.Some? && b.Some? && MasksAgree(a.value, b.value, bits.value);
    }
  }
}
