/** The IPv6 expander and byte loop of the IP allow-list (apps/rgs-server/src/middleware/ip-allow-list.ts;
    text forms of section 2.2 of RFC 4291). */
module Ipv6Text {
  import opened Wrappers
  import opened Text
  import opened Hexadecimal
  import opened Numerals
  import opened Bits
  import opened Cidr

  /** ip.split('::'): leftmost separators first. */
  function SplitDouble(s: string): (parts: seq<string>)
    ensures |parts| >= 1
  {
    if |s| < 2 then [s]
    else if s[0] == ':' && s[1] == ':' then [""] + SplitDouble(s[2..])
    else
      var rest := SplitDouble(s[1..]);
      [[s[0]] + rest[0]] + rest[1..]
  }

  function SplitGroups(s: string): seq<string> {
    if s == "" then [] else Split(s, ':')
  }

  /** The eight groups of an address text, with '::' filled up by "0" groups; None if there are not eight. */
  function GroupsOf(ip: string): (r: Option<seq<string>>)
    ensures r.Some? ==> |r.value| == 8
  {
    var parts := SplitDouble(ip);
    if |parts| > 2 then None
    else if |parts| == 2 then Filled(SplitGroups(parts[0]), SplitGroups(parts[1]))
    else
      var left := SplitGroups(parts[0]);
      if |left| != 8 then None else Some(left)
  }

  function Filled(left: seq<string>, right: seq<string>): (r: Option<seq<string>>)
    ensures r.Some? ==> |r.value| == 8
  {
    var groupCount := |left| + |right|;
    if groupCount > 7 then None else Some(left + seq(8 - groupCount, _ => "0") + right)
  }

  /** One group: an empty one reads as 0; None where the loop returns null. */
  function GroupValue(group: string): (r: Option<nat>)
    ensures r.Some? ==> r.value <= 0xffff
  {
    match ParseInt(if group == "" then "0" else group, true)
    case Some(v) => if 0 <= v <= 0xffff then Some(v) else None
    case None => None
  }

  /** An empty group is 0, what follows the digits of a group is ignored, and a group above 0xffff is refused. */
  lemma AnyGroupReads(digits: string, rest: string)
    requires IsHex(digits) && digits != "" && (rest == "" || !IsHexDigit(rest[0]))
    requires !(digits == "0" && rest != "" && (rest[0] == 'x' || rest[0] == 'X'))
    ensures GroupValue("") == Some(0)
    ensures GroupValue(digits + rest) == if HexValue(digits) <= 0xffff then Some(HexValue(digits)) else None
  {
    ZeroGroup();
    ParseIntReads("", "", digits, rest, true);
    assert "" + ("" + (digits + rest)) == digits + rest;
    hide ParseInt, HexValue;
  }

  function BytesOfGroups(groups: seq<string>): (r: Option<seq<Byte>>)
    ensures r.Some? ==> |r.value| == 2 * |groups|
  {
    if groups == [] then Some([])
    else
      var before, last := BytesOfGroups(groups[..|groups| - 1]), GroupValue(groups[|groups| - 1]);
      if before.None? || last.None? then None
      else
        HighByteFits(last.value);
        Some(before.value + [last.value / 256, last.value % 256])
  }

  lemma HighByteFits(v: nat)
    requires v <= 0xffff
    ensures v / 256 < 256
  {
  }

  function Ipv6ToBytes(ip: string): (r: Option<seq<Byte>>)
    ensures r.Some? ==> |r.value| == 16
  {
    match GroupsOf(ip)
    case None => None
    case Some(groups) => BytesOfGroups(groups)
  }

  lemma {:induction false} MalformedGroupSpoils(groups: seq<string>, i: nat)
    requires i < |groups| && GroupValue(groups[i]).None?
    ensures BytesOfGroups(groups).None?
  {
    if i < |groups| - 1 {
      MalformedGroupSpoils(groups[..|groups| - 1], i);
    }
  }

  lemma HighAndLowByte(v: nat)
    requires v <= 0xffff
    ensures BitAnd(v / 256, 0xff) == v / 256 && BitAnd(v, 0xff) == v % 256
  {
    Pow2Of32();
    HighByteFits(v);
    AndAllOnes(v / 256, 8);
    LowByte(v / 256, v % 256);
  }

  lemma OneMoreGroup(groups: seq<string>, i: nat)
    requires i < |groups| && BytesOfGroups(groups[..i]).Some? && GroupValue(groups[i]).Some?
    ensures GroupValue(groups[i]).value / 256 < 256
    ensures var v := GroupValue(groups[i]).value;
            BytesOfGroups(groups[..i + 1])
              == Some(BytesOfGroups(groups[..i]).value + [BitAnd(v / 256, 0xff), BitAnd(v, 0xff)])
    ensures var v := GroupValue(groups[i]).value;
            BitAnd(v / 256, 0xff) < 256 && BitAnd(v, 0xff) < 256
  {
    hide GroupValue;
    assert groups[..i + 1][..i] == groups[..i];
    HighByteFits(GroupValue(groups[i]).value);
    HighAndLowByte(GroupValue(groups[i]).value);
  }

  /** The loop that fills the sixteen bytes. */
  method FillBytes(groups: seq<string>) returns (r: Option<seq<Byte>>)
    requires |groups| == 8
    ensures r == BytesOfGroups(groups)
  {
    hide GroupValue;
    var out := new Byte[16](_ => 0);
    var i := 0;
    while i < 8
      invariant 0 <= i <= 8
      invariant BytesOfGroups(groups[..i]) == Some(out[..2 * i])
    {
      var v := GroupValue(groups[i]);
      if v.None? {
        MalformedGroupSpoils(groups, i);
        return None;
      }
      OneMoreGroup(groups, i);
      out[i * 2] := BitAnd(v.value / 256, 0xff);
      out[i * 2 + 1] := BitAnd(v.value, 0xff);
      assert out[..2 * (i + 1)] == out[..2 * i] + [out[i * 2], out[i * 2 + 1]];
      i := i + 1;
    }
    assert groups[..8] == groups && out[..16] == out[..];
    return Some(out[..]);
  }

  method Ipv6ToBytesLoop(ip: string) returns (r: Option<seq<Byte>>)
    ensures r == Ipv6ToBytes(ip)
  {
    var groups := GroupsOf(ip);
    if groups.None? {
      return None;
    }
    r := FillBytes(groups.value);
  }

  predicate MatchCidrIPv6(ip: string, range: string, bits: nat) {
    bits <= 128 && Ipv6ToBytes(ip).Some? && Ipv6ToBytes(range).Some? &&
    SamePrefix(BigEndian(Ipv6ToBytes(ip).value), BigEndian(Ipv6ToBytes(range).value), 128, bits)
  }

  /** An IPv6 pattern matches iff its length is at most 128, both texts are addresses, and the
      addresses agree on that many leading bits. */
  method MatchCidrIPv6Loop(ip: string, range: string, bits: nat) returns (ok: bool)
    ensures ok == MatchCidrIPv6(ip, range, bits)
  {
    if bits > 128 {
      return false;
    }
    var a := Ipv6ToBytesLoop(ip);
    var b := Ipv6ToBytesLoop(range);
    if a.None? || b.None? {
      return false;
    }
    ok := MatchBytes(a.value, b.value, bits);
  }

  // ----- '::' stands for its run of zero groups -----

  /** One to four hex digits, in either case. */
  predicate IsGroup(g: string) {
    1 <= |g| <= 4 && IsHex(g)
  }

  predicate AreGroups(groups: seq<string>) {
    forall i :: 0 <= i < |groups| ==> IsGroup(groups[i])
  }

  predicate NoAdjacentColons(s: string) {
    forall i :: 0 <= i < |s| - 1 ==> !(s[i] == ':' && s[i + 1] == ':')
  }

  lemma {:induction false} SplitDoubleFree(s: string)
    requires NoAdjacentColons(s)
    ensures SplitDouble(s) == [s]
  {
    if |s| >= 2 {
      SplitDoubleFree(s[1..]);
      assert [s[0]] + s[1..] == s;
    }
  }

  lemma {:induction false} SplitDoubleAt(left: string, right: string)
    requires NoAdjacentColons(left) && (left != "" ==> left[|left| - 1] != ':')
    ensures SplitDouble(left + "::" + right) == [left] + SplitDouble(right)
  {
    var s := left + "::" + right;
    if left == "" {
      assert s[2..] == right;
    } else {
      SplitDoubleAt(left[1..], right);
      assert s[1..] == left[1..] + "::" + right;
      assert [left[0]] + left[1..] == left;
    }
  }

  lemma {:induction false} JoinedGroupsAreSolid(groups: seq<string>)
    requires |groups| >= 1 && AreGroups(groups)
    ensures var s := Join(groups, ':');
            s != "" && s[0] != ':' && s[|s| - 1] != ':' && NoAdjacentColons(s)
  {
    if |groups| > 1 {
      JoinedGroupsAreSolid(groups[1..]);
      assert Join(groups, ':') == groups[0] + [':'] + Join(groups[1..], ':');
    }
  }

  lemma SplitGroupsOfJoin(groups: seq<string>)
    requires AreGroups(groups)
    ensures SplitGroups(Join(groups, ':')) == groups
    ensures NoAdjacentColons(Join(groups, ':'))
    ensures Join(groups, ':') != "" ==> Join(groups, ':')[|Join(groups, ':')| - 1] != ':'
  {
    if groups != [] {
      JoinedGroupsAreSolid(groups);
      SplitOfJoin(groups, ':');
    }
  }

  /** The full form of an address and the form whose groups lo..hi are replaced by '::'. */
  function FullForm(groups: seq<string>): string {
    Join(groups, ':')
  }

  function CompressedForm(groups: seq<string>, lo: nat, hi: nat): string
    requires lo <= hi <= |groups|
  {
    Join(groups[..lo], ':') + "::" + Join(groups[hi..], ':')
  }

  lemma GroupsOfFull(groups: seq<string>)
    requires |groups| == 8 && AreGroups(groups)
    ensures GroupsOf(FullForm(groups)) == Some(groups)
  {
    SplitGroupsOfJoin(groups);
    SplitDoubleFree(FullForm(groups));
  }

  /** Groups on both sides of '::': filled up to eight, or refused where eight or more are there already. */
  lemma GroupsAround(left: seq<string>, right: seq<string>)
    requires AreGroups(left) && AreGroups(right)
    ensures GroupsOf(Join(left, ':') + "::" + Join(right, ':')) ==
            if |left| + |right| > 7 then None else Some(left + seq(8 - |left| - |right|, _ => "0") + right)
  {
    hide Join, SplitGroups, SplitDouble, NoAdjacentColons, AreGroups, Filled;
    SplitGroupsOfJoin(left);
    SplitGroupsOfJoin(right);
    SplitAround(left, right);
    FilledIs(left, right);
  }

  lemma FilledIs(left: seq<string>, right: seq<string>)
    ensures Filled(left, right) ==
            if |left| + |right| > 7 then None else Some(left + seq(8 - |left| - |right|, _ => "0") + right)
  {
  }

  lemma SplitAround(left: seq<string>, right: seq<string>)
    requires AreGroups(left) && AreGroups(right)
    ensures SplitDouble(Join(left, ':') + "::" + Join(right, ':')) == [Join(left, ':'), Join(right, ':')]
  {
    SplitGroupsOfJoin(left);
    SplitGroupsOfJoin(right);
    hide Join, SplitDouble;
    SplitDoubleAt(Join(left, ':'), Join(right, ':'));
    SplitDoubleFree(Join(right, ':'));
  }

  lemma GroupsOfCompressed(groups: seq<string>, lo: nat, hi: nat)
    requires |groups| == 8 && AreGroups(groups) && lo < hi <= 8
    ensures GroupsOf(CompressedForm(groups, lo, hi)) == Some(groups[..lo] + seq(hi - lo, _ => "0") + groups[hi..])
  {
    GroupsAround(groups[..lo], groups[hi..]);
  }

  /** Malformed texts are refused: another number of groups than eight without '::', eight or more with it,
      and '::' twice. */
  lemma MalformedIsRefused(left: seq<string>, middle: seq<string>, right: seq<string>)
    requires AreGroups(left) && AreGroups(middle) && AreGroups(right)
    ensures |left| != 8 ==> Ipv6ToBytes(Join(left, ':')).None?
    ensures |left| + |right| > 7 ==> Ipv6ToBytes(Join(left, ':') + "::" + Join(right, ':')).None?
    ensures Ipv6ToBytes(Join(left, ':') + "::" + (Join(middle, ':') + "::" + Join(right, ':'))).None?
  {
    hide Join, SplitGroups, BytesOfGroups;
    SplitGroupsOfJoin(left);
    SplitGroupsOfJoin(middle);
    SplitGroupsOfJoin(right);
    SplitDoubleFree(Join(left, ':'));
    GroupsAround(left, right);
    SplitDoubleAt(Join(left, ':'), Join(middle, ':') + "::" + Join(right, ':'));
    SplitDoubleAt(Join(middle, ':'), Join(right, ':'));
    SplitDoubleFree(Join(right, ':'));
  }

  lemma {:induction false} BytesDependOnValues(g: seq<string>, h: seq<string>)
    requires |g| == |h| && forall i :: 0 <= i < |g| ==> GroupValue(g[i]) == GroupValue(h[i])
    ensures BytesOfGroups(g) == BytesOfGroups(h)
  {
    hide GroupValue;
    if g != [] {
      BytesDependOnValues(g[..|g| - 1], h[..|h| - 1]);
    }
  }

  /** For every eight groups and every non-empty run of zero groups among them, wherever it lies, the
      compressed text expands to the same sixteen bytes as the full one. */
  lemma ExpanderUndoesCompression(groups: seq<string>, lo: nat, hi: nat)
    requires |groups| == 8 && AreGroups(groups) && lo < hi <= 8
    requires forall i :: lo <= i < hi ==> GroupValue(groups[i]) == Some(0)
    ensures Ipv6ToBytes(CompressedForm(groups, lo, hi)) == Ipv6ToBytes(FullForm(groups))
  {
    hide GroupValue, GroupsOf, BytesOfGroups, CompressedForm, FullForm;
    GroupsOfFull(groups);
    GroupsOfCompressed(groups, lo, hi);
    var filled := groups[..lo] + seq(hi - lo, _ => "0") + groups[hi..];
    ZeroGroup();
    BytesDependOnValues(filled, groups);
  }

  lemma ZeroGroup()
    ensures GroupValue("0") == Some(0)
  {
    GroupReads("0");
    assert "0"[..0] == "";
  }

  lemma GroupParses(g: string)
    requires IsGroup(g)
    ensures ParseInt(g, true) == Some(HexValue(g) as int)
  {
    hide HexValue, DigitRun;
    DigitRunOfDigits(g, true);
  }

  lemma GroupReads(g: string)
    requires IsGroup(g)
    ensures GroupValue(g) == Some(HexValue(g))
  {
    GroupParses(g);
    hide ParseInt;
    assert Pow16(4) == 0x10000;
    Pow16Monotone(|g|, 4);
  }

  lemma {:induction false} Pow16Monotone(m: nat, n: nat)
    requires m <= n
    ensures Pow16(m) <= Pow16(n)
  {
    if m < n {
      Pow16Monotone(m, n - 1);
    }
  }

  /** The 16-bit group that byte pair i holds. */
  function GroupOfBytes(bytes: seq<Byte>, i: nat): nat
    requires 2 * i + 1 < |bytes|
  {
    var high: nat := bytes[2 * i];
    256 * high + bytes[2 * i + 1]
  }

  lemma {:induction false} BytesHoldGroups(groups: seq<string>)
    requires AreGroups(groups)
    ensures var r := BytesOfGroups(groups);
            r.Some? && forall i :: 0 <= i < |groups| ==> GroupOfBytes(r.value, i) == HexValue(groups[i])
  {
    hide GroupValue;
    if groups != [] {
      var front, last := groups[..|groups| - 1], groups[|groups| - 1];
      BytesHoldGroups(front);
      GroupReads(last);
      var before, after := BytesOfGroups(front).value, BytesOfGroups(groups).value;
      assert after == before + [HexValue(last) / 256, HexValue(last) % 256];
      forall i | 0 <= i < |groups|
        ensures GroupOfBytes(after, i) == HexValue(groups[i])
      {
        if i < |front| {
          assert GroupOfBytes(before, i) == HexValue(front[i]);
        }
      }
    }
  }

  /** Every full text is an address, and byte pair i is the value of group i. */
  lemma FullFormReads(groups: seq<string>)
    requires |groups| == 8 && AreGroups(groups)
    ensures var r := Ipv6ToBytes(FullForm(groups));
            r.Some? && forall i :: 0 <= i < 8 ==> GroupOfBytes(r.value, i) == HexValue(groups[i])
  {
    GroupsOfFull(groups);
    BytesHoldGroups(groups);
  }
}
