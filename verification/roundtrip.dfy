/** What `cidr_addr_parse` accepts, and that it undoes `cidr_addr_format`. */
module TextLaws {
  import opened BitStrings
  import opened Bytes
  import opened Prefixes
  import opened DottedDecimal
  import opened HexGroups
  import opened AddressParser
  import opened AddressPrinter

  // ----- Which characters a text holds -----

  predicate Lacks(s: string, c: char) {
    c !in s
  }

  lemma {:induction false} JoinLacks(gs: seq<string>, c: char)
    requires AllGroups(gs) && !IsHex(c) && c != ':'
    ensures Lacks(Join(gs), c)
  {
    if gs != [] {
      assert Lacks(gs[0], c);
      if |gs| > 1 {
        JoinLacks(gs[1..], c);
      }
    }
  }

  lemma {:induction false} WriteLacks(t: Text, c: char)
    requires AllGroups(t.before) && AllGroups(t.after) && !IsHex(c) && c != ':'
    ensures Lacks(Write(t), c)
  {
    JoinLacks(t.before, c);
    JoinLacks(t.after, c);
  }

  lemma {:induction false} DotsLack(b: seq<Byte>, k: nat, c: char)
    requires k < |b| && !IsDigit(c) && c != '.'
    ensures Lacks(DotsFrom(b, k), c)
    decreases |b| - k
  {
    assert Lacks(Dec(b[k]), c);
    if k + 1 < |b| {
      DotsLack(b, k + 1, c);
    }
  }

  lemma {:induction false} DotsHaveDot(b: seq<Byte>)
    requires |b| == 4
    ensures '.' in DottedText(b)
  {
    assert DottedText(b)[|Dec(b[0])|] == '.';
  }

  lemma SuffixLacks(s: string, k: nat, c: char)
    requires Lacks(s, c) && k <= |s|
    ensures Lacks(s[k..], c)
  {
  }

  lemma {:induction false} LastColonAt(head: string, tail: string)
    requires ':' !in tail
    ensures LastColon(head + ":" + tail) == Some(|head|)
  {
    var s := head + ":" + tail;
    assert s[|head|] == ':';
    assert forall i :: |head| < i < |s| ==> s[i] == tail[i - |head| - 1];
  }

  // ----- The accepted language -----

  /** An IPv6 text in the pure form and the address it denotes. */
  ghost predicate PureAddress(src: string, b: seq<Byte>) {
    exists t :: WellFormed(t, 8) && src == Write(t) && b == GroupBytes(Denotes(t, 8))
  }

  const MAPPED_GROUPS: seq<nat> := [0, 0, 0, 0, 0, 0xFFFF]

  /** An IPv6 text in the mixed form: six groups that spell the mapped block, a colon, four octets. */
  ghost predicate MixedAddress(src: string, b: seq<Byte>) {
    exists t, octets: seq<Byte> :: MixedParts(src, b, t, octets)
  }

  ghost predicate MixedParts(src: string, b: seq<Byte>, t: Text, octets: seq<Byte>) {
    && |octets| == 4 && WellFormed(t, 6) && !t.trailing && Denotes(t, 6) == MAPPED_GROUPS
    && src == Write(t) + ":" + DottedText(octets) && b == GroupBytes(MAPPED_GROUPS) + octets
  }

  lemma {:induction false} HexBound(s: string)
    requires IsGroup(s)
    ensures HexNum(s) < 65536
  {
    HexNumLimit(s);
  }

  lemma {:induction false} HexNumLimit(s: string)
    requires AllHex(s) && |s| <= 4
    ensures HexNum(s) < HexLimit(|s|)
  {
    if s != "" {
      HexNumLimit(s[..|s| - 1]);
    }
  }

  lemma {:induction false} DenotesBound(t: Text, max: nat)
    requires WellFormed(t, max)
    ensures forall i :: 0 <= i < max ==> Denotes(t, max)[i] < 65536
  {
    forall gs: seq<string>, i | AllGroups(gs) && 0 <= i < |gs|
      ensures Values(gs)[i] < 65536
    {
      HexBound(gs[i]);
    }
  }

  lemma {:induction false} GroupEndsAt(gs: seq<nat>, octets: seq<Byte>, i: nat)
    requires i < |gs| && gs[i] < 65536
    ensures var b := GroupBytes(gs) + octets;
      (gs[i] == 0 <==> b[2 * i] == 0 && b[2 * i + 1] == 0)
        && (gs[i] == 0xFFFF <==> b[2 * i] == 255 && b[2 * i + 1] == 255)
  {
    GroupBytesAt(gs, i);
  }

  /** The groups behind the bytes of the mapped block. */
  lemma {:induction false} MappedBytes(gs: seq<nat>, octets: seq<Byte>)
    requires |gs| == 6 && |octets| == 4 && forall i :: 0 <= i < 6 ==> gs[i] < 65536
    ensures Mapped(GroupBytes(gs) + octets) <==> gs == MAPPED_GROUPS
  {
    var b := GroupBytes(gs) + octets;
    if Mapped(b) {
      forall i: nat | i < 5
        ensures gs[i] == 0
      {
        GroupEndsAt(gs, octets, i);
      }
      GroupEndsAt(gs, octets, 5);
      assert gs == [gs[0], gs[1], gs[2], gs[3], gs[4], gs[5]];
    }
    if gs == MAPPED_GROUPS {
      forall i | 0 <= i < 10
        ensures b[i] == 0
      {
        GroupEndsAt(gs, octets, i / 2);
      }
      GroupEndsAt(gs, octets, 5);
    }
  }

  lemma {:induction false} GroupBytesAt(gs: seq<nat>, i: nat)
    requires i < |gs|
    ensures GroupBytes(gs)[2 * i] == gs[i] / 256 % 256 && GroupBytes(gs)[2 * i + 1] == gs[i] % 256
  {
    var n := |gs| - 1;
    if i < n {
      GroupBytesAt(gs[..n], i);
    }
  }

  /** The mixed path accepts exactly the mixed texts. */
  lemma {:induction false} MixedTextIff(src: string, b: seq<Byte>)
    ensures IsMixed(src) && ParseMixedText(src) == Some(b) <==> MixedAddress(src, b)
  {
    if IsMixed(src) && ParseMixedText(src) == Some(b) {
      MixedTextSound(src, b);
    }
    if t, octets: seq<Byte> :| MixedParts(src, b, t, octets) {
      MixedTextComplete(src, b, t, octets);
    }
  }

  /** The tail and the groups of an accepted mixed text. */
  lemma {:induction false} MixedSplit(src: string, b: seq<Byte>) returns (at: nat, octets: seq<Byte>, gs: seq<nat>)
    requires IsMixed(src) && ParseMixedText(src) == Some(b)
    ensures at < |src| && src == src[..at] + ":" + src[at + 1..] && |octets| == 4 && |gs| == 6
    ensures ScanOctets(src[at + 1..], []) == Some(octets) && ParseGroups(src[..at], true) == Some(gs)
    ensures b == GroupBytes(gs) + octets && Mapped(b)
  {
    at := LastColon(src).value;
    octets, gs := ScanOctets(src[at + 1..], []).value, ParseGroups(src[..at], true).value;
  }

  lemma {:induction false} MixedTextSound(src: string, b: seq<Byte>)
    requires IsMixed(src) && ParseMixedText(src) == Some(b)
    ensures MixedAddress(src, b)
  {
    var at, octets, gs := MixedSplit(src, b);
    var head, tail := src[..at], src[at + 1..];
    DottedIff(tail, octets);
    LastGroup(gs, octets);
    MixedNonzeroIff(head, gs);
    var t :| WellFormed(t, 6) && !t.trailing && head == Write(t) && gs == Denotes(t, 6);
    DenotesBound(t, 6);
    MappedBytes(gs, octets);
    assert MixedParts(src, b, t, octets);
  }

  lemma {:induction false} LastGroup(gs: seq<nat>, octets: seq<Byte>)
    requires |gs| == 6 && Mapped(GroupBytes(gs) + octets)
    ensures gs[5] != 0
  {
    GroupBytesAt(gs, 5);
  }

  lemma {:induction false} MixedTextComplete(src: string, b: seq<Byte>, t: Text, octets: seq<Byte>)
    requires MixedParts(src, b, t, octets)
    ensures IsMixed(src) && ParseMixedText(src) == Some(b)
  {
    var head, tail := Write(t), DottedText(octets);
    DotsLack(octets, 0, ':');
    DotsHaveDot(octets);
    DottedIff(tail, octets);
    MixedNonzeroIff(head, MAPPED_GROUPS);
    MappedBytes(MAPPED_GROUPS, octets);
    MixedJoined(src, head, tail, b, octets);
  }

  lemma {:induction false} MixedJoined(src: string, head: string, tail: string, b: seq<Byte>, octets: seq<Byte>)
    requires src == head + ":" + tail && ':' !in tail && '.' in tail
    requires ScanOctets(tail, []) == Some(octets) && ParseGroups(head, true) == Some(MAPPED_GROUPS)
    requires b == GroupBytes(MAPPED_GROUPS) + octets && Mapped(b)
    ensures IsMixed(src) && ParseMixedText(src) == Some(b)
  {
    LastColonAt(head, tail);
    assert src[..|head|] == head && src[|head| + 1..] == tail;
  }

  lemma {:induction false} PureNotMixed(t: Text)
    requires WellFormed(t, 8)
    ensures !IsMixed(Write(t))
  {
    WriteLacks(t, '.');
    var s := Write(t);
    if LastColon(s).Some? {
      SuffixLacks(s, LastColon(s).value + 1, '.');
    }
  }

  /** `addr_parse_ipv6` accepts a text exactly when it is one of the two forms, and then returns the
      address that the text denotes. */
  lemma {:induction false} Ipv6LanguageIff(src: string, b: seq<Byte>)
    ensures ParseIpv6Text(src) == Some(b) <==> PureAddress(src, b) || MixedAddress(src, b)
  {
    MixedTextIff(src, b);
    if !IsMixed(src) && ParseIpv6Text(src) == Some(b) {
      var gs := ParseGroups(src, false).value;
      PureIff(src, gs);
      var t :| WellFormed(t, 8) && src == Write(t) && gs == Denotes(t, 8);
      assert PureAddress(src, b);
    }
    if t :| WellFormed(t, 8) && src == Write(t) && b == GroupBytes(Denotes(t, 8)) {
      PureNotMixed(t);
      PureIff(src, Denotes(t, 8));
    }
  }

  /** A text of eight groups has a colon. */
  lemma {:induction false} GroupsHaveColon(t: Text)
    requires WellFormed(t, 8)
    ensures ':' in Write(t)
  {
    if t.compressed {
      assert Write(t)[|Join(t.before)|] == ':';
    } else {
      assert Join(t.before) == t.before[0] + ":" + Join(t.before[1..]);
      assert Write(t)[|t.before[0]|] == ':';
    }
  }

  // ----- The trailing colon -----

  lemma {:induction false} LastOfJoin(gs: seq<string>)
    requires AllGroups(gs) && gs != []
    ensures Join(gs) != "" && IsHex(Join(gs)[|Join(gs)| - 1])
  {
    if |gs| > 1 {
      LastOfJoin(gs[1..]);
    }
  }

  /** A text whose last character is a digit has no trailing colon and ends with a group. */
  lemma {:induction false} EndsWithGroup(t: Text)
    requires WellFormed(t, 8) && Write(t) != "" && IsHex(Write(t)[|Write(t)| - 1])
    ensures !t.trailing && (t.compressed ==> t.after != [])
  {
  }

  /** A text of the grammar that ends in two characters, a digit and a colon, has a trailing colon. */
  lemma {:induction false} EndsWithColon(t: Text)
    requires WellFormed(t, 8) && |Write(t)| >= 2
    requires IsHex(Write(t)[|Write(t)| - 2]) && Write(t)[|Write(t)| - 1] == ':'
    ensures t.trailing
  {
    var last := if t.compressed then t.after else t.before;
    assert t.compressed && last == [] && !t.trailing ==> Write(t) == Join(t.before) + "::";
    if last != [] {
      LastOfJoin(last);
    }
  }

  /** One colon behind a hexadecimal text that ends with a digit changes nothing: the text is accepted with
      it exactly if it is accepted without it. */
  lemma {:induction false} TrailingColonIgnored(s: string, b: seq<Byte>)
    requires s != "" && IsHex(s[|s| - 1])
    ensures PureAddress(s + ":", b) <==> PureAddress(s, b)
  {
    if t :| WellFormed(t, 8) && s == Write(t) && b == GroupBytes(Denotes(t, 8)) {
      EndsWithGroup(t);
      Trailing(t);
      assert WellFormed(t.(trailing := true), 8);
    }
    if t :| WellFormed(t, 8) && s + ":" == Write(t) && b == GroupBytes(Denotes(t, 8)) {
      EndsWithColon(t);
      Trailing(t.(trailing := false));
      SameFront(s, Write(t.(trailing := false)), ':');
      assert WellFormed(t.(trailing := false), 8);
    }
  }

  lemma {:induction false} Trailing(t: Text)
    requires WellFormed(t, 8) && !t.trailing && (t.compressed ==> t.after != [])
    ensures var u := t.(trailing := true);
      WellFormed(u, 8) && Write(u) == Write(t) + ":" && Denotes(u, 8) == Denotes(t, 8)
  {
  }

  lemma SameFront(x: string, y: string, c: char)
    requires x + [c] == y + [c]
    ensures x == y
  {
    assert x == (x + [c])[..|x|] && y == (y + [c])[..|y|];
  }

  /** How the address `addr` may be written. */
  ghost predicate AddressSpelled(src: string, addr: Address) {
    || (addr.family == AF_INET && |addr.bytes| == 4 && src == DottedText(addr.bytes))
    || (addr.family == AF_INET6 && (PureAddress(src, addr.bytes) || MixedAddress(src, addr.bytes)))
  }

  /** `cidr_addr_parse` accepts exactly the texts of either family, and returns what they spell. */
  lemma {:induction false} AddressLanguageIff(src: string, addr: Address)
    ensures ParseText(src) == Some(addr) <==> AddressSpelled(src, addr)
  {
    if addr.family == AF_INET && |addr.bytes| == 4 {
      Ipv4Spelled(src, addr.bytes);
    }
    Ipv6Spelled(src, addr.bytes);
  }

  lemma {:induction false} Ipv4Spelled(src: string, b: seq<Byte>)
    requires |b| == 4
    ensures ParseText(src) == Some(Address(AF_INET, b)) <==> src == DottedText(b)
  {
    DottedIff(src, b);
    DotsLack(b, 0, ':');
  }

  lemma {:induction false} Ipv6Spelled(src: string, b: seq<Byte>)
    ensures ParseText(src) == Some(Address(AF_INET6, b)) <==> PureAddress(src, b) || MixedAddress(src, b)
  {
    Ipv6LanguageIff(src, b);
    if t :| WellFormed(t, 8) && src == Write(t) && b == GroupBytes(Denotes(t, 8)) {
      GroupsHaveColon(t);
    }
    if t, octets: seq<Byte> :| MixedParts(src, b, t, octets) {
      assert src[|Write(t)|] == ':';
    }
  }

  // ----- Round trips -----

  lemma {:induction false} HexesValues(gs: seq<nat>)
    requires forall i :: 0 <= i < |gs| ==> gs[i] < 65536
    ensures AllGroups(Hexes(gs)) && Values(Hexes(gs)) == gs
  {
    forall i | 0 <= i < |gs|
      ensures IsGroup(Hexes(gs)[i]) && HexNum(Hexes(gs)[i]) == gs[i]
    {
      HexLength(gs[i]);
      HexNumOfHex(gs[i]);
    }
  }

  lemma {:induction false} PlainDenotes(gs: seq<nat>)
    requires |gs| == 8 && forall i :: 0 <= i < |gs| ==> gs[i] < 65536
    ensures WellFormed(PlainText(gs), 8) && Denotes(PlainText(gs), 8) == gs
  {
    HexesValues(gs);
    HexesValues([]);
  }

  /** Dropping a zero run and expanding it again. */
  lemma {:induction false} CompressedDenotes(gs: seq<nat>, start: nat, n: nat)
    requires |gs| == 8 && (forall i :: 0 <= i < |gs| ==> gs[i] < 65536) && n >= 1 && ZeroRun(gs, start, n)
    ensures WellFormed(CompressedText(gs, start, n), 8) && Denotes(CompressedText(gs, start, n), 8) == gs
  {
    HexesValues(gs[..start]);
    HexesValues(gs[start + n..]);
    AroundRun(gs, start, n);
  }

  lemma {:induction false} AroundRun(gs: seq<nat>, start: nat, n: nat)
    requires ZeroRun(gs, start, n)
    ensures gs == gs[..start] + ZeroGroups(n) + gs[start + n..]
  {
    assert gs[start..start + n] == ZeroGroups(n);
    assert gs == gs[..start] + gs[start..start + n] + gs[start + n..];
  }

  /** The lead of the mapped form is six groups. */
  lemma {:induction false} LeadText() returns (t: Text)
    ensures WellFormed(t, 6) && !t.trailing && Denotes(t, 6) == MAPPED_GROUPS && Write(t) + ":" == MAPPED_LEAD
  {
    var f := "ffff";
    t := Text([], true, [f], false);
    assert f[..3] == "fff" && "fff"[..2] == "ff" && "ff"[..1] == "f" && "f"[..0] == "";
    assert HexNum("f") == 15;
    assert HexNum("ff") == 255;
    assert HexNum("fff") == 4095;
    assert HexNum(f) == 65535;
    assert Values([f]) == [65535] && Values([]) == [];
    assert Denotes(t, 6) == ZeroGroups(5) + [65535];
  }

  lemma {:induction false} MappedRoundTrip(b: seq<Byte>, s: string)
    requires Mapped(b) && s == MAPPED_LEAD + DottedText(b[12..])
    ensures ParseText(s) == Some(Address(AF_INET6, b))
  {
    var t := LeadText();
    MappedSplit(b);
    assert MixedParts(s, b, t, b[12..]);
    assert s[0] == ':';
    Ipv6LanguageIff(s, b);
  }

  lemma {:induction false} PureRoundTrip(b: seq<Byte>, s: string, t: Text)
    requires |b| == 16 && WellFormed(t, 8) && s == Write(t) && Denotes(t, 8) == GroupsOf(b) && ':' in s
    ensures ParseText(s) == Some(Address(AF_INET6, b))
  {
    GroupsRoundTrip(b);
    assert PureAddress(s, b);
    Ipv6LanguageIff(s, b);
  }

  lemma {:induction false} CompressedHasColon(gs: seq<nat>, start: nat, n: nat)
    requires start + n <= |gs|
    ensures ':' in Write(CompressedText(gs, start, n))
  {
    WriteCompressed(gs, start, n);
    assert Write(CompressedText(gs, start, n))[|Join(Hexes(gs[..start]))|] == ':';
  }

  /** Parsing the canonical text of an IPv6 address gives the address back. */
  lemma {:induction false} Ipv6RoundTrip(b: seq<Byte>, s: string)
    requires |b| == 16 && Canonical(b, s)
    ensures ParseText(s) == Some(Address(AF_INET6, b))
  {
    var gs := GroupsOf(b);
    if Mapped(b) {
      MappedRoundTrip(b, s);
    } else if NoRun(gs) && s == Write(PlainText(gs)) {
      PlainDenotes(gs);
      PlainHasColon(gs);
      PureRoundTrip(b, s, PlainText(gs));
    } else {
      var start: nat, n: nat :| BestRun(gs, start, n) && s == Write(CompressedText(gs, start, n));
      CompressedDenotes(gs, start, n);
      CompressedHasColon(gs, start, n);
      PureRoundTrip(b, s, CompressedText(gs, start, n));
    }
  }

  lemma {:induction false} PlainHasColon(gs: seq<nat>)
    requires |gs| == 8
    ensures ':' in Write(PlainText(gs))
  {
    var ts := Hexes(gs);
    assert Join(ts) == ts[0] + ":" + Join(ts[1..]);
    assert Write(PlainText(gs)) == Join(ts);
    assert Join(ts)[|ts[0]|] == ':';
  }

  lemma {:induction false} MappedSplit(b: seq<Byte>)
    requires Mapped(b)
    ensures b == GroupBytes(MAPPED_GROUPS) + b[12..]
  {
    var gs := GroupsOf(b[..12]);
    GroupsRoundTrip(b[..12]);
    assert b == b[..12] + b[12..];
    MappedBytes(gs, b[12..]);
  }

  /** Parsing the canonical text of an IPv4 address gives the address back. */
  lemma {:induction false} Ipv4RoundTrip(b: seq<Byte>)
    requires |b| == 4
    ensures ParseText(DottedText(b)) == Some(Address(AF_INET, b))
  {
    DotsLack(b, 0, ':');
    DottedIff(DottedText(b), b);
  }
}
