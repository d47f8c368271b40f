/** The IPv6 grammar: a text has one reading, and what the `::` and a dotted tail stand for. */
module GrammarLaws {
  import opened BitStrings
  import opened Bytes
  import opened Prefixes
  import opened DottedDecimal
  import opened HexGroups
  import opened AddressParser
  import opened AddressPrinter
  import opened TextLaws
  import opened CanonicalForm

  // ----- One reading -----

  /** Colons at `i` and behind it. */
  predicate DoubleAt(s: string, i: nat) {
    i + 1 < |s| && s[i] == ':' && s[i + 1] == ':'
  }

  /** Joined groups hold no double colon and begin and end with a digit. */
  lemma {:induction false} JoinShape(gs: seq<string>)
    requires AllGroups(gs)
    ensures forall i: nat :: !DoubleAt(Join(gs), i)
    ensures gs != [] ==> Join(gs) != "" && IsHex(Join(gs)[0]) && IsHex(Join(gs)[|Join(gs)| - 1])
  {
    if |gs| > 1 {
      var g, more := gs[0], Join(gs[1..]);
      JoinShape(gs[1..]);
      forall i: nat
        ensures !DoubleAt(Join(gs), i)
      {
        if i > |g| {
          assert !DoubleAt(more, i - |g| - 1);
        }
      }
    }
  }

  /** A group and what follows it can be told apart. */
  lemma {:induction false} GroupUnique(g: string, rest: string, h: string, more: string)
    requires IsGroup(g) && IsGroup(h) && g + rest == h + more
    requires (rest == "" || rest[0] == ':') && (more == "" || more[0] == ':')
    ensures g == h && rest == more
  {
    HexRunIs(g, rest);
    HexRunIs(h, more);
    assert g == (g + rest)[..|g|] == (h + more)[..|h|] == h;
    assert rest == (g + rest)[|g|..] == (h + more)[|h|..] == more;
  }

  function TailOf(gs: seq<string>): string
    requires gs != []
  {
    if |gs| == 1 then "" else ":" + Join(gs[1..])
  }

  lemma {:induction false} JoinUnique(gs: seq<string>, hs: seq<string>)
    requires AllGroups(gs) && AllGroups(hs) && Join(gs) == Join(hs)
    ensures gs == hs
  {
    JoinShape(gs);
    JoinShape(hs);
    if gs != [] && hs != [] {
      HeadUnique(gs, hs);
      if gs[1..] != [] {
        JoinUnique(gs[1..], hs[1..]);
      }
      assert gs == [gs[0]] + gs[1..] && hs == [hs[0]] + hs[1..];
    }
  }

  lemma {:induction false} HeadUnique(gs: seq<string>, hs: seq<string>)
    requires AllGroups(gs) && AllGroups(hs) && gs != [] && hs != [] && Join(gs) == Join(hs)
    ensures gs[0] == hs[0] && (gs[1..] == [] <==> hs[1..] == []) && Join(gs[1..]) == Join(hs[1..])
  {
    var x, y := TailOf(gs), TailOf(hs);
    assert Join(gs) == gs[0] + x && Join(hs) == hs[0] + y;
    GroupUnique(gs[0], x, hs[0], y);
    if x != "" {
      assert Join(gs[1..]) == x[1..] && Join(hs[1..]) == y[1..];
    } else {
      assert gs[1..] == [] && hs[1..] == [];
    }
  }

  /** The first double colon of a text is its `::`. */
  lemma {:induction false} FirstDouble(gs: seq<string>, rest: string, p: nat)
    requires AllGroups(gs) && rest != "" && rest[0] == ':' && DoubleAt(Join(gs) + rest, p)
    ensures |Join(gs)| <= p
  {
    var s, n := Join(gs) + rest, |Join(gs)|;
    assert p < n - 1 ==> (DoubleAt(s, p) <==> DoubleAt(Join(gs), p));
    assert n > 0 ==> s[n - 1] == Join(gs)[n - 1] && gs != [];
    JoinShape(gs);
  }

  /** Two ways to put a `::` between groups that give the same text are the same. */
  lemma {:induction false} SplitUnique(ts: seq<string>, x: string, us: seq<string>, y: string)
    requires AllGroups(ts) && AllGroups(us) && Join(ts) + "::" + x == Join(us) + "::" + y
    ensures ts == us && x == y
  {
    var s, n, m := Join(ts) + "::" + x, |Join(ts)|, |Join(us)|;
    assert s == Join(ts) + ("::" + x) && s == Join(us) + ("::" + y);
    assert DoubleAt(s, n) && DoubleAt(s, m);
    FirstDouble(ts, "::" + x, m);
    FirstDouble(us, "::" + y, n);
    assert s[..n] == Join(ts) && s[..m] == Join(us) && s[n + 2..] == x && s[m + 2..] == y;
    JoinUnique(ts, us);
  }

  /** Groups and at most one colon behind them. */
  lemma {:induction false} EndUnique(ts: seq<string>, trailing: bool, us: seq<string>)
    requires AllGroups(ts) && AllGroups(us) && (trailing ==> ts != []) && Join(ts) + Colon(trailing) == Join(us)
    ensures ts == us && !trailing
  {
    assert (Join(ts) + ":")[|Join(ts)|] == ':';
    JoinShape(us);
    JoinUnique(ts, us);
  }

  // ----- What a text means -----

  /** Between one and four hexadecimal digits each, by character codes. */
  predicate GroupCodes(ts: seq<string>) {
    forall i :: 0 <= i < |ts| ==> 1 <= |ts[i]| <= 4 && HexCodes(ts[i])
  }

  /** The groups of an address from `from` on have the values of the texts. */
  ghost predicate Spells(b: seq<Byte>, from: nat, ts: seq<string>)
    requires |b| == 16 && from + |ts| <= 8
  {
    forall i :: 0 <= i < |ts| ==> GroupNum(b, from + i) == HexValue(ts[i])
  }

  /** The groups around a `::`, and zeros for at least one group in its place. */
  ghost predicate Around(b: seq<Byte>, ts: seq<string>, us: seq<string>) {
    && |b| == 16 && |ts| + |us| <= 7 && Spells(b, 0, ts) && Spells(b, 8 - |us|, us)
    && ZeroBytes(b, |ts|, 8 - |ts| - |us|)
  }

  lemma {:induction false} CodesAreGroups(ts: seq<string>)
    ensures GroupCodes(ts) <==> AllGroups(ts)
    ensures AllGroups(ts) ==> forall i :: 0 <= i < |ts| ==> Values(ts)[i] == HexValue(ts[i])
  {
    forall i | 0 <= i < |ts|
      ensures AllHex(ts[i]) <==> HexCodes(ts[i])
      ensures AllHex(ts[i]) ==> HexNum(ts[i]) == HexValue(ts[i])
    {
      HexNumByCodes(ts[i]);
    }
  }

  lemma {:induction false} GroupOfBytes(gs: seq<nat>, i: nat)
    requires |gs| == 8 && i < 8 && gs[i] < 65536
    ensures GroupNum(GroupBytes(gs), i) == gs[i]
  {
    GroupBytesAt(gs, i);
  }

  /** The sixteen bytes are determined by the eight groups. */
  lemma {:induction false} GroupsDetermine(b: seq<Byte>, gs: seq<nat>)
    requires |b| == 16 && |gs| == 8 && forall i: nat :: i < 8 ==> gs[i] < 65536
    ensures b == GroupBytes(gs) <==> forall i: nat :: i < 8 ==> GroupNum(b, i) == gs[i]
  {
    forall i: nat | i < 8
      ensures GroupNum(GroupBytes(gs), i) == gs[i] && GroupsOf(b)[i] == GroupNum(b, i)
    {
      GroupOfBytes(gs, i);
      GroupZero(b, i);
    }
    GroupsRoundTrip(b);
    if forall i: nat :: i < 8 ==> GroupNum(b, i) == gs[i] {
      assert GroupsOf(b) == gs;
    }
  }

  lemma {:induction false} ZeroNums(b: seq<Byte>, start: nat, n: nat)
    requires |b| == 16 && start + n <= 8
    ensures ZeroBytes(b, start, n) <==> forall i: nat :: start <= i < start + n ==> GroupNum(b, i) == 0
  {
    ZeroRunBytes(b, start, n);
    forall i: nat | i < 8
      ensures GroupsOf(b)[i] == GroupNum(b, i)
    {
      GroupZero(b, i);
    }
  }

  /** Eight groups put together from two lists and the zeros between them. */
  lemma {:induction false} GroupsAround(b: seq<Byte>, ts: seq<string>, us: seq<string>, gs: seq<nat>)
    requires |b| == 16 && |ts| + |us| <= 7 && AllGroups(ts) && AllGroups(us)
    requires gs == Values(ts) + ZeroGroups(8 - |ts| - |us|) + Values(us)
    ensures Around(b, ts, us) <==> forall i: nat :: i < 8 ==> GroupNum(b, i) == gs[i]
  {
    var z := 8 - |us|;
    CodesAreGroups(ts);
    CodesAreGroups(us);
    ZeroNums(b, |ts|, z - |ts|);
    if Around(b, ts, us) {
      forall i: nat | i < 8
        ensures GroupNum(b, i) == gs[i]
      {
        if i >= z {
          assert GroupNum(b, z + (i - z)) == HexValue(us[i - z]);
        }
      }
    }
    if forall i: nat :: i < 8 ==> GroupNum(b, i) == gs[i] {
      forall i | 0 <= i < |us|
        ensures GroupNum(b, z + i) == HexValue(us[i])
      {
        assert gs[z + i] == Values(us)[i];
      }
      forall i | 0 <= i < |ts|
        ensures GroupNum(b, i) == HexValue(ts[i])
      {
        assert gs[i] == Values(ts)[i];
      }
    }
  }

  lemma {:induction false} AroundDenotes(b: seq<Byte>, ts: seq<string>, us: seq<string>)
    requires AllGroups(ts) && AllGroups(us) && |ts| + |us| <= 7 && |b| == 16
    ensures Around(b, ts, us) <==> b == GroupBytes(Denotes(Text(ts, true, us, false), 8))
  {
    var t := Text(ts, true, us, false);
    DenotesBound(t, 8);
    GroupsDetermine(b, Denotes(t, 8));
    GroupsAround(b, ts, us, Denotes(t, 8));
  }

  /** A text with a `::` between groups is accepted exactly when there are at most seven of them, with the
      address that has their values around zeros. */
  lemma {:induction false} DoubleColonMeans(ts: seq<string>, us: seq<string>, b: seq<Byte>)
    requires GroupCodes(ts) && GroupCodes(us)
    ensures ParseText(Join(ts) + "::" + Join(us)) == Some(Address(AF_INET6, b)) <==> Around(b, ts, us)
  {
    var t := Text(ts, true, us, false);
    CodesAreGroups(ts);
    CodesAreGroups(us);
    assert Write(t) == Join(ts) + "::" + Join(us);
    Ipv6Spelled(Write(t), b);
    WriteLacks(t, '.');
    if Around(b, ts, us) {
      AroundDenotes(b, ts, us);
      assert PureAddress(Write(t), b);
    }
    if u :| WellFormed(u, 8) && Write(t) == Write(u) && b == GroupBytes(Denotes(u, 8)) {
      OneReading(ts, us, u);
      AroundDenotes(b, ts, us);
    }
  }

  /** A text with a `::` between groups is read in no other way. */
  lemma {:induction false} OneReading(ts: seq<string>, us: seq<string>, u: Text)
    requires AllGroups(ts) && AllGroups(us) && WellFormed(u, 8) && Write(u) == Join(ts) + "::" + Join(us)
    ensures u == Text(ts, true, us, false)
  {
    var s := Write(u);
    if u.compressed {
      assert s == Join(u.before) + "::" + (Join(u.after) + Colon(u.trailing));
      SplitUnique(u.before, Join(u.after) + Colon(u.trailing), ts, Join(us));
      EndUnique(u.after, u.trailing, us);
    } else {
      assert s == Join(ts) + ("::" + Join(us)) && DoubleAt(s, |Join(ts)|);
      NoDouble(u, |Join(ts)|);
    }
  }

  lemma {:induction false} NoDouble(u: Text, p: nat)
    requires WellFormed(u, 8) && !u.compressed
    ensures !DoubleAt(Write(u), p)
  {
    JoinShape(u.before);
    assert Write(u) == Join(u.before) + Colon(u.trailing);
    assert !DoubleAt(Join(u.before), p);
  }

  /** Groups without a `::` are accepted exactly when there are eight. */
  lemma {:induction false} EightGroupsMean(ts: seq<string>, b: seq<Byte>)
    requires GroupCodes(ts) && |b| == 16
    ensures ParseText(Join(ts)) == Some(Address(AF_INET6, b)) <==> |ts| == 8 && Spells(b, 0, ts)
  {
    var t := Text(ts, false, [], false);
    CodesAreGroups(ts);
    Ipv6Spelled(Join(ts), b);
    JoinLacks(ts, '.');
    if |ts| == 8 {
      EightDenotes(b, ts);
      assert Write(t) == Join(ts);
    }
    if u :| WellFormed(u, 8) && Join(ts) == Write(u) && b == GroupBytes(Denotes(u, 8)) {
      PlainReading(ts, u);
    }
  }

  lemma {:induction false} PlainReading(ts: seq<string>, u: Text)
    requires AllGroups(ts) && WellFormed(u, 8) && Write(u) == Join(ts)
    ensures u == Text(ts, false, [], false)
  {
    JoinShape(ts);
    if u.compressed {
      assert DoubleAt(Write(u), |Join(u.before)|);
    } else {
      assert Write(u) == Join(u.before) + Colon(u.trailing);
      EndUnique(u.before, u.trailing, ts);
    }
  }

  lemma {:induction false} EightDenotes(b: seq<Byte>, ts: seq<string>)
    requires AllGroups(ts) && |ts| == 8 && |b| == 16
    ensures Spells(b, 0, ts) <==> b == GroupBytes(Denotes(Text(ts, false, [], false), 8))
  {
    var gs := Denotes(Text(ts, false, [], false), 8);
    DenotesBound(Text(ts, false, [], false), 8);
    CodesAreGroups(ts);
    assert gs == Values(ts);
    GroupsDetermine(b, gs);
  }

  // ----- The dotted tail -----

  /** An accepted IPv6 text with a dot in it stands for an IPv4-mapped address, whose last four bytes are
      its tail in dotted decimal. */
  lemma {:induction false} DotMeansMapped(s: string, addr: Address)
    requires ParseText(s) == Some(addr) && ':' in s && '.' in s
    ensures |addr.bytes| == 16 && addr.bytes[..12] == [0, 0, 0, 0, 0, 0, 0, 0, 0, 0, 255, 255]
    ensures exists head, tail :: s == head + ":" + tail && DottedQuad(tail, addr.bytes[12..])
  {
    var b := addr.bytes;
    Ipv6Spelled(s, b);
    if t :| WellFormed(t, 8) && s == Write(t) && b == GroupBytes(Denotes(t, 8)) {
      WriteLacks(t, '.');
    }
    MixedMeansMapped(s, b);
  }

  lemma {:induction false} MixedMeansMapped(s: string, b: seq<Byte>)
    requires MixedAddress(s, b)
    ensures |b| == 16 && b[..12] == [0, 0, 0, 0, 0, 0, 0, 0, 0, 0, 255, 255]
    ensures exists head, tail :: s == head + ":" + tail && DottedQuad(tail, b[12..])
  {
    var t, octets: seq<Byte> :| MixedParts(s, b, t, octets);
    var head, tail := Write(t), DottedText(octets);
    MappedBytes(MAPPED_GROUPS, octets);
    DottedIsQuad(tail, octets);
    assert b[12..] == octets;
    assert s == head + ":" + tail && DottedQuad(tail, b[12..]);
  }
}
