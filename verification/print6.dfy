/** `uint16_to_hex`, `find_zero_compress` and `addr_format_ipv6`: the canonical text of section 4
and the mapped form of section 5 of RFC 5952. */
module AddressPrinter {
  import opened BitStrings
  import opened Bytes
  import opened DottedDecimal
  import opened HexGroups
  import opened AddressParser

  // ----- Groups -----

  /** The 16-bit groups of an address. */
  function GroupsOf(b: seq<Byte>): (gs: seq<nat>)
    ensures |gs| == |b| / 2 && forall i :: 0 <= i < |gs| ==> gs[i] < 65536
  {
    seq(|b| / 2, i requires 0 <= i < |b| / 2 => GroupOf(b[2 * i], b[2 * i + 1]))
  }

  /** `(hi << 8) | lo`. */
  function GroupOf(hi: int, lo: int): (g: nat)
    requires 0 <= hi < 256 && 0 <= lo < 256
    ensures g < 65536 && g / 256 == hi && g % 256 == lo
  {
    256 * hi + lo
  }

  lemma {:induction false} GroupsRoundTrip(b: seq<Byte>)
    requires |b| % 2 == 0
    ensures GroupBytes(GroupsOf(b)) == b
  {
    if b != [] {
      var n := |b| - 2;
      GroupsRoundTrip(b[..n]);
      var gs := GroupsOf(b);
      assert gs[..|gs| - 1] == GroupsOf(b[..n]);
      assert gs[|gs| - 1] == GroupOf(b[n], b[n + 1]);
      assert b == b[..n] + [b[n], b[n + 1]];
    }
  }

  // ----- The longest zero run -----

  ghost predicate ZeroRun(gs: seq<nat>, start: int, n: int) {
    0 <= start && 0 <= n && start + n <= |gs| && forall i :: start <= i < start + n ==> gs[i] == 0
  }

  /** The run at `start` of length `n` is preferred to the one at `j` of length `m`: longer, or as
      long and further left. */
  predicate Preferred(start: int, n: int, j: int, m: int) {
    m < n || (m == n && start <= j)
  }

  /** The leftmost longest run of zero groups, of length at least two. */
  ghost predicate BestRun(gs: seq<nat>, start: int, n: int) {
    n >= 2 && ZeroRun(gs, start, n) && forall j, m :: ZeroRun(gs, j, m) ==> Preferred(start, n, j, m)
  }

  ghost predicate NoRun(gs: seq<nat>) {
    forall j, m :: ZeroRun(gs, j, m) ==> m < 2
  }

  lemma BestRunUnique(gs: seq<nat>, start: int, n: int, start': int, n': int)
    requires BestRun(gs, start, n) && BestRun(gs, start', n')
    ensures start == start' && n == n'
  {
    assert Preferred(start, n, start', n') && Preferred(start', n', start, n);
  }

  /** The runs that end by `i` are beaten by the best so far or lie in the current one. */
  ghost predicate Scanned(gs: seq<nat>, i: int, bestStart: int, bestLen: int, currStart: int, currLen: int) {
    && 0 <= i <= |gs|
    && (if bestLen == 0 then bestStart == -1
        else bestLen >= 1 && ZeroRun(gs, bestStart, bestLen) && bestStart + bestLen <= i)
    && (if currLen == 0 then currStart == -1 && (i > 0 ==> gs[i - 1] != 0)
        else
          && currLen >= 1 && currStart + currLen == i && ZeroRun(gs, currStart, currLen)
          && (currStart > 0 ==> gs[currStart - 1] != 0))
    && (bestLen > 0 && currLen > 0 ==> bestStart < currStart)
    && forall j, m :: ZeroRun(gs, j, m) && 1 <= m && j + m <= i ==>
         Preferred(bestStart, bestLen, j, m) || (currLen > 0 && currStart <= j)
  }

  lemma {:induction false} ExtendRun(gs: seq<nat>, i: int, bestStart: int, bestLen: int, currStart: int, currLen: int)
    requires Scanned(gs, i, bestStart, bestLen, currStart, currLen) && i < |gs| && gs[i] == 0
    ensures Scanned(gs, i + 1, bestStart, bestLen, if currLen == 0 then i else currStart, currLen + 1)
  {
  }

  /** Closing the current run. */
  lemma {:induction false} CloseRun(gs: seq<nat>, i: int, bestStart: int, bestLen: int, currStart: int, currLen: int,
      start: int, len: int)
    requires Scanned(gs, i, bestStart, bestLen, currStart, currLen)
    requires if currLen > bestLen then start == currStart && len == currLen else start == bestStart && len == bestLen
    ensures len == 0 ==> start == -1
    ensures len > 0 ==> ZeroRun(gs, start, len) && start + len <= i
    ensures forall j, m :: ZeroRun(gs, j, m) && 1 <= m && j + m <= i ==> Preferred(start, len, j, m)
  {
    forall j, m | ZeroRun(gs, j, m) && 1 <= m && j + m <= i
      ensures Preferred(start, len, j, m)
    {
      assert Preferred(bestStart, bestLen, j, m) || currStart <= j;
    }
  }

  /** `find_zero_compress`: the leftmost longest zero run, unless it is shorter than two. */
  method FindZeroCompress(gs: seq<nat>) returns (start: int, runLen: nat)
    requires |gs| == 8
    ensures start < 0 ==> start == -1 && runLen == 0 && NoRun(gs)
    ensures start >= 0 ==> BestRun(gs, start, runLen)
  {
    var bestStart: int, bestLen: nat, currStart: int, currLen: nat := -1, 0, -1, 0;
    for i := 0 to 8
      invariant Scanned(gs, i, bestStart, bestLen, currStart, currLen)
    {
      if gs[i] == 0 {
        ExtendRun(gs, i, bestStart, bestLen, currStart, currLen);
        if currStart < 0 {
          currStart := i;
        }
        currLen := currLen + 1;
      } else {
        CloseRunAt(gs, i, bestStart, bestLen, currStart, currLen);
        if currLen > bestLen {
          bestStart, bestLen := currStart, currLen;
        }
        currStart, currLen := -1, 0;
      }
    }
    CloseRun(gs, 8, bestStart, bestLen, currStart, currLen,
             if currLen > bestLen then currStart else bestStart, if currLen > bestLen then currLen else bestLen);
    if currLen > bestLen {
      bestStart, bestLen := currStart, currLen;
    }
    assert forall j, m :: ZeroRun(gs, j, m) ==> m >= 1 ==> Preferred(bestStart, bestLen, j, m);
    if bestLen < 2 {
      return -1, 0;
    }
    return bestStart, bestLen;
  }

  lemma {:induction false} CloseRunAt(gs: seq<nat>, i: int, bestStart: int, bestLen: int, currStart: int, currLen: int)
    requires Scanned(gs, i, bestStart, bestLen, currStart, currLen) && i < |gs| && gs[i] != 0
    ensures if currLen > bestLen then Scanned(gs, i + 1, currStart, currLen, -1, 0)
      else Scanned(gs, i + 1, bestStart, bestLen, -1, 0)
  {
    var start := if currLen > bestLen then currStart else bestStart;
    var len := if currLen > bestLen then currLen else bestLen;
    CloseRun(gs, i, bestStart, bestLen, currStart, currLen, start, len);
  }

  // ----- The canonical text -----

  /** The shortest lower-case form of each group. */
  function Hexes(gs: seq<nat>): (ts: seq<string>)
    ensures |ts| == |gs|
  {
    seq(|gs|, i requires 0 <= i < |gs| => Hex(gs[i]))
  }

  /** All groups written out. */
  function PlainText(gs: seq<nat>): Text {
    Text(Hexes(gs), false, [], false)
  }

  /** The run of `n` groups from `start` replaced by `::`. */
  function CompressedText(gs: seq<nat>, start: nat, n: nat): Text
    requires start + n <= |gs|
  {
    Text(Hexes(gs[..start]), true, Hexes(gs[start + n..]), false)
  }

  const MAPPED_LEAD: string := "::ffff:"

  /** `s` is the canonical text of the IPv6 address `b`. */
  ghost predicate Canonical(b: seq<Byte>, s: string)
    requires |b| == 16
  {
    var gs := GroupsOf(b);
    if Mapped(b) then s == MAPPED_LEAD + DottedText(b[12..])
    else
      || (NoRun(gs) && s == Write(PlainText(gs)))
      || exists start: nat, n: nat :: BestRun(gs, start, n) && s == Write(CompressedText(gs, start, n))
  }

  /** An address has one canonical text. */
  lemma CanonicalUnique(b: seq<Byte>, s: string, s': string)
    requires |b| == 16 && Canonical(b, s) && Canonical(b, s')
    ensures s == s'
  {
    var gs := GroupsOf(b);
    forall start, n, start', n' | BestRun(gs, start, n) && BestRun(gs, start', n')
      ensures start == start' && n == n'
    {
      BestRunUnique(gs, start, n, start', n');
    }
  }

  // ----- Printing -----

  /** `val >> shift`, one hex digit further down. */
  lemma {:induction false} NextNibble(val: nat, shift: nat)
    ensures Shr(val, shift + 4) == Shr(val, shift) / 16
  {
    var x := Shr(val, shift);
    ShrTwice(val, shift, 4);
    assert Shr(x, 4) == Shr(x / 2, 3) == Shr(x / 2 / 2, 2) == Shr(x / 2 / 2 / 2, 1) == Shr(x / 2 / 2 / 2 / 2, 0);
  }

  /** `uint16_to_hex`. */
  method Uint16ToHex(val: nat, out: array<char>, pos: nat) returns (next: nat)
    requires val < 65536 && pos + 4 <= out.Length
    modifies out
    ensures next == pos + |Hex(val)| <= pos + 4 && out[..next] == old(out[..pos]) + Hex(val)
    ensures HexText(out[pos..next], val)
  {
    HexIsText(Hex(val), val);
    if val == 0 {
      assert Hex(0) == [HexChar(0)] == ['0'];
      next := PutChar(out, pos, '0');
      assert out[pos..next] == out[..next][pos..];
      return;
    }
    var shift := 12;
    Top(val);
    while shift > 0 && Shr(val, shift) == 0
      invariant shift == 0 || shift == 4 || shift == 8 || shift == 12
      invariant Shr(val, shift) < 16 && out[..pos] == old(out[..pos])
    {
      NextNibble(val, shift - 4);
      shift := shift - 4;
    }
    next := PutNibbles(val, shift, out, pos);
    assert out[pos..next] == out[..next][pos..];
  }

  /** One more nibble is one more digit. */
  lemma {:induction false} OneNibble(val: nat, shift: nat)
    requires Shr(val, shift + 4) >= 1
    ensures Shr(val, shift) >= 1
    ensures Hex(Shr(val, shift)) == Hex(Shr(val, shift + 4)) + [HexChar(Shr(val, shift) % 16)]
  {
    NextNibble(val, shift);
  }

  /** The digits from the top one, at bit `shift`, down to the last. */
  method PutNibbles(val: nat, top: nat, out: array<char>, pos: nat) returns (next: nat)
    requires (top == 0 || top == 4 || top == 8 || top == 12) && 1 <= Shr(val, top) < 16 && pos + 4 <= out.Length
    modifies out
    ensures next == pos + |Hex(val)| <= pos + 4 && out[..next] == old(out[..pos]) + Hex(val)
  {
    ghost var head := out[..pos];
    next := PutChar(out, pos, HexChar(Shr(val, top) % 16));
    var shift := top;
    while shift > 0
      invariant (shift == 0 || shift == 4 || shift == 8 || shift == 12) && shift <= top && Shr(val, shift) >= 1
      invariant next == pos + |Hex(Shr(val, shift))| && 4 * (next - pos) + shift == 4 + top
      invariant out[..next] == head + Hex(Shr(val, shift))
    {
      OneNibble(val, shift - 4);
      ghost var text := Hex(Shr(val, shift));
      shift := shift - 4;
      var digit := HexChar(Shr(val, shift) % 16);
      Append(head, text, [digit]);
      next := PutChar(out, next, digit);
    }
    assert Shr(val, 0) == val;
  }

  /** No bits above the sixteenth. */
  lemma {:induction false} Top(val: nat)
    requires val < 65536
    ensures Shr(val, 12) < 16
  {
    NextNibble(val, 8);
    NextNibble(val, 4);
    NextNibble(val, 0);
  }

  lemma {:induction false} HexLength(v: nat)
    requires v < 65536
    ensures |Hex(v)| <= 4
  {
    assert v >= 16 ==> Hex(v) == Hex(v / 16) + [HexChar(v % 16)];
    assert v >= 256 ==> Hex(v / 16) == Hex(v / 16 / 16) + [HexChar(v / 16 % 16)];
    assert v >= 4096 ==> Hex(v / 16 / 16) == Hex(v / 16 / 16 / 16) + [HexChar(v / 16 / 16 % 16)];
  }

  lemma {:induction false} JoinSnoc(ts: seq<string>, t: string)
    ensures Join(ts + [t]) == if ts == [] then t else Join(ts) + ":" + t
  {
    if ts == [] {
      assert ts + [t] == [t];
    } else {
      var more := ts[1..];
      assert (ts + [t])[1..] == more + [t] && ts == [ts[0]] + more;
      JoinSnoc(more, t);
      if more == [] {
        assert ts == [ts[0]];
      } else {
        assert Join(ts + [t]) == ts[0] + ":" + (Join(more) + ":" + t);
      }
    }
  }

  lemma {:induction false} HexesSnoc(gs: seq<nat>, i: nat)
    requires i < |gs|
    ensures Hexes(gs[..i + 1]) == Hexes(gs[..i]) + [Hex(gs[i])]
  {
  }

  /** Groups separated by colons. */
  method PutJoined(gs: seq<nat>, out: array<char>, pos: nat) returns (next: nat)
    requires (forall i :: 0 <= i < |gs| ==> gs[i] < 65536) && pos + 5 * |gs| <= out.Length
    modifies out
    ensures pos <= next <= pos + 5 * |gs| && (gs != [] ==> next < pos + 5 * |gs|)
    ensures out[..next] == old(out[..pos]) + Join(Hexes(gs))
  {
    next := pos;
    ghost var head := out[..pos];
    assert Hexes(gs[..0]) == [];
    for i := 0 to |gs|
      invariant pos <= next <= pos + 5 * i && (i > 0 ==> next < pos + 5 * i)
      invariant out[..next] == head + Join(Hexes(gs[..i]))
    {
      ghost var ts := Hexes(gs[..i]);
      HexesSnoc(gs, i);
      JoinSnoc(ts, Hex(gs[i]));
      if i > 0 {
        next := PutChar(out, next, ':');
        Append(head, Join(ts), ":");
        Append(head, Join(ts) + ":", Hex(gs[i]));
      }
      next := Uint16ToHex(gs[i], out, next);
    }
    assert gs[..|gs|] == gs;
  }

  /** Groups each followed by a colon. */
  function Terminated(ts: seq<string>): string {
    if ts == [] then "" else Join(ts) + ":"
  }

  lemma {:induction false} TerminatedSnoc(ts: seq<string>, t: string)
    ensures Terminated(ts + [t]) == Terminated(ts) + t + ":"
  {
    JoinSnoc(ts, t);
  }

  /** The groups before the `::`. */
  method PutTerminated(gs: seq<nat>, out: array<char>) returns (next: nat)
    requires (forall i :: 0 <= i < |gs| ==> gs[i] < 65536) && 5 * |gs| <= out.Length
    modifies out
    ensures next <= 5 * |gs| && out[..next] == Terminated(Hexes(gs))
  {
    next := 0;
    assert Hexes(gs[..0]) == [];
    for i := 0 to |gs|
      invariant next <= 5 * i && out[..next] == Terminated(Hexes(gs[..i]))
    {
      HexesSnoc(gs, i);
      TerminatedSnoc(Hexes(gs[..i]), Hex(gs[i]));
      next := Uint16ToHex(gs[i], out, next);
      next := PutChar(out, next, ':');
    }
    assert gs[..|gs|] == gs;
  }

  /** The compressed form. */
  method PutCompressed(gs: seq<nat>, start: nat, n: nat, out: array<char>) returns (pos: nat)
    requires |gs| == 8 && (forall i :: 0 <= i < |gs| ==> gs[i] < 65536) && 2 <= n && start + n <= 8 && out.Length >= 46
    modifies out
    ensures pos <= 45 && out[..pos] == Write(CompressedText(gs, start, n))
  {
    pos := PutTerminated(gs[..start], out);
    if start == 0 {
      pos := PutChar(out, pos, ':');
    }
    pos := PutChar(out, pos, ':');
    assert out[..pos] == Join(Hexes(gs[..start])) + "::";
    pos := PutJoined(gs[start + n..], out, pos);
    WriteCompressed(gs, start, n);
  }

  lemma {:induction false} WriteCompressed(gs: seq<nat>, start: nat, n: nat)
    requires start + n <= |gs|
    ensures Write(CompressedText(gs, start, n)) == Join(Hexes(gs[..start])) + "::" + Join(Hexes(gs[start + n..]))
  {
  }

  /** The mapped block, by its first six groups. */
  predicate MappedLead(gs: seq<nat>)
    requires |gs| == 8
  {
    gs[0] == 0 && gs[1] == 0 && gs[2] == 0 && gs[3] == 0 && gs[4] == 0 && gs[5] == 0xFFFF
  }

  /** `addr_format_ipv6`: the canonical text and its terminator, in at most 46 characters. */
  method FormatIpv6(b: seq<Byte>, buf: array<char>) returns (pos: nat)
    requires |b| == 16 && buf.Length >= 46
    modifies buf
    ensures pos <= 45 && Canonical(b, buf[..pos]) && buf[pos] == '\0'
  {
    var gs := GroupsOf(b);
    MappedGroups(b);
    if MappedLead(gs) {
      pos := PutMapped(b, buf);
    } else {
      pos := PutGroups(b, gs, buf);
    }
    ghost var text := buf[..pos];
    buf[pos] := '\0';
    assert buf[..pos] == text;
  }

  /** The mapped form. */
  method PutMapped(b: seq<Byte>, buf: array<char>) returns (pos: nat)
    requires |b| == 16 && buf.Length >= 46 && Mapped(b)
    modifies buf
    ensures pos <= 45 && Canonical(b, buf[..pos])
  {
    pos := PutLead(buf);
    pos := PutDotted(b[12..], buf, pos);
  }

  /** The hexadecimal forms. */
  method PutGroups(b: seq<Byte>, gs: seq<nat>, buf: array<char>) returns (pos: nat)
    requires |b| == 16 && buf.Length >= 46 && gs == GroupsOf(b) && !Mapped(b)
    modifies buf
    ensures pos <= 45 && Canonical(b, buf[..pos])
  {
    var start, runLen := FindZeroCompress(gs);
    if start < 0 {
      pos := PutJoined(gs, buf, 0);
      assert buf[..pos] == Write(PlainText(gs));
    } else {
      pos := PutCompressed(gs, start, runLen, buf);
    }
  }

  method PutLead(buf: array<char>) returns (pos: nat)
    requires buf.Length >= 46
    modifies buf
    ensures pos == 7 && buf[..pos] == MAPPED_LEAD
  {
    buf[0], buf[1], buf[2], buf[3], buf[4], buf[5], buf[6] := ':', ':', 'f', 'f', 'f', 'f', ':';
    pos := 7;
  }

  /** Group `i` against its two bytes. */
  predicate EndsAgree(b: seq<Byte>, gs: seq<nat>, i: nat)
    requires |b| == 16 && |gs| == 8 && i < 8
  {
    && (gs[i] == 0 <==> b[2 * i] == 0 && b[2 * i + 1] == 0)
    && (gs[i] == 0xFFFF <==> b[2 * i] == 255 && b[2 * i + 1] == 255)
  }

  lemma {:induction false} GroupEnds(b: seq<Byte>, i: nat)
    requires |b| == 16 && i < 8
    ensures EndsAgree(b, GroupsOf(b), i)
  {
    assert GroupsOf(b)[i] == GroupOf(b[2 * i], b[2 * i + 1]);
  }

  lemma {:induction false} MappedByEnds(b: seq<Byte>, gs: seq<nat>)
    requires |b| == 16 && |gs| == 8 && forall i: nat :: i < 8 ==> EndsAgree(b, gs, i)
    ensures Mapped(b) <==> MappedLead(gs)
  {
    assert EndsAgree(b, gs, 0) && EndsAgree(b, gs, 1) && EndsAgree(b, gs, 2);
    assert EndsAgree(b, gs, 3) && EndsAgree(b, gs, 4) && EndsAgree(b, gs, 5);
  }

  /** The mapped block, by groups. */
  lemma {:induction false} MappedGroups(b: seq<Byte>)
    requires |b| == 16
    ensures Mapped(b) <==> MappedLead(GroupsOf(b))
  {
    forall i: nat | i < 8
      ensures EndsAgree(b, GroupsOf(b), i)
    {
      GroupEnds(b, i);
    }
    MappedByEnds(b, GroupsOf(b));
  }
}
