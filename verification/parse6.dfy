/** `addr_parse_ipv6` and `cidr_addr_parse`.

The loops over characters keep the groups before and after the double colon in fixed arrays; each
is proved against its scan of the text in `hextext.dfy`. */
module AddressParser {
  import opened BitStrings
  import opened Bytes
  import opened Prefixes
  import opened DottedDecimal
  import opened HexGroups

  // ----- Reading a group -----

  lemma {:induction false} HexRunCovers(s: string, k: nat)
    requires k < |s| && k <= HexRun(s) && IsHex(s[k])
    ensures k < HexRun(s) && AllHex(s[..k + 1])
  {
    var n := HexRun(s);
    assert forall i :: 0 <= i < k ==> s[i] == s[..n][i];
  }

  lemma {:induction false} OneHexDigit(s: string, k: nat)
    requires k < |s| && k <= HexRun(s) && IsHex(s[k])
    ensures k < HexRun(s) && AllHex(s[..k]) && AllHex(s[..k + 1])
    ensures HexNum(s[..k + 1]) == HexNum(s[..k]) * 16 + HexVal(s[k])
  {
    HexRunCovers(s, k);
    assert s[..k + 1][..k] == s[..k];
  }

  lemma {:induction false} OneMorePlace(value: nat, d: nat, n: nat)
    requires d < 16
    ensures n < 4 && value < HexLimit(n) ==> (value * 16 + d) % 65536 == value * 16 + d < HexLimit(n + 1)
  {
  }

  lemma {:induction false} HexRunStops(s: string, k: nat)
    requires k <= HexRun(s) && (k < |s| ==> !IsHex(s[k]))
    ensures k == HexRun(s)
  {
  }

  /** The numbers that `n` hex digits spell. */
  function HexLimit(n: nat): nat {
    if n == 0 then 1 else if n == 1 then 16 else if n == 2 then 256 else if n == 3 then 4096 else 65536
  }

  /** The digit loop: `uint16_t` arithmetic, wrapping beyond four digits. */
  method ReadGroup(src: string, start: nat, end: nat, ghost s: string) returns (value: nat, digitCount: nat, p: nat)
    requires start <= end <= |src| && s == src[start..end]
    ensures digitCount == HexRun(s) && p == start + digitCount
    ensures GroupFirst(s) ==> value == GroupVal(s) < 65536
    ensures HexCodes(src[start..p]) && (p < end ==> !HexCode(src[p]))
    ensures digitCount <= 4 ==> value == HexValue(src[start..p])
  {
    value, digitCount, p := 0, 0, start;
    while p < end && IsHex(src[p])
      invariant start <= p <= end && digitCount == p - start <= HexRun(s)
      invariant digitCount <= 4 ==> value == HexNum(s[..digitCount]) < HexLimit(digitCount)
    {
      assert src[p] == s[digitCount];
      OneHexDigit(s, digitCount);
      OneMorePlace(value, HexVal(src[p]), digitCount);
      value := (value * 16 + HexVal(src[p])) % 65536;
      digitCount, p := digitCount + 1, p + 1;
    }
    assert p < end ==> src[p] == s[digitCount];
    HexRunStops(s, digitCount);
    GroupByCodes(src, start, end, p, s);
  }

  lemma {:induction false} GroupByCodes(src: string, start: nat, end: nat, p: nat, s: string)
    requires start <= p <= end <= |src| && s == src[start..end] && p - start == HexRun(s)
    ensures HexCodes(src[start..p]) && (p < end ==> !HexCode(src[p]))
    ensures HexNum(s[..p - start]) == HexValue(src[start..p])
  {
    assert src[start..p] == s[..p - start];
    assert p < end ==> src[p] == s[p - start];
    HexNumByCodes(src[start..p]);
  }

  // ----- The two group loops -----

  /** `before[before_count++] = value` or the same for `after`, when there is room. */
  method StoreGroup(before: array<nat>, beforeCount: nat, after: array<nat>, afterCount: nat, hasCc: bool,
      maxGroups: nat, value: nat) returns (ok: bool, beforeCount': nat, afterCount': nat)
    requires before != after && beforeCount <= maxGroups <= before.Length && afterCount <= maxGroups <= after.Length
    modifies before, after
    ensures ok <==> if hasCc then afterCount < maxGroups else beforeCount < maxGroups
    ensures beforeCount' <= maxGroups && afterCount' <= maxGroups
    ensures ok ==> (Seen(hasCc, before[..beforeCount'], after[..afterCount'])
      == Add(Seen(hasCc, old(before[..beforeCount]), old(after[..afterCount])), value))
  {
    ok, beforeCount', afterCount' := true, beforeCount, afterCount;
    if hasCc {
      if afterCount >= maxGroups {
        ok := false;
        return;
      }
      after[afterCount] := value;
      afterCount' := afterCount + 1;
    } else {
      if beforeCount >= maxGroups {
        ok := false;
        return;
      }
      before[beforeCount] := value;
      beforeCount' := beforeCount + 1;
    }
  }

  /** The separator after a group in the pure path; `rest` is what is left there. */
  method SkipSeparator(src: string, p: nat, ghost rest: string, ghost st: Seen) returns (ok: bool, q: nat)
    requires p <= |src| && rest == src[p..]
    ensures p <= q <= |src| && (ok <==> rest == "" || rest[0] == ':')
    ensures AfterGroup(rest, false, st) == if ok then Scan(src[q..], false, st) else None
  {
    ok, q := true, p;
    if p < |src| {
      if src[p] != ':' {
        ok := false;
        return;
      }
      if !(p + 1 < |src| && src[p + 1] == ':') {
        q := p + 1;
        assert rest[1..] == src[q..];
      }
    }
  }

  /** The loop of the pure path. */
  method ScanPure(src: string) returns (r: Option<Seen>)
    ensures r == Scan(src, false, NOTHING)
  {
    var before, after := new nat[8], new nat[8];
    var p, hasCc, beforeCount, afterCount := 0, false, 0, 0;
    ghost var st := NOTHING;
    assert src[0..] == src;
    while p < |src|
      invariant 0 <= p <= |src| && 0 <= beforeCount <= 8 && 0 <= afterCount <= 8 && before != after
      invariant st == Seen(hasCc, before[..beforeCount], after[..afterCount])
      invariant Scan(src, false, NOTHING) == Scan(src[p..], false, st)
    {
      ghost var s := src[p..];
      if src[p] == ':' && p + 1 < |src| && src[p + 1] == ':' {
        if hasCc {
          return None;
        }
        hasCc := true;
        p := p + 2;
        st := st.(cc := true);
        assert s[2..] == src[p..];
        continue;
      }
      var value, digitCount, q := ReadGroup(src, p, |src|, s);
      if digitCount < 1 || digitCount > 4 {
        return None;
      }
      var ok;
      ok, beforeCount, afterCount := StoreGroup(before, beforeCount, after, afterCount, hasCc, 8, value);
      if !ok {
        return None;
      }
      ghost var rest := s[digitCount..];
      assert rest == src[q..];
      st := Add(st, value);
      ok, p := SkipSeparator(src, q, rest, st);
      if !ok {
        return None;
      }
    }
    return Some(Seen(hasCc, before[..beforeCount], after[..afterCount]));
  }

  /** The separator after a group in the mixed path. */
  method SkipMixed(src: string, hexEnd: nat, p: nat, ghost rest: string, ghost st: Seen) returns (ok: bool, q: nat)
    requires p <= hexEnd <= |src| && rest == src[p..hexEnd]
    ensures p <= q <= hexEnd && (ok <==> rest == "" || rest[0] == ':')
    ensures AfterGroup(rest, true, st) == if ok then Scan(src[q..hexEnd], true, st) else None
  {
    ok, q := true, p;
    if p < hexEnd {
      if src[p] != ':' {
        ok := false;
        return;
      }
      if !(p + 1 < hexEnd && src[p + 1] == ':') && p + 1 != hexEnd {
        q := p + 1;
        assert rest[1..] == src[q..hexEnd];
      }
    }
  }

  /** A leading colon in the mixed path: the `::`, or its first half at the boundary. */
  method TakeColons(src: string, hexEnd: nat, p: nat, hasCc: bool, ghost s: string, ghost st: Seen) returns (ok: bool,
      q: nat)
    requires p < hexEnd <= |src| && s == src[p..hexEnd] && src[p] == ':' && st.cc == hasCc
    ensures p < q <= hexEnd
    ensures Scan(s, true, st) == if ok then Scan(src[q..hexEnd], true, st.(cc := true)) else None
  {
    assert s[0] == ':' && (p + 1 < hexEnd ==> src[p + 1] == s[1]);
    if p + 1 < hexEnd && src[p + 1] == ':' {
      assert s[2..] == src[p + 2..hexEnd];
      return !hasCc, p + 2;
    }
    if p + 1 == hexEnd {
      assert s == ":";
      return !hasCc, p + 1;
    }
    return false, p + 1;
  }

  /** The loop of the mixed path, over the part before the last colon. */
  method ScanMixed(src: string, hexEnd: nat) returns (r: Option<Seen>)
    requires hexEnd <= |src|
    ensures r == Scan(src[..hexEnd], true, NOTHING)
  {
    var before, after := new nat[8], new nat[8];
    var p, hasCc, beforeCount, afterCount := 0, false, 0, 0;
    ghost var st := NOTHING;
    assert src[0..hexEnd] == src[..hexEnd];
    while p < hexEnd
      invariant 0 <= p <= hexEnd && 0 <= beforeCount <= 6 && 0 <= afterCount <= 6 && before != after
      invariant st == Seen(hasCc, before[..beforeCount], after[..afterCount])
      invariant Scan(src[..hexEnd], true, NOTHING) == Scan(src[p..hexEnd], true, st)
    {
      ghost var s := src[p..hexEnd];
      var ok;
      if src[p] == ':' {
        ok, p := TakeColons(src, hexEnd, p, hasCc, s, st);
        if !ok {
          return None;
        }
        hasCc := true;
        st := st.(cc := true);
        continue;
      }
      var value, digitCount, q := ReadGroup(src, p, hexEnd, s);
      if digitCount < 1 || digitCount > 4 {
        return None;
      }
      ok, beforeCount, afterCount := StoreGroup(before, beforeCount, after, afterCount, hasCc, 6, value);
      if !ok {
        return None;
      }
      ghost var rest := s[digitCount..];
      assert rest == src[q..hexEnd];
      st := Add(st, value);
      ok, p := SkipMixed(src, hexEnd, q, rest, st);
      if !ok {
        return None;
      }
    }
    return Some(Seen(hasCc, before[..beforeCount], after[..afterCount]));
  }

  // ----- Building the bytes -----

  /** The groups in network byte order. */
  function GroupBytes(gs: seq<nat>): (b: seq<Byte>)
    ensures |b| == 2 * |gs|
  {
    if gs == [] then []
    else
      var g := gs[|gs| - 1];
      GroupBytes(gs[..|gs| - 1]) + [g / 256 % 256, g % 256]
  }

  lemma {:induction false} GroupBytesSnoc(gs: seq<nat>, g: nat)
    ensures GroupBytes(gs + [g]) == GroupBytes(gs) + [g / 256 % 256, g % 256]
  {
    assert (gs + [g])[..|gs|] == gs;
  }

  lemma {:induction false} GroupBytesConcat(a: seq<nat>, b: seq<nat>)
    ensures GroupBytes(a + b) == GroupBytes(a) + GroupBytes(b)
  {
    if b == [] {
      assert a + b == a;
    } else {
      var n := |b| - 1;
      GroupBytesConcat(a, b[..n]);
      GroupBytesSnoc(a + b[..n], b[n]);
      assert a + b == a + b[..n] + [b[n]];
    }
  }

  /** One of the three copy loops: the bytes of some groups from `byteIdx` on. */
  method PutGroups(gs: seq<nat>, out: array<Byte>, byteIdx: nat) returns (next: nat)
    requires byteIdx + 2 * |gs| <= out.Length
    modifies out
    ensures next == byteIdx + 2 * |gs| && out[..next] == old(out[..byteIdx]) + GroupBytes(gs)
  {
    next := byteIdx;
    ghost var head := out[..byteIdx];
    assert gs[..0] == [];
    for i := 0 to |gs|
      invariant next == byteIdx + 2 * i && out[..next] == head + GroupBytes(gs[..i])
    {
      assert gs[..i + 1] == gs[..i] + [gs[i]];
      GroupBytesSnoc(gs[..i], gs[i]);
      out[next], out[next + 1] := gs[i] / 256 % 256, gs[i] % 256;
      next := next + 2;
    }
    assert gs[..|gs|] == gs;
  }

  /** The group count check and the three copy loops. */
  method BuildBytes(st: Seen, max: nat, out: array<Byte>) returns (ok: bool)
    requires 2 * max <= out.Length
    modifies out
    ensures ok <==> Expand(st, max).Some?
    ensures ok ==> out[..2 * max] == GroupBytes(Expand(st, max).value)
  {
    var totalExplicit := |st.before| + |st.after|;
    if (if st.cc then totalExplicit >= max else totalExplicit != max) {
      return false;
    }
    var zeros := seq(max - totalExplicit, _ => 0);
    ExpandBytes(st, max, zeros);
    var byteIdx := PutGroups(st.before, out, 0);
    byteIdx := PutGroups(zeros, out, byteIdx);
    byteIdx := PutGroups(st.after, out, byteIdx);
    ok := true;
  }

  lemma {:induction false} ExpandBytes(st: Seen, max: nat, zeros: seq<nat>)
    requires Expand(st, max).Some? && |zeros| == max - |st.before| - |st.after| && forall i :: 0 <= i < |zeros| ==>
      zeros[i] == 0
    ensures GroupBytes(Expand(st, max).value) == [] + GroupBytes(st.before) + GroupBytes(zeros) + GroupBytes(st.after)
  {
    assert zeros == ZeroGroups(max - (|st.before| + |st.after|));
    GroupBytesConcat(st.before + zeros, st.after);
    GroupBytesConcat(st.before, zeros);
  }

  // ----- The whole parser -----

  /** Index of the last colon. */
  function LastColon(s: string): (r: Option<nat>)
    ensures r.Some? ==> r.value < |s| && s[r.value] == ':' && forall i :: r.value < i < |s| ==> s[i] != ':'
    ensures r.None? ==> ':' !in s
  {
    if s == "" then None
    else if s[|s| - 1] == ':' then Some(|s| - 1)
    else
      assert s == s[..|s| - 1] + [s[|s| - 1]];
      LastColon(s[..|s| - 1])
  }

  /** The IPv4-mapped block ::ffff:0:0/96. */
  predicate Mapped(b: seq<Byte>) {
    |b| == 16 && (forall i :: 0 <= i < 10 ==> b[i] == 0) && b[10] == 255 && b[11] == 255
  }

  /** The tail after the last colon holds a dot: the mixed form. */
  predicate IsMixed(src: string) {
    LastColon(src).Some? && '.' in src[LastColon(src).value + 1..]
  }

  function ParseMixedText(src: string): (r: Option<seq<Byte>>)
    requires IsMixed(src)
  {
    var at := LastColon(src).value;
    var tail, groups := ScanOctets(src[at + 1..], []), ParseGroups(src[..at], true);
    if tail.None? || groups.None? then None
    else
      var b := GroupBytes(groups.value) + tail.value;
      if Mapped(b) then Some(b) else None
  }

  function ParseIpv6Text(src: string): (r: Option<seq<Byte>>) {
    if IsMixed(src) then ParseMixedText(src)
    else
      var groups := ParseGroups(src, false);
      if groups.None? then None else Some(GroupBytes(groups.value))
  }

  method FindLastColon(src: string) returns (r: Option<nat>)
    ensures r == LastColon(src)
  {
    r := None;
    assert src[..0] == "";
    for p := 0 to |src|
      invariant r == LastColon(src[..p])
    {
      assert src[..p + 1][..p] == src[..p];
      if src[p] == ':' {
        r := Some(p);
      }
    }
    assert src[..|src|] == src;
  }

  /** `is_mixed_suffix`. */
  method IsMixedSuffix(s: string) returns (r: bool)
    ensures r <==> '.' in s
  {
    for i := 0 to |s|
      invariant '.' !in s[..i]
    {
      if s[i] == '.' {
        return true;
      }
      assert s[..i + 1] == s[..i] + [s[i]];
    }
    assert s[..|s|] == s;
    return false;
  }

  /** The mixed path of `addr_parse_ipv6`. */
  method ParseMixed(src: string, lastColon: nat) returns (r: Option<seq<Byte>>)
    requires IsMixed(src) && LastColon(src) == Some(lastColon)
    ensures r == ParseMixedText(src)
  {
    var octets := ParseDotted(src[lastColon + 1..]);
    if octets.None? {
      return None;
    }
    var st := ScanMixed(src, lastColon);
    if st.None? {
      return None;
    }
    var out := new Byte[16];
    var ok := BuildBytes(st.value, 6, out);
    if !ok {
      return None;
    }
    PutTail(out, octets.value);
    ok := CheckMapped(out);
    if !ok {
      return None;
    }
    return Some(out[..]);
  }

  /** The last four bytes. */
  method PutTail(out: array<Byte>, octets: seq<Byte>)
    requires out.Length == 16 && |octets| == 4
    modifies out
    ensures out[..] == old(out[..12]) + octets
  {
    out[12], out[13], out[14], out[15] := octets[0], octets[1], octets[2], octets[3];
  }

  /** The check of the IPv4-mapped prefix. */
  method CheckMapped(out: array<Byte>) returns (ok: bool)
    requires out.Length == 16
    ensures ok <==> Mapped(out[..])
  {
    for i := 0 to 10
      invariant forall k :: 0 <= k < i ==> out[k] == 0
    {
      if out[i] != 0 {
        assert out[..][i] != 0;
        return false;
      }
    }
    return out[10] == 255 && out[11] == 255;
  }

  /** `addr_parse_ipv6`. */
  method ParseIpv6(src: string) returns (r: Option<seq<Byte>>)
    ensures r == ParseIpv6Text(src)
  {
    var lastColon := FindLastColon(src);
    if lastColon.Some? {
      var mixed := IsMixedSuffix(src[lastColon.value + 1..]);
      if mixed {
        r := ParseMixed(src, lastColon.value);
        return;
      }
    }
    var st := ScanPure(src);
    if st.None? {
      return None;
    }
    var out := new Byte[16];
    var ok := BuildBytes(st.value, 8, out);
    if !ok {
      return None;
    }
    assert out[..] == out[..16];
    return Some(out[..]);
  }

  /** What `cidr_addr_parse` makes of a text: a colon means IPv6. */
  function ParseText(src: string): (r: Option<Address>)
    ensures r.Some? ==> ValidAddress(r.value)
  {
    if ':' in src then
      var b := ParseIpv6Text(src);
      if b.None? then None else Some(Address(AF_INET6, b.value))
    else
      var b := ScanOctets(src, []);
      if b.None? then None else Some(Address(AF_INET, b.value))
  }

  /** `cidr_addr_parse`. */
  method ParseAddress(src: string) returns (status: Status, out: Address)
    ensures status == if ParseText(src).Some? then Ok else ErrParse
    ensures out == if ParseText(src).Some? then ParseText(src).value else Address(AF_UNSPEC, [])
  {
    status, out := ErrParse, Address(AF_UNSPEC, []);
    var v6 := false;
    for p := 0 to |src|
      invariant !v6 && ':' !in src[..p]
    {
      if src[p] == ':' {
        v6 := true;
        break;
      }
      assert src[..p + 1] == src[..p] + [src[p]];
    }
    assert src[..|src|] == src;
    var b;
    if v6 {
      b := ParseIpv6(src);
    } else {
      b := ParseDotted(src);
    }
    if b.Some? {
      status, out := Ok, Address(if v6 then AF_INET6 else AF_INET, b.value);
    }
  }
}
