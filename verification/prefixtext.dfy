/** Addresses and prefixes as text: `cidr_addr_format`, `cidr_prefix_format`, `cidr_prefix_parse`. */
module PrefixText {
  import opened BitStrings
  import opened Bytes
  import opened Prefixes
  import opened Masking
  import opened PrefixArithmetic
  import opened DottedDecimal
  import opened HexGroups
  import opened AddressParser
  import opened AddressPrinter
  import opened TextLaws

  const ADDR_STR_MAX := 46
  const PREFIX_STR_MAX := 50

  // ----- Addresses -----

  /** `s` is the canonical text of `addr`. */
  ghost predicate AddressText(addr: Address, s: string)
    requires ValidAddress(addr)
  {
    if addr.family == AF_INET then s == DottedText(addr.bytes) else Canonical(addr.bytes, s)
  }

  /** `cidr_addr_format`. */
  method FormatAddress(addr: Address, buf: array<char>) returns (status: Status, pos: nat)
    requires addr.family == AF_UNSPEC || ValidAddress(addr)
    modifies buf
    ensures status == if addr.family == AF_UNSPEC || buf.Length < 46 then ErrInval else Ok
    ensures status == Ok ==> pos < 46 && AddressText(addr, buf[..pos]) && buf[pos] == '\0'
  {
    if addr.family == AF_UNSPEC || buf.Length < ADDR_STR_MAX {
      return ErrInval, 0;
    }
    if addr.family == AF_INET {
      pos := FormatIpv4(addr.bytes, buf);
    } else {
      pos := FormatIpv6(addr.bytes, buf);
    }
    status := Ok;
  }

  /** Parsing the printed form of any address gives the same address back. */
  lemma AddressRoundTrip(addr: Address, s: string)
    requires ValidAddress(addr) && AddressText(addr, s)
    ensures ParseText(s) == Some(addr)
  {
    if addr.family == AF_INET {
      Ipv4RoundTrip(addr.bytes);
    } else {
      Ipv6RoundTrip(addr.bytes, s);
    }
  }

  lemma {:induction false} JoinLength(ts: seq<string>)
    requires forall i :: 0 <= i < |ts| ==> |ts[i]| <= 4
    ensures |Join(ts)| <= 5 * |ts| - if ts == [] then 0 else 1
  {
    if ts != [] {
      JoinLength(ts[1..]);
    }
  }

  lemma {:induction false} HexesLength(gs: seq<nat>)
    requires forall i :: 0 <= i < |gs| ==> gs[i] < 65536
    ensures |Join(Hexes(gs))| <= 5 * |gs|
  {
    HexesValues(gs);
    JoinLength(Hexes(gs));
  }

  lemma {:induction false} DottedLength(b: seq<Byte>)
    requires |b| == 4
    ensures |DottedText(b)| <= 15
  {
    DotsUnrolled(b);
    DecDigits(b[0]);
    DecDigits(b[1]);
    DecDigits(b[2]);
    DecDigits(b[3]);
  }

  /** A canonical text fits 46 characters with its terminator, and holds no slash. */
  lemma {:induction false} AddressTextFits(addr: Address, s: string)
    requires ValidAddress(addr) && AddressText(addr, s)
    ensures 0 < |s| < ADDR_STR_MAX && Lacks(s, '/')
  {
    var b := addr.bytes;
    if addr.family == AF_INET {
      DottedLength(b);
      DotsLack(b, 0, '/');
      DotsHaveDot(b);
    } else {
      CanonicalFits(b, s);
    }
  }

  lemma {:induction false} CanonicalFits(b: seq<Byte>, s: string)
    requires |b| == 16 && Canonical(b, s)
    ensures 0 < |s| < ADDR_STR_MAX && Lacks(s, '/')
  {
    var gs := GroupsOf(b);
    if Mapped(b) {
      DottedLength(b[12..]);
      DotsLack(b[12..], 0, '/');
    } else if NoRun(gs) && s == Write(PlainText(gs)) {
      PlainFits(gs);
    } else {
      var start: nat, n: nat :| BestRun(gs, start, n) && s == Write(CompressedText(gs, start, n));
      CompressedFits(gs, start, n);
    }
  }

  lemma {:induction false} PlainFits(gs: seq<nat>)
    requires |gs| == 8 && forall i :: 0 <= i < |gs| ==> gs[i] < 65536
    ensures 0 < |Write(PlainText(gs))| < ADDR_STR_MAX && Lacks(Write(PlainText(gs)), '/')
  {
    HexesLength(gs);
    HexesValues(gs);
    PlainHasColon(gs);
    WriteLacks(PlainText(gs), '/');
  }

  lemma {:induction false} CompressedFits(gs: seq<nat>, start: nat, n: nat)
    requires |gs| == 8 && n >= 1 && start + n <= 8 && forall i :: 0 <= i < |gs| ==> gs[i] < 65536
    ensures 0 < |Write(CompressedText(gs, start, n))| < ADDR_STR_MAX
    ensures Lacks(Write(CompressedText(gs, start, n)), '/')
  {
    WriteCompressed(gs, start, n);
    HexesLength(gs[..start]);
    HexesLength(gs[start + n..]);
    HexesValues(gs[..start]);
    HexesValues(gs[start + n..]);
    WriteLacks(CompressedText(gs, start, n), '/');
  }

  /** A text of groups is short: four digits and a colon for each. */
  lemma {:induction false} WriteLength(t: Text, max: nat)
    requires WellFormed(t, max) && max >= 1
    ensures |Write(t)| <= 5 * max - 1 + if t.trailing then 1 else 0
  {
    JoinLength(t.before);
    JoinLength(t.after);
  }

  /** No parsable address is longer than 45 characters or holds a slash. */
  lemma {:induction false} ParsableFits(src: string, addr: Address)
    requires AddressSpelled(src, addr)
    ensures 0 < |src| < ADDR_STR_MAX && Lacks(src, '/')
  {
    var b := addr.bytes;
    if addr.family == AF_INET {
      DottedLength(b);
      DotsLack(b, 0, '/');
      DotsHaveDot(b);
    } else if PureAddress(src, b) {
      var t :| WellFormed(t, 8) && src == Write(t) && b == GroupBytes(Denotes(t, 8));
      GroupsHaveColon(t);
      WriteLength(t, 8);
      WriteLacks(t, '/');
    } else {
      var t, octets: seq<Byte> :| MixedParts(src, b, t, octets);
      WriteLength(t, 6);
      WriteLacks(t, '/');
      DottedLength(octets);
      DotsLack(octets, 0, '/');
    }
  }

  // ----- Prefixes -----

  /** `s` is the canonical text of `p`. */
  ghost predicate PrefixSpelled(p: Prefix, s: string)
    requires Proper(p)
  {
    exists t :: AddressText(Address(p.family, p.addr), t) && s == t + "/" + Dec(p.pfxlen)
  }

  /** The digits that `PutPfxlen` writes, one after the other. */
  lemma {:induction false} PfxlenDigits(v: Byte)
    ensures v >= 100 ==> Dec(v) == [DigitChar(v / 100)] + [DigitChar(v % 100 / 10)] + [DigitChar(v % 100 % 10)]
    ensures 10 <= v < 100 ==> Dec(v) == [DigitChar(v / 10)] + [DigitChar(v % 10)]
    ensures v < 10 ==> Dec(v) == [DigitChar(v)]
  {
    if v >= 100 {
      assert v / 10 / 10 == v / 100 && v / 10 % 10 == v % 100 / 10 && v % 10 == v % 100 % 10;
      assert Dec(v / 10) == [DigitChar(v / 100)] + [DigitChar(v % 100 / 10)];
    }
  }

  /** The digits of the prefix length, most significant first. */
  method PutPfxlen(pfxlen: Byte, out: array<char>, pos: nat) returns (next: nat)
    requires pos + 3 <= out.Length
    modifies out
    ensures next == pos + |Dec(pfxlen)| <= pos + 3 && out[..next] == old(out[..pos]) + Dec(pfxlen)
    ensures DecimalText(out[pos..next], pfxlen)
  {
    DecIsDecimal(Dec(pfxlen), pfxlen);
    PfxlenDigits(pfxlen);
    var val, n := pfxlen, 0;
    next := pos;
    if val >= 100 {
      next := PutChar(out, next, DigitChar(val / 100));
      val, n := val % 100, 1;
    }
    if val >= 10 || n > 0 {
      next := PutChar(out, next, DigitChar(val / 10));
      val := val % 10;
    }
    next := PutChar(out, next, DigitChar(val));
    assert out[pos..next] == out[..next][pos..] == Dec(pfxlen);
  }

  /** `cidr_prefix_format`. */
  method FormatPrefix(p: Prefix, buf: array<char>) returns (status: Status, pos: nat)
    requires UnsetOrProper(p)
    modifies buf
    ensures status == if p.family == AF_UNSPEC || buf.Length < 50 then ErrInval else Ok
    ensures status == Ok ==> pos < 50 && PrefixSpelled(p, buf[..pos]) && buf[pos] == '\0'
  {
    if p.family == AF_UNSPEC || buf.Length < PREFIX_STR_MAX {
      return ErrInval, 0;
    }
    status, pos := FormatAddress(Address(p.family, p.addr), buf);
    ghost var t := buf[..pos];
    pos := PutChar(buf, pos, '/');
    pos := PutPfxlen(p.pfxlen, buf, pos);
    assert buf[..pos] == t + "/" + Dec(p.pfxlen);
    buf[pos] := '\0';
  }

  /** Index of the last slash. */
  function LastSlash(s: string): (r: Option<nat>)
    ensures r.Some? ==> r.value < |s| && s[r.value] == '/' && forall i :: r.value < i < |s| ==> s[i] != '/'
    ensures r.None? ==> '/' !in s
  {
    if s == "" then None
    else if s[|s| - 1] == '/' then Some(|s| - 1)
    else
      assert s == s[..|s| - 1] + [s[|s| - 1]];
      LastSlash(s[..|s| - 1])
  }

  /** The address in front of the last slash. */
  function AddressPart(src: string): (r: Option<Address>)
    ensures r.Some? ==> ValidAddress(r.value)
  {
    var at := LastSlash(src);
    if at.None? || at.value == 0 || at.value >= ADDR_STR_MAX then None else ParseText(src[..at.value])
  }

  /** `parse_pfxlen`: a decimal number of at most 128; leading zeros pass. */
  function Pfxlen(s: string): Option<Byte> {
    if s != "" && AllDigits(s) && DecVal(s) <= 128 then Some(DecVal(s)) else None
  }

  function LengthPart(src: string): Option<Byte>
    requires LastSlash(src).Some?
  {
    Pfxlen(src[LastSlash(src).value + 1..])
  }

  method ParsePfxlen(s: string) returns (r: Option<Byte>)
    ensures r == Pfxlen(s)
    ensures r.Some? <==> s != "" && DigitCodes(s) && DecimalValue(s) <= 128
    ensures r.Some? ==> r.value == DecimalValue(s)
  {
    DecValByCodes(s);
    if s == "" {
      return None;
    }
    var val, p := 0, 0;
    assert s[..0] == "";
    while p < |s| && IsDigit(s[p])
      invariant 0 <= p <= |s| && AllDigits(s[..p]) && val == DecVal(s[..p]) <= 128
    {
      assert s[..p + 1][..p] == s[..p];
      val := val * 10 + DigitVal(s[p]);
      p := p + 1;
      if val > 128 {
        if AllDigits(s) {
          DecValGrows(s, p);
        }
        return None;
      }
    }
    if p != |s| {
      return None;
    }
    assert s[..|s|] == s;
    return Some(val);
  }

  method FindLastSlash(src: string) returns (r: Option<nat>)
    ensures r == LastSlash(src)
  {
    r := None;
    assert src[..0] == "";
    for p := 0 to |src|
      invariant r == LastSlash(src[..p])
    {
      assert src[..p + 1][..p] == src[..p];
      if src[p] == '/' {
        r := Some(p);
      }
    }
    assert src[..|src|] == src;
  }

  /** The caller's `cidr_prefix_t`. */
  class PrefixCell {
    var value: Prefix

    constructor (value: Prefix)
      ensures this.value == value
    {
      this.value := value;
    }
  }

  /** `cidr_prefix_parse`: the address, the length, and no host bits. Unlike its comment, a failed
      parse leaves the caller's prefix as it was. */
  method ParsePrefix(src: string, out: PrefixCell) returns (status: Status)
    modifies out
    ensures status == ParseOutcome(src)
    ensures status == Ok ==> Proper(out.value) && Parses(src, out.value)
    ensures status != Ok ==> out.value == old(out.value)
    ensures (status != Ok ==> out.value.family == AF_UNSPEC) <==>
      ParseOutcome(src) == Ok || old(out.value.family) == AF_UNSPEC
  {
    var slash := FindLastSlash(src);
    if slash.None? || slash.value == 0 {
      return ErrParse;
    }
    if slash.value >= ADDR_STR_MAX {
      return ErrParse;
    }
    var rc, parsed := ParseAddress(src[..slash.value]);
    if rc != Ok {
      return rc;
    }
    var pfxlen := ParsePfxlen(src[slash.value + 1..]);
    if pfxlen.None? {
      return ErrPfxlen;
    }
    if pfxlen.value > PfxlenMax(parsed.family) {
      return ErrPfxlen;
    }
    var bytes := new Byte[|parsed.bytes|](i requires 0 <= i < |parsed.bytes| => parsed.bytes[i]);
    assert bytes[..] == parsed.bytes;
    MaskApply(pfxlen.value, bytes);
    UnmaskedIsNetwork(bytes[..], parsed.bytes, parsed.family, pfxlen.value);
    if bytes[..] != parsed.bytes {
      return ErrHostBits;
    }
    out.value := Prefix(parsed.family, bytes[..], pfxlen.value);
    return Ok;
  }

  /** The outcome of a strict parse. */
  function ParseOutcome(src: string): Status {
    var addr := AddressPart(src);
    if addr.None? then ErrParse
    else
      var len := LengthPart(src);
      if len.None? || len.value > PfxlenMax(addr.value.family) then ErrPfxlen
      else if ValidPrefix(Prefix(addr.value.family, addr.value.bytes, len.value), |addr.value.bytes|) then Ok
      else ErrHostBits
  }

  /** How the prefix `p` may be written: an address, a slash, a decimal length with any leading zeros. */
  ghost predicate PrefixWritten(src: string, p: Prefix) {
    Proper(p) && exists head, tail :: PrefixParts(src, p, head, tail)
  }

  ghost predicate PrefixParts(src: string, p: Prefix, head: string, tail: string) {
    && src == head + "/" + tail && AddressSpelled(head, Address(p.family, p.addr))
    && tail != "" && AllDigits(tail) && DecVal(tail) == p.pfxlen
  }

  /** The text of `addr` stands in front of the last slash. */
  ghost predicate AddressBefore(src: string, addr: Address) {
    LastSlash(src).Some? && AddressSpelled(src[..LastSlash(src).value], addr)
  }

  /** The text behind the last slash. */
  function AfterSlash(src: string): string {
    if LastSlash(src).Some? then src[LastSlash(src).value + 1..] else ""
  }

  /** The length guard of `cidr_prefix_parse` never turns away an address that would parse. */
  lemma {:induction false} GuardRejectsNothing(src: string, addr: Address)
    ensures AddressPart(src) == Some(addr) <==> AddressBefore(src, addr)
  {
    if LastSlash(src).Some? {
      var head := src[..LastSlash(src).value];
      AddressLanguageIff(head, addr);
      if AddressSpelled(head, addr) {
        ParsableFits(head, addr);
      }
    }
  }

  /** `tail` is a decimal length that the family of `addr` allows. */
  ghost predicate LengthAllowed(tail: string, addr: Address) {
    tail != "" && AllDigits(tail) && DecVal(tail) <= PfxlenMax(addr.family)
  }

  /** `tail` is such a length, and the address has a bit set past it. */
  ghost predicate HostBitsSet(tail: string, addr: Address) {
    LengthAllowed(tail, addr) && exists i :: DecVal(tail) <= i < 8 * |addr.bytes| && BitsOf(addr.bytes)[i]
  }

  /** Behind an address, the length and the host bits decide. */
  lemma {:induction false} OutcomeAfterAddress(src: string, addr: Address)
    requires AddressPart(src) == Some(addr)
    ensures ParseOutcome(src) == ErrPfxlen <==> !LengthAllowed(AfterSlash(src), addr)
    ensures ParseOutcome(src) == ErrHostBits <==> HostBitsSet(AfterSlash(src), addr)
  {
    if LengthAllowed(AfterSlash(src), addr) {
      TailClear(BitsOf(addr.bytes), DecVal(AfterSlash(src)));
    }
  }

  lemma {:induction false} TailClear(bits: Bits, k: nat)
    requires k <= |bits|
    ensures bits[k..] == Repeat(false, |bits| - k) <==> forall i :: k <= i < |bits| ==> !bits[i]
  {
    forall i | k <= i < |bits|
      ensures bits[k..][i - k] == bits[i]
    {
    }
    if bits[k..] != Repeat(false, |bits| - k) {
      var j :| 0 <= j < |bits| - k && bits[k..][j];
      assert bits[k + j];
    }
  }

  /** The only address in front of the last slash decides. */
  lemma {:induction false} OnlyAddress(src: string) returns (part: Option<Address>)
    ensures part == AddressPart(src) && forall addr :: AddressBefore(src, addr) <==> part == Some(addr)
  {
    part := AddressPart(src);
    forall addr
      ensures AddressBefore(src, addr) <==> part == Some(addr)
    {
      GuardRejectsNothing(src, addr);
    }
  }

  /** A strict parse reports a parse error exactly when no address stands in front of the last slash. */
  lemma {:induction false} ParseErrorIff(src: string)
    ensures ParseOutcome(src) == ErrParse <==> forall addr :: !AddressBefore(src, addr)
  {
    var part := OnlyAddress(src);
  }

  /** A length error is reported exactly when an address stands in front of the last slash, and
      behind it no decimal length that the family allows. */
  lemma {:induction false} PfxlenErrorIff(src: string)
    ensures ParseOutcome(src) == ErrPfxlen <==>
      exists addr :: AddressBefore(src, addr) && !LengthAllowed(AfterSlash(src), addr)
  {
    var part := OnlyAddress(src);
    if part.Some? {
      OutcomeAfterAddress(src, part.value);
    }
  }

  /** A host-bits error is reported exactly when such a length follows the address, which has a bit set
      past it. */
  lemma {:induction false} HostBitsErrorIff(src: string)
    ensures ParseOutcome(src) == ErrHostBits <==>
      exists addr :: AddressBefore(src, addr) && HostBitsSet(AfterSlash(src), addr)
  {
    var part := OnlyAddress(src);
    if part.Some? {
      OutcomeAfterAddress(src, part.value);
    }
  }

  /** A strict parse accepts exactly the texts of valid prefixes, and returns the prefix they spell. */
  lemma {:induction false} PrefixLanguageIff(src: string, p: Prefix)
    ensures PrefixWritten(src, p) <==> Parses(src, p)
  {
    if PrefixWritten(src, p) {
      var head, tail :| PrefixParts(src, p, head, tail);
      WrittenParses(src, p, head, tail);
    }
    if Parses(src, p) {
      ParsesWritten(src, p);
    }
  }

  /** `cidr_prefix_parse` succeeds on `src` with the result `p` (see `ParsePrefix`). */
  predicate Parses(src: string, p: Prefix) {
    && ParseOutcome(src) == Ok && AddressPart(src) == Some(Address(p.family, p.addr))
    && LengthPart(src) == Some(p.pfxlen)
  }

  lemma {:induction false} WrittenParses(src: string, p: Prefix, head: string, tail: string)
    requires Proper(p) && PrefixParts(src, p, head, tail)
    ensures Parses(src, p)
  {
    var addr := Address(p.family, p.addr);
    DigitsLackSlash(tail);
    ParsableFits(head, addr);
    AddressLanguageIff(head, addr);
    PartsOf(head, tail, addr);
  }

  lemma {:induction false} ParsesWritten(src: string, p: Prefix)
    requires Parses(src, p)
    ensures PrefixWritten(src, p)
  {
    var at := LastSlash(src).value;
    ParsesProper(src, p);
    GuardRejectsNothing(src, Address(p.family, p.addr));
    SlashSplits(src);
    assert PrefixParts(src, p, src[..at], AfterSlash(src));
  }

  lemma {:induction false} SlashSplits(src: string)
    requires LastSlash(src).Some?
    ensures src == src[..LastSlash(src).value] + "/" + AfterSlash(src)
  {
  }

  lemma {:induction false} ParsesProper(src: string, p: Prefix)
    requires Parses(src, p)
    ensures Proper(p) && AfterSlash(src) != "" && AllDigits(AfterSlash(src)) && DecVal(AfterSlash(src)) == p.pfxlen
  {
  }

  lemma DigitsLackSlash(s: string)
    requires AllDigits(s)
    ensures Lacks(s, '/')
  {
  }

  /** A strict parse that gets as far as the host bits succeeds exactly when the address is the one
      that `cidr_prefix_from_host` would build from it. */
  lemma StrictIffFromHost(src: string, q: Prefix)
    requires AddressPart(src).Some? && LengthPart(src).Some? && ParseOutcome(src) != ErrPfxlen
    requires var a := AddressPart(src).value;
      Proper(q) && q.family == a.family && q.pfxlen == LengthPart(src).value && Contains(q, a.bytes)
    ensures ParseOutcome(src) == Ok <==> q.addr == AddressPart(src).value.bytes
  {
    var a, len := AddressPart(src).value, LengthPart(src).value;
    var p := Prefix(a.family, a.bytes, len);
    if ValidPrefix(p, |a.bytes|) {
      HostPrefixUnique(p, q, |a.bytes|, a.bytes);
    }
  }

  lemma {:induction false} LastSlashAt(head: string, tail: string)
    requires Lacks(tail, '/')
    ensures LastSlash(head + "/" + tail) == Some(|head|)
  {
    var s := head + "/" + tail;
    assert s[|head|] == '/';
    assert forall i :: |head| < i < |s| ==> s[i] == tail[i - |head| - 1];
  }

  /** The two parts of a text around its slash. */
  lemma {:induction false} PartsOf(head: string, tail: string, addr: Address)
    requires 0 < |head| < ADDR_STR_MAX && Lacks(tail, '/') && ParseText(head) == Some(addr)
    ensures LastSlash(head + "/" + tail).Some?
    ensures AddressPart(head + "/" + tail) == Some(addr) && LengthPart(head + "/" + tail) == Pfxlen(tail)
  {
    var s := head + "/" + tail;
    LastSlashAt(head, tail);
    assert s[..|head|] == head && s[|head| + 1..] == tail;
  }

  lemma {:induction false} PfxlenOfDec(v: Byte)
    requires v <= 128
    ensures Pfxlen(Dec(v)) == Some(v) && Lacks(Dec(v), '/')
  {
    DecValOfDec(v);
  }

  /** Parsing the printed form of any prefix gives the same prefix back. */
  lemma {:induction false} PrefixRoundTrip(p: Prefix, s: string)
    requires Proper(p) && PrefixSpelled(p, s)
    ensures ParseOutcome(s) == Ok && AddressPart(s) == Some(Address(p.family, p.addr))
    ensures LengthPart(s) == Some(p.pfxlen)
  {
    var addr := Address(p.family, p.addr);
    var t :| AddressText(addr, t) && s == t + "/" + Dec(p.pfxlen);
    AddressTextFits(addr, t);
    AddressRoundTrip(addr, t);
    PfxlenOfDec(p.pfxlen);
    PartsOf(t, Dec(p.pfxlen), addr);
  }
}
