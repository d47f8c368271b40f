/** Decimal numbers and dotted-decimal IPv4 text: `uint8_to_dec`, `addr_format_ipv4`,
`addr_parse_ipv4` and its twin `ipv4_suffix_parse`.

The scan is a function on the text; the loops over characters are proved against it, and the texts
it accepts are exactly the canonical ones. */
module DottedDecimal {
  import opened BitStrings
  import opened Bytes

  // ----- Decimal numbers -----

  predicate IsDigit(c: char) {
    '0' <= c <= '9'
  }

  function DigitVal(c: char): (d: nat)
    requires IsDigit(c)
    ensures d < 10
  {
    (c as int) - ('0' as int)
  }

  function DigitChar(d: nat): (c: char)
    requires d < 10
    ensures IsDigit(c) && DigitVal(c) == d
  {
    (('0' as int) + d) as char
  }

  predicate AllDigits(s: string) {
    forall i :: 0 <= i < |s| ==> IsDigit(s[i])
  }

  /** The number a digit string spells. */
  function DecVal(s: string): nat
    requires AllDigits(s)
  {
    if s == "" then 0 else 10 * DecVal(s[..|s| - 1]) + DigitVal(s[|s| - 1])
  }

  /** The decimal form of a number, without leading zeros. */
  function Dec(v: nat): (s: string)
    ensures |s| >= 1 && AllDigits(s) && (s[0] == '0' ==> v == 0)
  {
    if v < 10 then [DigitChar(v)] else Dec(v / 10) + [DigitChar(v % 10)]
  }

  lemma {:induction false} DecValOfDec(v: nat)
    ensures DecVal(Dec(v)) == v
  {
    if v < 10 {
      assert Dec(v)[..0] == "";
    } else {
      DecValOfDec(v / 10);
      assert Dec(v)[..|Dec(v)| - 1] == Dec(v / 10);
    }
  }

  /** A digit string without a leading zero. */
  predicate Strict(s: string) {
    |s| >= 1 && AllDigits(s) && (s[0] == '0' ==> |s| == 1)
  }

  lemma {:induction false} StrictPositive(s: string)
    requires Strict(s) && s != "0"
    ensures DecVal(s) >= 1
  {
    if |s| == 1 {
      assert s == [s[0]] && s[..0] == "";
    } else {
      assert s[..|s| - 1][0] == s[0];
      StrictPositive(s[..|s| - 1]);
    }
  }

  /** A digit string without a leading zero is the decimal form of its value. */
  lemma {:induction false} DecOfStrict(s: string)
    requires Strict(s)
    ensures Dec(DecVal(s)) == s
  {
    var n := |s| - 1;
    if n == 0 {
      assert s[..0] == "" && s == [s[0]];
    } else {
      assert s[..n][0] == s[0];
      StrictPositive(s[..n]);
      DecOfStrict(s[..n]);
      assert s == s[..n] + [s[n]];
    }
  }

  // ----- Decimal numbers by character codes -----

  predicate DigitCode(c: char) {
    48 <= c as int <= 57
  }

  predicate DigitCodes(t: string) {
    forall i :: 0 <= i < |t| ==> DigitCode(t[i])
  }

  /** Every character less the code of zero. */
  function DecCodes(t: string): (ds: seq<int>)
    ensures |ds| == |t|
  {
    seq(|t|, i requires 0 <= i < |t| => t[i] as int - 48)
  }

  /** The number a text spells, by the codes of its characters. */
  function DecimalValue(t: string): int {
    PlaceSum(10, DecCodes(t), |t|)
  }

  /** `t` is the shortest decimal form of `v`. */
  predicate DecimalText(t: string, v: nat) {
    |t| >= 1 && DigitCodes(t) && (t[0] as int == 48 ==> |t| == 1) && DecimalValue(t) == v
  }

  lemma {:induction false} DecimalValueSnoc(t: string)
    requires t != ""
    ensures DecimalValue(t) == 10 * DecimalValue(t[..|t| - 1]) + (t[|t| - 1] as int - 48)
  {
    PlaceSumSnoc(10, DecCodes(t), |t| - 1);
    assert DecCodes(t)[..|t| - 1] == DecCodes(t[..|t| - 1]);
  }

  /** The value of a digit string is the place-value sum of its character codes. */
  lemma {:induction false} DecValByCodes(t: string)
    ensures AllDigits(t) <==> DigitCodes(t)
    ensures AllDigits(t) ==> DecVal(t) == DecimalValue(t)
  {
    assert forall i :: 0 <= i < |t| ==> (IsDigit(t[i]) <==> DigitCode(t[i]));
    if AllDigits(t) && t != "" {
      DecValByCodes(t[..|t| - 1]);
      DecimalValueSnoc(t);
    }
  }

  /** The decimal form of a number is its shortest form in digits, by character codes. */
  lemma {:induction false} DecIsDecimal(t: string, v: nat)
    ensures t == Dec(v) <==> DecimalText(t, v)
  {
    DecValByCodes(t);
    if t == Dec(v) {
      DecValOfDec(v);
    }
    if DecimalText(t, v) {
      DecOfStrict(t);
    }
  }

  /** The digits of a number below 1000. */
  lemma {:induction false} DecDigits(v: nat)
    requires v < 1000
    ensures Dec(v) ==
      if v >= 100 then [DigitChar(v / 100)] + [DigitChar(v / 10 % 10)] + [DigitChar(v % 10)]
      else if v >= 10 then [DigitChar(v / 10)] + [DigitChar(v % 10)]
      else [DigitChar(v % 10)]
  {
    if v >= 100 {
      assert v / 10 / 10 == v / 100;
      assert Dec(v / 10) == Dec(v / 100) + [DigitChar(v / 10 % 10)];
    }
  }

  /** Length of the run of digits at the start of a string. */
  function DigitRun(s: string): (n: nat)
    ensures n <= |s| && AllDigits(s[..n]) && (n < |s| ==> !IsDigit(s[n]))
  {
    if s == "" || !IsDigit(s[0]) then 0
    else
      var n := 1 + DigitRun(s[1..]);
      assert s[..n] == [s[0]] + s[1..][..n - 1];
      n
  }

  lemma {:induction false} RunIs(d: string, rest: string)
    requires AllDigits(d) && (rest == "" || !IsDigit(rest[0]))
    ensures DigitRun(d + rest) == |d|
  {
    if d == "" {
      assert d + rest == rest;
    } else {
      RunIs(d[1..], rest);
      assert (d + rest)[1..] == d[1..] + rest;
    }
  }

  // ----- Dotted decimal -----

  /** Octets `k` on, separated by dots. */
  function DotsFrom(b: seq<Byte>, k: nat): string
    requires k < |b|
    decreases |b| - k
  {
    if k + 1 == |b| then Dec(b[k]) else Dec(b[k]) + "." + DotsFrom(b, k + 1)
  }

  /** The canonical text of four octets. */
  function DottedText(b: seq<Byte>): string
    requires |b| == 4
  {
    DotsFrom(b, 0)
  }

  /** The text starts with an octet: a run of digits, no leading zero, at most 255. */
  predicate OctetFirst(s: string) {
    var n := DigitRun(s);
    n > 0 && Strict(s[..n]) && DecVal(s[..n]) <= 255
  }

  function OctetVal(s: string): Byte
    requires OctetFirst(s)
  {
    DecVal(s[..DigitRun(s)])
  }

  /** The octet loop of the parsers, on the rest of the text and the octets read so far. */
  function ScanOctets(s: string, octets: seq<Byte>): (r: Option<seq<Byte>>)
    ensures r.Some? ==> |r.value| == 4
    decreases |s|
  {
    if s == "" then (if |octets| == 4 then Some(octets) else None)
    else if !OctetFirst(s) || |octets| >= 4 then None
    else
      var n, more := DigitRun(s), octets + [OctetVal(s)];
      if n == |s| then ScanOctets("", more)
      else if s[n] == '.' && n + 1 < |s| then ScanOctets(s[n + 1..], more)
      else None
  }

  /** A text starts with an octet exactly when its first digits, all of them, are the shortest decimal form
      of a byte. */
  lemma {:induction false} OctetFirstIff(s: string)
    ensures OctetFirst(s) <==>
      exists n: nat, v: Byte :: n <= |s| && DecimalText(s[..n], v) && (n < |s| ==> !DigitCode(s[n]))
    ensures OctetFirst(s) ==> DecimalText(s[..DigitRun(s)], OctetVal(s))
  {
    var n := DigitRun(s);
    DecValByCodes(s[..n]);
    if OctetFirst(s) {
      assert DecimalText(s[..n], OctetVal(s)) && (n < |s| ==> !DigitCode(s[n]));
    }
    if m: nat, v: Byte :| m <= |s| && DecimalText(s[..m], v) && (m < |s| ==> !DigitCode(s[m])) {
      DecValByCodes(s[..m]);
      assert s == s[..m] + s[m..];
      RunIs(s[..m], s[m..]);
    }
  }

  /** `s` is four shortest decimal forms with dots between them. */
  ghost predicate DottedQuad(s: string, b: seq<Byte>)
    requires |b| == 4
  {
    exists t0, t1, t2, t3 :: QuadParts(s, b, t0, t1, t2, t3)
  }

  ghost predicate QuadParts(s: string, b: seq<Byte>, t0: string, t1: string, t2: string, t3: string)
    requires |b| == 4
  {
    && s == t0 + "." + t1 + "." + t2 + "." + t3
    && DecimalText(t0, b[0]) && DecimalText(t1, b[1]) && DecimalText(t2, b[2]) && DecimalText(t3, b[3])
  }

  lemma {:induction false} DottedIsQuad(s: string, b: seq<Byte>)
    requires |b| == 4
    ensures s == DottedText(b) <==> DottedQuad(s, b)
  {
    DotsUnrolled(b);
    DecIsDecimal(Dec(b[0]), b[0]);
    DecIsDecimal(Dec(b[1]), b[1]);
    DecIsDecimal(Dec(b[2]), b[2]);
    DecIsDecimal(Dec(b[3]), b[3]);
    if s == DottedText(b) {
      assert QuadParts(s, b, Dec(b[0]), Dec(b[1]), Dec(b[2]), Dec(b[3]));
    }
    if t0, t1, t2, t3 :| QuadParts(s, b, t0, t1, t2, t3) {
      DecIsDecimal(t0, b[0]);
      DecIsDecimal(t1, b[1]);
      DecIsDecimal(t2, b[2]);
      DecIsDecimal(t3, b[3]);
    }
  }

  lemma {:induction false} OctetIsDec(s: string)
    requires OctetFirst(s)
    ensures s[..DigitRun(s)] == Dec(OctetVal(s))
  {
    DecOfStrict(s[..DigitRun(s)]);
  }

  lemma {:induction false} DotsJoin(s: string, n: nat, b: seq<Byte>, k: nat)
    requires k + 1 < |b| && n < |s| && s[..n] == Dec(b[k]) && s[n] == '.' && s[n + 1..] == DotsFrom(b, k + 1)
    ensures s == DotsFrom(b, k)
  {
    assert s == s[..n] + "." + s[n + 1..];
  }

  /** Whatever the octet loop accepts is the dotted text of the octets it adds. */
  lemma {:induction false} ScanIsDots(s: string, octets: seq<Byte>, b: seq<Byte>)
    requires s != "" && ScanOctets(s, octets) == Some(b)
    ensures |b| == 4 && |octets| < 4 && octets <= b && s == DotsFrom(b, |octets|)
    decreases |s|
  {
    var n, more: seq<Byte> := DigitRun(s), octets + [OctetVal(s)];
    OctetIsDec(s);
    if n == |s| {
      assert ScanOctets("", more) == Some(more);
      assert s[..n] == s;
    } else {
      ScanIsDots(s[n + 1..], more, b);
      MoreAgrees(octets, OctetVal(s), b);
      DotsJoin(s, n, b, |octets|);
    }
  }

  lemma MoreAgrees(octets: seq<Byte>, v: Byte, b: seq<Byte>)
    requires octets + [v] <= b
    ensures octets <= b && b[|octets|] == v
  {
    assert b[|octets|] == (octets + [v])[|octets|];
  }

  /** The octet loop accepts the dotted text of any octets. */
  lemma {:induction false} DotsScan(b: seq<Byte>, k: nat)
    requires |b| == 4 && k < 4
    ensures ScanOctets(DotsFrom(b, k), b[..k]) == Some(b)
    decreases 4 - k
  {
    assert b[..k] + [b[k]] == b[..k + 1];
    if k == 3 {
      ScanLast(b[3], b[..3]);
      assert b[..4] == b;
    } else {
      var rest := DotsFrom(b, k + 1);
      assert DotsFrom(b, k) == Dec(b[k]) + ("." + rest);
      DotsNonempty(b, k + 1);
      ScanStep(b[k], rest, b[..k]);
      DotsScan(b, k + 1);
    }
  }

  lemma {:induction false} ScanLast(v: Byte, octets: seq<Byte>)
    requires |octets| == 3
    ensures ScanOctets(Dec(v), octets) == Some(octets + [v])
  {
    var d := Dec(v);
    DecValOfDec(v);
    StrictDec(v);
    RunIs(d, "");
    assert d == d + "" && d[..|d|] == d;
  }

  lemma {:induction false} ScanStep(v: Byte, rest: string, octets: seq<Byte>)
    requires |octets| < 4 && rest != ""
    ensures ScanOctets(Dec(v) + ("." + rest), octets) == ScanOctets(rest, octets + [v])
  {
    var d, s := Dec(v), Dec(v) + ("." + rest);
    DecValOfDec(v);
    StrictDec(v);
    RunIs(d, "." + rest);
    assert s[..|d|] == d && s[|d| + 1..] == rest;
  }

  lemma {:induction false} DotsNonempty(b: seq<Byte>, k: nat)
    requires k < |b|
    ensures |DotsFrom(b, k)| > 0
  {
  }

  lemma {:induction false} StrictDec(v: nat)
    ensures Strict(Dec(v))
  {
  }

  /** The parsers accept exactly the canonical text: an octet string and nothing else. */
  lemma {:induction false} DottedIff(s: string, b: seq<Byte>)
    requires |b| == 4
    ensures ScanOctets(s, []) == Some(b) <==> s == DottedText(b)
  {
    DotsScan(b, 0);
    assert b[..0] == [];
    if ScanOctets(s, []) == Some(b) {
      ScanIsDots(s, [], b);
    }
  }

  // ----- Printing -----

  /** Put one character at `pos`. */
  method PutChar(out: array<char>, pos: nat, c: char) returns (next: nat)
    requires pos < out.Length
    modifies out
    ensures next == pos + 1 && out[..next] == old(out[..pos]) + [c]
  {
    out[pos] := c;
    next := pos + 1;
  }

  /** `uint8_to_dec`. */
  method Uint8ToDec(val: Byte, out: array<char>, pos: nat) returns (next: nat)
    requires pos + 3 <= out.Length
    modifies out
    ensures next == pos + |Dec(val)| <= pos + 3 && out[..next] == old(out[..pos]) + Dec(val)
    ensures DecimalText(out[pos..next], val)
  {
    DecDigits(val);
    DecIsDecimal(Dec(val), val);
    next := pos;
    if val >= 100 {
      next := PutChar(out, next, DigitChar(val / 100));
      next := PutChar(out, next, DigitChar(val / 10 % 10));
    } else if val >= 10 {
      next := PutChar(out, next, DigitChar(val / 10));
    }
    next := PutChar(out, next, DigitChar(val % 10));
    assert out[pos..next] == out[..next][pos..] == Dec(val);
  }

  lemma DotsUnrolled(b: seq<Byte>)
    requires |b| == 4
    ensures DottedText(b) == Dec(b[0]) + ['.'] + Dec(b[1]) + ['.'] + Dec(b[2]) + ['.'] + Dec(b[3])
  {
    assert DotsFrom(b, 2) == Dec(b[2]) + "." + Dec(b[3]);
    assert DotsFrom(b, 1) == Dec(b[1]) + "." + DotsFrom(b, 2);
  }

  lemma Append(head: string, t: string, u: string)
    ensures head + t + u == head + (t + u)
  {
  }

  /** Four octets and three dots. */
  method PutDotted(b: seq<Byte>, out: array<char>, pos: nat) returns (next: nat)
    requires |b| == 4 && pos + 15 <= out.Length
    modifies out
    ensures next == pos + |DottedText(b)| <= pos + 15 && out[..next] == old(out[..pos]) + DottedText(b)
  {
    ghost var head := out[..pos];
    next := PutOctet(b[0], out, pos, head, "");
    next := PutOctet(b[1], out, next, head, Dec(b[0]) + ['.']);
    next := PutOctet(b[2], out, next, head, Dec(b[0]) + ['.'] + Dec(b[1]) + ['.']);
    ghost var t := Dec(b[0]) + ['.'] + Dec(b[1]) + ['.'] + Dec(b[2]) + ['.'];
    next := Uint8ToDec(b[3], out, next);
    Append(head, t, Dec(b[3]));
    DotsUnrolled(b);
  }

  /** One octet and its dot. */
  method PutOctet(val: Byte, out: array<char>, pos: nat, ghost head: string, ghost t: string) returns (next: nat)
    requires pos + 4 <= out.Length && out[..pos] == head + t
    modifies out
    ensures next == pos + |Dec(val)| + 1 <= pos + 4 && out[..next] == head + (t + Dec(val) + ['.'])
  {
    next := Uint8ToDec(val, out, pos);
    Append(head, t, Dec(val));
    next := PutChar(out, next, '.');
    Append(head, t + Dec(val), ['.']);
  }

  /** `addr_format_ipv4`: the canonical text and its terminator. */
  method FormatIpv4(b: seq<Byte>, buf: array<char>) returns (pos: nat)
    requires |b| == 4 && buf.Length >= 46
    modifies buf
    ensures pos <= 15 && buf[..pos] == DottedText(b) && buf[pos] == '\0'
    ensures DottedQuad(buf[..pos], b)
  {
    pos := PutDotted(b, buf, 0);
    buf[pos] := '\0';
    DottedIsQuad(buf[..pos], b);
  }

  // ----- Parsing -----

  lemma {:induction false} DecValGrows(s: string, i: nat)
    requires AllDigits(s) && i <= |s|
    ensures DecVal(s[..i]) <= DecVal(s)
  {
    if i < |s| {
      var t := s[..|s| - 1];
      DecValGrows(t, i);
      assert t[..i] == s[..i];
    } else {
      assert s[..i] == s;
    }
  }

  /** A leading zero stands alone. */
  lemma {:induction false} ZeroOctet(s: string)
    requires |s| > 0 && s[0] == '0'
    ensures OctetFirst(s) <==> !(|s| > 1 && IsDigit(s[1]))
    ensures OctetFirst(s) ==> DigitRun(s) == 1 && OctetVal(s) == 0
  {
    var n := DigitRun(s);
    assert n == 1 + DigitRun(s[1..]) && s[..n][0] == '0';
    if |s| > 1 && IsDigit(s[1]) {
      assert s[1..][0] == s[1];
      assert |s[..n]| > 1;
    } else {
      assert |s| > 1 ==> s[1..][0] == s[1];
      assert n == 1 && s[..1] == "0";
      assert "0"[..0] == "" && DecVal("0") == 0;
    }
  }

  /** The inner part of the octet loop. The end of `src` is the terminating NUL. */
  method ReadOctet(src: string, start: nat, ghost s: string) returns (ok: bool, value: nat, p: nat)
    requires start < |src| && s == src[start..]
    ensures ok <==> OctetFirst(s)
    ensures ok ==> p == start + DigitRun(s) && value == OctetVal(s)
    ensures ok ==> DecimalText(src[start..p], value) && (p < |src| ==> !DigitCode(src[p]))
  {
    ghost var n := DigitRun(s);
    OctetFirstIff(s);
    assert src[start..start + n] == s[..n];
    DecValByCodes(src);
    ok, value, p := false, 0, start;
    if !IsDigit(src[p]) {
      return;
    }
    assert src[p] == s[0] && |s| > 0;
    if src[p] == '0' {
      ZeroOctet(s);
      p := p + 1;
      assert p < |src| ==> src[p] == s[1];
      ok := !(p < |src| && IsDigit(src[p]));
      assert ok <==> OctetFirst(s);
      return;
    }
    while p < |src| && IsDigit(src[p])
      invariant start <= p <= start + n && value == DecVal(s[..p - start]) <= 255
    {
      OneMoreDigit(s, p - start);
      value := value * 10 + DigitVal(src[p]);
      if value > 255 {
        return;
      }
      p := p + 1;
    }
    assert p < |src| ==> src[p] == s[p - start];
    RunStops(s, p - start);
    ok := true;
  }

  /** One more digit of the run; a value above 255 stays above it. */
  lemma {:induction false} OneMoreDigit(s: string, k: nat)
    requires k < |s| && k <= DigitRun(s) && IsDigit(s[k])
    ensures k < DigitRun(s) && AllDigits(s[..k]) && AllDigits(s[..k + 1])
    ensures DecVal(s[..k + 1]) == DecVal(s[..k]) * 10 + DigitVal(s[k])
    ensures DecVal(s[..k + 1]) <= DecVal(s[..DigitRun(s)])
  {
    var n := DigitRun(s);
    RunCovers(s, k);
    assert s[..k + 1][..k] == s[..k];
    assert s[..n][..k + 1] == s[..k + 1];
    DecValGrows(s[..n], k + 1);
  }

  /** A run extends over every digit that follows digits. */
  lemma {:induction false} RunCovers(s: string, k: nat)
    requires k < |s| && k <= DigitRun(s) && IsDigit(s[k])
    ensures k < DigitRun(s) && AllDigits(s[..k + 1])
  {
    var n := DigitRun(s);
    assert forall i :: 0 <= i < k ==> s[i] == s[..n][i];
  }

  lemma {:induction false} RunStops(s: string, k: nat)
    requires k <= DigitRun(s) && (k < |s| ==> !IsDigit(s[k]))
    ensures k == DigitRun(s)
  {
  }

  /** `addr_parse_ipv4` and `ipv4_suffix_parse`: accepts exactly the canonical dotted texts. */
  method ParseDotted(src: string) returns (r: Option<seq<Byte>>)
    ensures r == ScanOctets(src, [])
    ensures r.Some? ==> |r.value| == 4 && src == DottedText(r.value)
    ensures r.Some? ==> DottedQuad(src, r.value)
    ensures r.None? ==> forall b: seq<Byte> :: |b| == 4 ==> src != DottedText(b) && !DottedQuad(src, b)
  {
    r := ParseOctets(src);
    if r.Some? {
      ScanIsDots(src, [], r.value);
    }
    forall b: seq<Byte> | |b| == 4
      ensures r == Some(b) <==> src == DottedText(b)
      ensures src == DottedText(b) <==> DottedQuad(src, b)
    {
      DottedIff(src, b);
      DottedIsQuad(src, b);
    }
  }

  /** The octet loop. */
  method ParseOctets(src: string) returns (r: Option<seq<Byte>>)
    ensures r == ScanOctets(src, [])
  {
    if src == "" {
      return None;
    }
    var p, octetCount := 0, 0;
    var octets := new Byte[4];
    ghost var s, sofar: seq<Byte> := src, [];
    while p < |src|
      invariant 0 <= p <= |src| && 0 <= octetCount <= 4 && sofar == octets[..octetCount]
      invariant s == src[p..] && ScanOctets(src, []) == ScanOctets(s, sofar)
    {
      var ok, value, next := ReadOctet(src, p, s);
      if !ok || octetCount >= 4 {
        return None;
      }
      octets[octetCount] := value;
      octetCount := octetCount + 1;
      ghost var n := next - p;
      SuffixAt(src, p, n);
      sofar := sofar + [value];
      assert octets[..octetCount] == sofar;
      p := next;
      s := if p == |src| then "" else s[n + 1..];
      if p < |src| {
        if src[p] != '.' || p + 1 == |src| {
          return None;
        }
        p := p + 1;
      }
    }
    if octetCount != 4 {
      return None;
    }
    assert octets[..] == octets[..4];
    return Some(octets[..]);
  }

  lemma SuffixAt(src: string, p: nat, n: nat)
    requires p + n <= |src|
    ensures src[p + n..] == src[p..][n..]
    ensures p + n < |src| ==> src[p + n] == src[p..][n] && src[p + n + 1..] == src[p..][n + 1..]
  {
  }
}
