/** Parsing does not tell upper-case from lower-case digits. */
module LetterCase {
  import opened BitStrings
  import opened Bytes
  import opened Prefixes
  import opened DottedDecimal
  import opened HexGroups
  import opened AddressParser
  import opened TextLaws
  import opened PrefixText

  /** 'A' to 'F' become 'a' to 'f'; their codes are 32 apart. */
  function Lower(c: char): char {
    if 'A' <= c <= 'F' then (c as int + 32) as char else c
  }

  function Lowered(s: string): (r: string)
    ensures |r| == |s|
  {
    seq(|s|, i requires 0 <= i < |s| => Lower(s[i]))
  }

  lemma LoweredSlice(s: string, i: nat, j: nat)
    requires i <= j <= |s|
    ensures Lowered(s)[i..j] == Lowered(s[i..j])
    ensures Lowered(s)[i..] == Lowered(s[i..]) && Lowered(s)[..j] == Lowered(s[..j])
  {
  }

  /** A character keeps its meaning. */
  lemma LowerKeeps(c: char)
    ensures IsHex(Lower(c)) <==> IsHex(c)
    ensures IsHex(c) ==> HexVal(Lower(c)) == HexVal(c)
    ensures !IsHex(c) ==> Lower(c) == c
    ensures Lower(c) == ':' <==> c == ':'
  {
  }

  lemma {:induction false} LoweredRun(s: string)
    ensures HexRun(Lowered(s)) == HexRun(s)
  {
    if s != "" {
      LowerKeeps(s[0]);
      LoweredSlice(s, 1, |s|);
      LoweredRun(s[1..]);
    }
  }

  lemma {:induction false} LoweredNum(s: string)
    requires AllHex(s)
    ensures AllHex(Lowered(s)) && HexNum(Lowered(s)) == HexNum(s)
  {
    forall i | 0 <= i < |s|
      ensures IsHex(Lowered(s)[i])
    {
      LowerKeeps(s[i]);
    }
    if s != "" {
      var n := |s| - 1;
      LoweredSlice(s, 0, n);
      LoweredNum(s[..n]);
      LowerKeeps(s[n]);
    }
  }

  lemma {:induction false} LoweredGroup(s: string)
    ensures GroupFirst(Lowered(s)) <==> GroupFirst(s)
    ensures GroupFirst(s) ==> GroupVal(Lowered(s)) == GroupVal(s)
  {
    LoweredRun(s);
    LoweredSlice(s, 0, HexRun(s));
    LoweredNum(s[..HexRun(s)]);
  }

  lemma {:induction false} LoweredColons(s: string)
    ensures DoubleColon(Lowered(s)) <==> DoubleColon(s)
    ensures Lowered(s) == ":" <==> s == ":"
    ensures s != "" ==> (Lowered(s)[0] == ':' <==> s[0] == ':')
  {
    if s != "" {
      LowerKeeps(s[0]);
    }
    if |s| > 1 {
      LowerKeeps(s[1]);
    }
    assert |s| == 1 ==> s == [s[0]] && Lowered(s) == [Lower(s[0])];
  }

  lemma {:induction false} ScanIgnoresCase(s: string, mixed: bool, st: Seen)
    ensures Scan(Lowered(s), mixed, st) == Scan(s, mixed, st)
    decreases |s|, 0
  {
    LoweredColons(s);
    if DoubleColon(s) {
      LoweredSlice(s, 2, |s|);
      ScanIgnoresCase(s[2..], mixed, st.(cc := true));
    } else {
      LoweredGroup(s);
      LoweredRun(s);
      if GroupFirst(s) {
        LoweredSlice(s, HexRun(s), |s|);
        AfterIgnoresCase(s[HexRun(s)..], mixed, Add(st, GroupVal(s)));
      }
    }
  }

  lemma {:induction false} AfterIgnoresCase(rest: string, mixed: bool, st: Seen)
    ensures AfterGroup(Lowered(rest), mixed, st) == AfterGroup(rest, mixed, st)
    decreases |rest|, 1
  {
    LoweredColons(rest);
    if rest != "" && rest[0] == ':' {
      if DoubleColon(rest) || (mixed && rest == ":") {
        ScanIgnoresCase(rest, mixed, st);
      } else {
        LoweredSlice(rest, 1, |rest|);
        ScanIgnoresCase(rest[1..], mixed, st);
      }
    }
  }

  predicate NoLetters(s: string) {
    forall i :: 0 <= i < |s| ==> IsDigit(s[i]) || s[i] == '.'
  }

  lemma {:induction false} DotsHaveNoLetters(b: seq<Byte>, k: nat)
    requires k < |b|
    ensures NoLetters(DotsFrom(b, k))
    decreases |b| - k
  {
    if k + 1 < |b| {
      DotsHaveNoLetters(b, k + 1);
    }
  }

  lemma {:induction false} NothingToLower(s: string)
    requires NoLetters(s) || NoLetters(Lowered(s))
    ensures Lowered(s) == s
  {
    forall i | 0 <= i < |s|
      ensures Lower(s[i]) == s[i]
    {
      assert Lowered(s)[i] == Lower(s[i]);
    }
  }

  lemma {:induction false} AcceptedHasNoLetters(s: string)
    requires ScanOctets(s, []).Some?
    ensures NoLetters(s)
  {
    var b := ScanOctets(s, []).value;
    DottedIff(s, b);
    DotsHaveNoLetters(b, 0);
  }

  /** A dotted text has no letters. */
  lemma {:induction false} DotsIgnoreCase(s: string)
    ensures ScanOctets(Lowered(s), []) == ScanOctets(s, [])
  {
    if ScanOctets(Lowered(s), []).Some? {
      AcceptedHasNoLetters(Lowered(s));
      NothingToLower(s);
    } else if ScanOctets(s, []).Some? {
      AcceptedHasNoLetters(s);
      NothingToLower(s);
    }
  }

  lemma {:induction false} LoweredHas(s: string, c: char)
    requires !IsHex(c)
    ensures c in Lowered(s) <==> c in s
  {
    forall i | 0 <= i < |s|
      ensures Lowered(s)[i] == c <==> s[i] == c
    {
      LowerKeeps(s[i]);
    }
    if c in s {
      var i :| 0 <= i < |s| && s[i] == c;
      assert Lowered(s)[i] == c;
    }
  }

  lemma {:induction false} LoweredLastColon(s: string)
    ensures LastColon(Lowered(s)) == LastColon(s)
  {
    if s != "" {
      var n := |s| - 1;
      LowerKeeps(s[n]);
      LoweredSlice(s, 0, n);
      LoweredLastColon(s[..n]);
    }
  }

  lemma {:induction false} GroupsIgnoreCase(s: string, mixed: bool)
    ensures ParseGroups(Lowered(s), mixed) == ParseGroups(s, mixed)
  {
    ScanIgnoresCase(s, mixed, NOTHING);
  }

  lemma {:induction false} Ipv6IgnoresCase(s: string)
    ensures ParseIpv6Text(Lowered(s)) == ParseIpv6Text(s)
  {
    LoweredLastColon(s);
    if LastColon(s).Some? {
      var at := LastColon(s).value;
      LoweredSlice(s, at + 1, |s|);
      LoweredSlice(s, 0, at);
      LoweredHas(s[at + 1..], '.');
      DotsIgnoreCase(s[at + 1..]);
      GroupsIgnoreCase(s[..at], true);
    }
    GroupsIgnoreCase(s, false);
  }

  /** Upper-case and lower-case digits mean the same: a text and its lower-case form parse alike. */
  lemma {:induction false} ParseIgnoresCase(s: string)
    ensures ParseText(Lowered(s)) == ParseText(s)
  {
    LoweredHas(s, ':');
    Ipv6IgnoresCase(s);
    DotsIgnoreCase(s);
  }

  lemma {:induction false} LoweredLastSlash(s: string)
    ensures LastSlash(Lowered(s)) == LastSlash(s)
  {
    if s != "" {
      var n := |s| - 1;
      LoweredSlice(s, 0, n);
      LoweredLastSlash(s[..n]);
    }
  }

  lemma {:induction false} LengthIgnoresCase(s: string)
    ensures Pfxlen(Lowered(s)) == Pfxlen(s)
  {
    if AllDigits(s) || AllDigits(Lowered(s)) {
      NothingToLower(s);
    }
  }

  /** So do a prefix and its lower-case form. */
  lemma {:induction false} PrefixIgnoresCase(s: string, p: Prefix)
    ensures ParseOutcome(Lowered(s)) == ParseOutcome(s) && (Parses(Lowered(s), p) <==> Parses(s, p))
  {
    PartsIgnoreCase(s);
  }

  lemma {:induction false} PartsIgnoreCase(s: string)
    ensures AddressPart(Lowered(s)) == AddressPart(s) && LastSlash(Lowered(s)) == LastSlash(s)
    ensures LastSlash(s).Some? ==> LengthPart(Lowered(s)) == LengthPart(s)
  {
    LoweredLastSlash(s);
    if LastSlash(s).Some? {
      var at := LastSlash(s).value;
      LoweredSlice(s, 0, at);
      LoweredSlice(s, at + 1, |s|);
      ParseIgnoresCase(s[..at]);
      LengthIgnoresCase(s[at + 1..]);
    }
  }
}
