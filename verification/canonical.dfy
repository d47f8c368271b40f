/** The canonical IPv6 text of RFC 5952, stated on characters, bytes and the text itself. */
module CanonicalForm {
  import opened BitStrings
  import opened Bytes
  import opened DottedDecimal
  import opened HexGroups
  import opened AddressParser
  import opened AddressPrinter

  // ----- Which characters, and no padding -----

  /** A digit, a lower-case hexadecimal digit, a colon or a dot. */
  predicate CanonicalChars(s: string) {
    forall i :: 0 <= i < |s| ==> LowerCode(s[i]) || s[i] == ':' || s[i] == '.'
  }

  predicate Separator(c: char) {
    c == ':' || c == '.'
  }

  /** A zero that starts the text or follows a separator is followed by no hexadecimal digit. */
  predicate NoPadding(s: string) {
    forall i :: 0 <= i < |s| - 1 ==> NoPaddingAt(s, i)
  }

  predicate NoPaddingAt(s: string, i: int)
    requires 0 <= i < |s| - 1
  {
    s[i] == '0' && (i == 0 || Separator(s[i - 1])) ==> !HexCode(s[i + 1])
  }

  ghost predicate Neat(s: string) {
    CanonicalChars(s) && NoPadding(s)
  }

  lemma {:induction false} NeatJoined(x: string, c: char, y: string)
    requires Neat(x) && Neat(y) && Separator(c)
    ensures Neat(x + [c] + y)
  {
    var s := x + [c] + y;
    forall i | 0 <= i < |s| - 1
      ensures NoPaddingAt(s, i)
    {
      var j := i - |x| - 1;
      if j >= 0 {
        assert NoPaddingAt(y, j);
      } else if i + 1 < |x| {
        assert NoPaddingAt(x, i);
      }
    }
  }

  lemma {:induction false} NeatHex(v: nat)
    ensures Neat(Hex(v))
  {
    HexIsText(Hex(v), v);
  }

  lemma {:induction false} NeatDec(v: nat)
    ensures Neat(Dec(v))
  {
    DecIsDecimal(Dec(v), v);
  }

  lemma {:induction false} NeatDots(b: seq<Byte>, k: nat)
    requires k < |b|
    ensures Neat(DotsFrom(b, k))
    decreases |b| - k
  {
    NeatDec(b[k]);
    if k + 1 < |b| {
      NeatDots(b, k + 1);
      NeatJoined(Dec(b[k]), '.', DotsFrom(b, k + 1));
    }
  }

  lemma {:induction false} NeatJoin(ts: seq<string>)
    requires forall i :: 0 <= i < |ts| ==> Neat(ts[i])
    ensures Neat(Join(ts))
  {
    if |ts| > 1 {
      NeatJoin(ts[1..]);
      NeatJoined(ts[0], ':', Join(ts[1..]));
    }
  }

  lemma {:induction false} NeatGroups(gs: seq<nat>)
    ensures Neat(Join(Hexes(gs)))
  {
    forall i | 0 <= i < |gs|
      ensures Neat(Hexes(gs)[i])
    {
      NeatHex(gs[i]);
    }
    NeatJoin(Hexes(gs));
  }

  lemma {:induction false} NeatCompressed(gs: seq<nat>, start: nat, n: nat)
    requires start + n <= |gs|
    ensures Neat(Write(CompressedText(gs, start, n)))
  {
    var x, y := Join(Hexes(gs[..start])), Join(Hexes(gs[start + n..]));
    NeatGroups(gs[..start]);
    NeatGroups(gs[start + n..]);
    NeatJoined("", ':', y);
    NeatJoined(x, ':', "" + [':'] + y);
    WriteCompressed(gs, start, n);
    assert x + "::" + y == x + [':'] + ("" + [':'] + y);
  }

  lemma {:induction false} NeatMapped(b: seq<Byte>)
    requires |b| == 4
    ensures Neat(MAPPED_LEAD + DottedText(b))
  {
    var t := DottedText(b);
    NeatDots(b, 0);
    assert Neat("ffff");
    NeatJoined("ffff", ':', t);
    NeatJoined("", ':', "ffff" + [':'] + t);
    NeatJoined("", ':', "" + [':'] + ("ffff" + [':'] + t));
    assert MAPPED_LEAD + t == "" + [':'] + ("" + [':'] + ("ffff" + [':'] + t));
  }

  /** A canonical text holds lower-case digits and separators only, and no number in it has a leading zero. */
  lemma {:induction false} CanonicalCharacters(b: seq<Byte>, s: string)
    requires |b| == 16 && Canonical(b, s)
    ensures CanonicalChars(s) && NoPadding(s)
  {
    var gs := GroupsOf(b);
    if Mapped(b) {
      NeatMapped(b[12..]);
    } else if NoRun(gs) && s == Write(PlainText(gs)) {
      NeatGroups(gs);
      assert s == Join(Hexes(gs));
    } else {
      var start: nat, n: nat :| BestRun(gs, start, n) && s == Write(CompressedText(gs, start, n));
      NeatCompressed(gs, start, n);
    }
  }

  // ----- The whole form, from the bytes -----

  /** The number of two bytes, the high one first. */
  function GroupNum(b: seq<Byte>, i: nat): (g: nat)
    requires |b| == 16 && i < 8
  {
    var hi: int, lo: int := b[2 * i], b[2 * i + 1];
    256 * hi + lo
  }

  /** Groups `start` to `start + n` of an address are zero. */
  ghost predicate ZeroBytes(b: seq<Byte>, start: nat, n: nat)
    requires |b| == 16
  {
    start + n <= 8 && forall i :: 2 * start <= i < 2 * (start + n) ==> b[i] == 0
  }

  /** `ts` are the shortest lower-case forms of the groups from `from` on. */
  ghost predicate GroupTexts(ts: seq<string>, b: seq<Byte>, from: nat)
    requires |b| == 16
  {
    from + |ts| <= 8 && forall i :: 0 <= i < |ts| ==> HexText(ts[i], GroupNum(b, from + i))
  }

  /** All eight groups, when no two neighbours are zero. */
  ghost predicate PlainForm(b: seq<Byte>, s: string, ts: seq<string>)
    requires |b| == 16
  {
    && (forall j: nat :: j < 7 ==> !ZeroBytes(b, j, 2))
    && |ts| == 8 && GroupTexts(ts, b, 0) && s == Join(ts)
  }

  /** The first of the longest runs of zero groups, at least two of them, as `::`. */
  ghost predicate CompressedForm(b: seq<Byte>, s: string, ts: seq<string>, us: seq<string>)
    requires |b| == 16 && |ts| + |us| <= 8
  {
    var start, n := |ts|, 8 - |ts| - |us|;
    && n >= 2 && ZeroBytes(b, start, n)
    && (forall j: nat, m: nat :: ZeroBytes(b, j, m) ==> m < n || (m == n && start <= j))
    && GroupTexts(ts, b, 0) && GroupTexts(us, b, start + n) && s == Join(ts) + "::" + Join(us)
  }

  /** Sections 4 and 5 of RFC 5952. */
  ghost predicate Rfc5952(b: seq<Byte>, s: string)
    requires |b| == 16
  {
    if (forall i :: 0 <= i < 10 ==> b[i] == 0) && b[10] == 255 && b[11] == 255 then
      exists t :: DottedQuad(t, b[12..]) && s == "::ffff:" + t
    else
      || (exists ts :: PlainForm(b, s, ts))
      || (exists ts, us :: |ts| + |us| <= 8 && CompressedForm(b, s, ts, us))
  }

  lemma {:induction false} GroupZero(b: seq<Byte>, i: nat)
    requires |b| == 16 && i < 8
    ensures GroupsOf(b)[i] == GroupNum(b, i)
    ensures GroupsOf(b)[i] == 0 <==> b[2 * i] == 0 && b[2 * i + 1] == 0
  {
  }

  lemma {:induction false} ZeroRunBytes(b: seq<Byte>, start: nat, n: nat)
    requires |b| == 16
    ensures ZeroRun(GroupsOf(b), start, n) <==> ZeroBytes(b, start, n)
  {
    if ZeroRun(GroupsOf(b), start, n) {
      ZeroGroupsAreBytes(b, start, n);
    } else if ZeroBytes(b, start, n) {
      ZeroBytesAreGroups(b, start, n);
    }
  }

  lemma {:induction false} ZeroGroupsAreBytes(b: seq<Byte>, start: nat, n: nat)
    requires |b| == 16 && ZeroRun(GroupsOf(b), start, n)
    ensures ZeroBytes(b, start, n)
  {
    forall i | 2 * start <= i < 2 * (start + n)
      ensures b[i] == 0
    {
      GroupZero(b, i / 2);
    }
  }

  lemma {:induction false} ZeroBytesAreGroups(b: seq<Byte>, start: nat, n: nat)
    requires |b| == 16 && ZeroBytes(b, start, n)
    ensures ZeroRun(GroupsOf(b), start, n)
  {
    forall i | start <= i < start + n
      ensures GroupsOf(b)[i] == 0
    {
      GroupZero(b, i);
    }
  }

  lemma {:induction false} GroupTextsAre(ts: seq<string>, b: seq<Byte>, from: nat)
    requires |b| == 16 && from + |ts| <= 8
    ensures GroupTexts(ts, b, from) <==> ts == Hexes(GroupsOf(b)[from..from + |ts|])
  {
    var hs := Hexes(GroupsOf(b)[from..from + |ts|]);
    forall i | 0 <= i < |ts|
      ensures ts[i] == hs[i] <==> HexText(ts[i], GroupNum(b, from + i))
    {
      GroupZero(b, from + i);
      HexIsText(ts[i], GroupsOf(b)[from + i]);
    }
  }

  lemma {:induction false} NoRunBytes(b: seq<Byte>)
    requires |b| == 16
    ensures NoRun(GroupsOf(b)) <==> forall j: nat :: j < 7 ==> !ZeroBytes(b, j, 2)
  {
    var gs := GroupsOf(b);
    forall j: nat | j < 7
      ensures ZeroRun(gs, j, 2) <==> ZeroBytes(b, j, 2)
    {
      ZeroRunBytes(b, j, 2);
    }
    if j, m :| ZeroRun(gs, j, m) && m >= 2 {
      assert ZeroRun(gs, j, 2);
    }
  }

  lemma {:induction false} BestRunBytes(b: seq<Byte>, start: nat, n: nat)
    requires |b| == 16
    ensures BestRun(GroupsOf(b), start, n) <==>
      && n >= 2 && ZeroBytes(b, start, n)
      && forall j: nat, m: nat :: ZeroBytes(b, j, m) ==> m < n || (m == n && start <= j)
  {
    forall j: nat, m: nat
      ensures ZeroRun(GroupsOf(b), j, m) <==> ZeroBytes(b, j, m)
    {
      ZeroRunBytes(b, j, m);
    }
  }

  lemma {:induction false} PlainFormIff(b: seq<Byte>, s: string)
    requires |b| == 16
    ensures NoRun(GroupsOf(b)) && s == Write(PlainText(GroupsOf(b))) <==> exists ts :: PlainForm(b, s, ts)
  {
    var gs := GroupsOf(b);
    NoRunBytes(b);
    assert gs[0..8] == gs;
    if NoRun(gs) && s == Write(PlainText(gs)) {
      GroupTextsAre(Hexes(gs), b, 0);
      assert PlainForm(b, s, Hexes(gs));
    }
    if ts :| PlainForm(b, s, ts) {
      GroupTextsAre(ts, b, 0);
    }
  }

  ghost predicate RunWritten(gs: seq<nat>, s: string) {
    exists start: nat, n: nat :: BestRun(gs, start, n) && s == Write(CompressedText(gs, start, n))
  }

  lemma {:induction false} CompressedFormIff(b: seq<Byte>, s: string)
    requires |b| == 16
    ensures RunWritten(GroupsOf(b), s) <==> exists ts, us :: |ts| + |us| <= 8 && CompressedForm(b, s, ts, us)
  {
    var gs := GroupsOf(b);
    if start: nat, n: nat :| BestRun(gs, start, n) && s == Write(CompressedText(gs, start, n)) {
      var ts, us := Hexes(gs[..start]), Hexes(gs[start + n..]);
      FormOfRun(b, s, start, n, ts, us);
      assert CompressedForm(b, s, ts, us);
    }
    if ts, us :| |ts| + |us| <= 8 && CompressedForm(b, s, ts, us) {
      FormOfRun(b, s, |ts|, 8 - |ts| - |us|, ts, us);
    }
  }

  lemma {:induction false} FormOfRun(b: seq<Byte>, s: string, start: nat, n: nat, ts: seq<string>, us: seq<string>)
    requires |b| == 16 && |ts| == start && start + n + |us| == 8
    ensures var gs := GroupsOf(b);
      CompressedForm(b, s, ts, us) <==>
        && BestRun(gs, start, n) && s == Write(CompressedText(gs, start, n))
        && ts == Hexes(gs[..start]) && us == Hexes(gs[start + n..])
  {
    var gs := GroupsOf(b);
    BestRunBytes(b, start, n);
    GroupTextsAre(ts, b, 0);
    GroupTextsAre(us, b, start + n);
    assert gs[0..start] == gs[..start] && gs[start + n..8] == gs[start + n..];
    WriteCompressed(gs, start, n);
  }

  /** The printed text is the one of RFC 5952: the whole definition comes down to bytes and characters. */
  lemma {:induction false} CanonicalIff(b: seq<Byte>, s: string)
    requires |b| == 16
    ensures Canonical(b, s) <==> Rfc5952(b, s)
  {
    if Mapped(b) {
      DottedIsQuad(DottedText(b[12..]), b[12..]);
      if t :| DottedQuad(t, b[12..]) && s == "::ffff:" + t {
        DottedIsQuad(t, b[12..]);
      }
    } else {
      PlainFormIff(b, s);
      CompressedFormIff(b, s);
    }
  }
}
