/** IPv6 groups as text: the grammar of section 2.2 of RFC 4291 as the parser reads it, and the two
group loops of `addr_parse_ipv6`.

`PureIff` and `MixedIff` say that the loops accept exactly that grammar. */
module HexGroups {
  import opened BitStrings

  // ----- Hexadecimal numbers -----

  /** The digits of the `hex_val` table. */
  predicate IsHex(c: char) {
    '0' <= c <= '9' || 'a' <= c <= 'f' || 'A' <= c <= 'F'
  }

  function HexVal(c: char): (d: nat)
    requires IsHex(c)
    ensures d < 16
  {
    if '0' <= c <= '9' then (c as int) - ('0' as int)
    else if 'a' <= c <= 'f' then (c as int) - ('a' as int) + 10
    else (c as int) - ('A' as int) + 10
  }

  /** `hex_digits`: lower case. */
  function HexChar(d: nat): (c: char)
    requires d < 16
    ensures IsHex(c) && HexVal(c) == d
  {
    if d < 10 then (('0' as int) + d) as char else (('a' as int) + d - 10) as char
  }

  predicate AllHex(s: string) {
    forall i :: 0 <= i < |s| ==> IsHex(s[i])
  }

  /** The number a hexadecimal string spells. */
  function HexNum(s: string): nat
    requires AllHex(s)
  {
    if s == "" then 0 else 16 * HexNum(s[..|s| - 1]) + HexVal(s[|s| - 1])
  }

  /** The shortest lower-case form. */
  function Hex(v: nat): (s: string)
    ensures |s| >= 1 && AllHex(s)
  {
    if v < 16 then [HexChar(v)] else Hex(v / 16) + [HexChar(v % 16)]
  }

  lemma {:induction false} HexNumOfHex(v: nat)
    ensures HexNum(Hex(v)) == v
  {
    if v < 16 {
      assert Hex(v)[..0] == "";
    } else {
      HexNumOfHex(v / 16);
      assert Hex(v)[..|Hex(v)| - 1] == Hex(v / 16);
    }
  }

  // ----- Hexadecimal numbers by character codes -----

  /** '0' to '9' and 'a' to 'f'. */
  predicate LowerCode(c: char) {
    48 <= c as int <= 57 || 97 <= c as int <= 102
  }

  /** Those and 'A' to 'F'. */
  predicate HexCode(c: char) {
    LowerCode(c) || 65 <= c as int <= 70
  }

  predicate HexCodes(t: string) {
    forall i :: 0 <= i < |t| ==> HexCode(t[i])
  }

  /** What a digit is worth. */
  function CodeVal(c: char): int {
    if c as int <= 57 then c as int - 48 else if c as int <= 70 then c as int - 55 else c as int - 87
  }

  function CodeVals(t: string): (ds: seq<int>)
    ensures |ds| == |t|
  {
    seq(|t|, i requires 0 <= i < |t| => CodeVal(t[i]))
  }

  /** The number a text spells, by the codes of its characters. */
  function HexValue(t: string): int {
    PlaceSum(16, CodeVals(t), |t|)
  }

  /** Lower-case digits without a leading zero. */
  predicate Shortest(t: string) {
    |t| >= 1 && (forall i :: 0 <= i < |t| ==> LowerCode(t[i])) && (t[0] as int == 48 ==> |t| == 1)
  }

  /** `t` is the shortest lower-case form of `v`. */
  predicate HexText(t: string, v: nat) {
    Shortest(t) && HexValue(t) == v
  }

  /** The digits in order, in both cases. */
  lemma {:induction false} DigitOrder(d: nat)
    requires d < 16
    ensures IsHex("0123456789abcdef"[d]) && HexVal("0123456789abcdef"[d]) == d && HexChar(d) == "0123456789abcdef"[d]
    ensures IsHex("0123456789ABCDEF"[d]) && HexVal("0123456789ABCDEF"[d]) == d
  {
  }

  lemma {:induction false} HexValueSnoc(t: string)
    requires t != ""
    ensures HexValue(t) == 16 * HexValue(t[..|t| - 1]) + CodeVal(t[|t| - 1])
  {
    PlaceSumSnoc(16, CodeVals(t), |t| - 1);
    assert CodeVals(t)[..|t| - 1] == CodeVals(t[..|t| - 1]);
  }

  /** The value of a hexadecimal string is the place-value sum of its digits by character codes. */
  lemma {:induction false} HexNumByCodes(t: string)
    ensures AllHex(t) <==> HexCodes(t)
    ensures AllHex(t) ==> HexNum(t) == HexValue(t)
  {
    assert forall i :: 0 <= i < |t| ==> (IsHex(t[i]) <==> HexCode(t[i]));
    if AllHex(t) && t != "" {
      HexNumByCodes(t[..|t| - 1]);
      HexValueSnoc(t);
    }
  }

  lemma {:induction false} ShortestPositive(t: string)
    requires Shortest(t) && AllHex(t) && t[0] as int != 48
    ensures HexNum(t) >= 1
  {
    if |t| == 1 {
      assert t[..0] == "";
    } else {
      ShortestPositive(t[..|t| - 1]);
    }
  }

  lemma {:induction false} HexIsShortest(v: nat)
    ensures Shortest(Hex(v)) && (Hex(v)[0] as int == 48 ==> v == 0)
  {
    if v >= 16 {
      HexIsShortest(v / 16);
    }
  }

  lemma {:induction false} HexStep(v: nat, d: nat)
    requires v >= 1 && d < 16
    ensures Hex(16 * v + d) == Hex(v) + [HexChar(d)]
  {
    assert (16 * v + d) / 16 == v && (16 * v + d) % 16 == d;
  }

  lemma {:induction false} CharOfVal(c: char)
    requires IsHex(c) && LowerCode(c)
    ensures HexChar(HexVal(c)) == c
  {
  }

  lemma {:induction false} HexOfShortest(t: string)
    requires Shortest(t) && AllHex(t)
    ensures Hex(HexNum(t)) == t
  {
    var n := |t| - 1;
    CharOfVal(t[n]);
    if n == 0 {
      assert t[..0] == "" && t == [t[0]];
    } else {
      ShortestPositive(t[..n]);
      HexOfShortest(t[..n]);
      HexStep(HexNum(t[..n]), HexVal(t[n]));
      assert t == t[..n] + [t[n]];
    }
  }

  /** The written form of a number is its shortest lower-case form, by character codes. */
  lemma {:induction false} HexIsText(t: string, v: nat)
    ensures t == Hex(v) <==> HexText(t, v)
  {
    HexNumByCodes(t);
    if t == Hex(v) {
      HexIsShortest(v);
      HexNumOfHex(v);
    }
    if HexText(t, v) {
      HexOfShortest(t);
    }
  }

  /** Length of the run of hex digits at the start of a string. */
  function HexRun(s: string): (n: nat)
    ensures n <= |s| && AllHex(s[..n]) && (n < |s| ==> !IsHex(s[n]))
  {
    if s == "" || !IsHex(s[0]) then 0
    else
      var n := 1 + HexRun(s[1..]);
      assert s[..n] == [s[0]] + s[1..][..n - 1];
      n
  }

  lemma {:induction false} HexRunIs(d: string, rest: string)
    requires AllHex(d) && (rest == "" || !IsHex(rest[0]))
    ensures HexRun(d + rest) == |d|
  {
    if d == "" {
      assert d + rest == rest;
    } else {
      HexRunIs(d[1..], rest);
      assert (d + rest)[1..] == d[1..] + rest;
    }
  }

  // ----- The grammar -----

  /** One to four hex digits. */
  predicate IsGroup(t: string) {
    1 <= |t| <= 4 && AllHex(t)
  }

  predicate AllGroups(gs: seq<string>) {
    forall i :: 0 <= i < |gs| ==> IsGroup(gs[i])
  }

  /** An IPv6 text: groups, an optional `::`, more groups, and the one trailing colon that the
      parser lets pass after a group. */
  datatype Text = Text(before: seq<string>, compressed: bool, after: seq<string>, trailing: bool)

  /** Exactly `max` groups, or fewer with a `::` that stands for at least one. */
  predicate WellFormed(t: Text, max: nat) {
    && AllGroups(t.before) && AllGroups(t.after)
    && (if t.compressed then |t.before| + |t.after| < max else t.after == [] && |t.before| == max)
    && (t.trailing ==> if t.compressed then t.after != [] else t.before != [])
  }

  function Join(gs: seq<string>): string {
    if gs == [] then "" else if |gs| == 1 then gs[0] else gs[0] + ":" + Join(gs[1..])
  }

  /** How the text is spelled. */
  function Write(t: Text): string {
    Join(t.before) + (if t.compressed then "::" + Join(t.after) else "") + (if t.trailing then ":" else "")
  }

  function Values(gs: seq<string>): (vs: seq<nat>)
    requires AllGroups(gs)
    ensures |vs| == |gs|
  {
    seq(|gs|, i requires 0 <= i < |gs| => HexNum(gs[i]))
  }

  function ZeroGroups(n: nat): (vs: seq<nat>)
    ensures |vs| == n
  {
    seq(n, _ => 0)
  }

  /** The groups the text stands for. */
  function Denotes(t: Text, max: nat): (vs: seq<nat>)
    requires WellFormed(t, max)
    ensures |vs| == max
  {
    Values(t.before) + ZeroGroups(max - |t.before| - |t.after|) + Values(t.after)
  }

  // ----- The group loop -----

  /** What the loop has read. */
  datatype Seen = Seen(cc: bool, before: seq<nat>, after: seq<nat>)

  const NOTHING: Seen := Seen(false, [], [])

  function MaxGroups(mixed: bool): nat {
    if mixed then 6 else 8
  }

  predicate Room(st: Seen, mixed: bool) {
    if st.cc then |st.after| < MaxGroups(mixed) else |st.before| < MaxGroups(mixed)
  }

  function Add(st: Seen, v: nat): Seen {
    if st.cc then st.(after := st.after + [v]) else st.(before := st.before + [v])
  }

  /** The text starts with a group. */
  predicate GroupFirst(s: string) {
    1 <= HexRun(s) <= 4
  }

  function GroupVal(s: string): nat
    requires GroupFirst(s)
  {
    HexNum(s[..HexRun(s)])
  }

  predicate DoubleColon(s: string) {
    |s| > 1 && s[0] == ':' && s[1] == ':'
  }

  /** The group loop on the rest `s` of the text. In the mixed form a lone colon at the end is half
      of a `::` that straddles the boundary; in the pure form it is dropped. */
  function Scan(s: string, mixed: bool, st: Seen): (r: Option<Seen>)
    decreases |s|, 0
  {
    if s == "" then Some(st)
    else if DoubleColon(s) then (if st.cc then None else Scan(s[2..], mixed, st.(cc := true)))
    else if mixed && s == ":" then (if st.cc then None else Some(st.(cc := true)))
    else if !GroupFirst(s) || !Room(st, mixed) then None
    else AfterGroup(s[HexRun(s)..], mixed, Add(st, GroupVal(s)))
  }

  /** What may follow a group. */
  function AfterGroup(rest: string, mixed: bool, st: Seen): (r: Option<Seen>)
    decreases |rest|, 1
  {
    if rest == "" then Some(st)
    else if rest[0] != ':' then None
    else if DoubleColon(rest) || (mixed && rest == ":") then Scan(rest, mixed, st)
    else Scan(rest[1..], mixed, st)
  }

  /** The groups read, with the `::` expanded to at least one zero group. */
  function Expand(st: Seen, max: nat): (r: Option<seq<nat>>)
    ensures r.Some? ==> |r.value| == max
  {
    var total := |st.before| + |st.after|;
    if (if st.cc then total >= max else total != max) then None
    else Some(st.before + ZeroGroups(max - total) + st.after)
  }

  /** The groups of a whole text. */
  function ParseGroups(s: string, mixed: bool): (r: Option<seq<nat>>)
    ensures r.Some? ==> |r.value| == MaxGroups(mixed)
  {
    var st := Scan(s, mixed, NOTHING);
    if st.None? then None else Expand(st.value, MaxGroups(mixed))
  }

  // ----- What the loop accepts is in the grammar -----

  lemma {:induction false} JoinCons(g: string, gs: seq<string>)
    requires gs != []
    ensures Join([g] + gs) == g + ":" + Join(gs)
  {
    assert ([g] + gs)[1..] == gs;
  }

  lemma {:induction false} ValuesCons(g: string, gs: seq<string>)
    requires IsGroup(g) && AllGroups(gs)
    ensures AllGroups([g] + gs) && Values([g] + gs) == [HexNum(g)] + Values(gs)
  {
    var all := [g] + gs;
    forall i | 0 <= i < |all|
      ensures IsGroup(all[i]) && HexNum(all[i]) == ([HexNum(g)] + Values(gs))[i]
    {
      if i > 0 {
        assert all[i] == gs[i - 1];
      }
    }
  }

  function Colon(trailing: bool): string {
    if trailing then ":" else ""
  }

  /** The loop reads a group. */
  lemma {:induction false} GroupRead(s: string, mixed: bool, st: Seen) returns (g: string, rest: string)
    requires s != "" && !DoubleColon(s) && !(mixed && s == ":") && Scan(s, mixed, st).Some?
    ensures IsGroup(g) && s == g + rest && |rest| < |s|
    ensures Scan(s, mixed, st) == AfterGroup(rest, mixed, Add(st, HexNum(g)))
  {
    g, rest := s[..HexRun(s)], s[HexRun(s)..];
  }

  /** What the loop has added once it stops. */
  ghost predicate Adds(st: Seen, gs: seq<string>, r: Option<Seen>) {
    AllGroups(gs) && r == Some(st.(after := st.after + Values(gs)))
  }

  lemma {:induction false} AddsNothing(st: Seen)
    ensures Adds(st, [], Some(st))
  {
    assert st.after + Values([]) == st.after;
  }

  lemma {:induction false} AddsCons(st: Seen, g: string, gs: seq<string>, r: Option<Seen>)
    requires st.cc && IsGroup(g) && Adds(Add(st, HexNum(g)), gs, r)
    ensures Adds(st, [g] + gs, r)
  {
    ValuesCons(g, gs);
    assert st.after + [HexNum(g)] + Values(gs) == st.after + Values([g] + gs);
  }

  lemma {:induction false} JoinText(g: string, rest: string, gs: seq<string>, tail: string)
    requires gs != [] && rest != "" && rest[0] == ':' && rest[1..] == Join(gs) + tail
    ensures g + rest == Join([g] + gs) + tail
  {
    JoinCons(g, gs);
    assert rest == ":" + rest[1..];
  }

  /** After the `::`: groups, and in the pure form perhaps a trailing colon. */
  lemma {:induction false} AfterSound(s: string, mixed: bool, st: Seen) returns (gs: seq<string>, trailing: bool)
    requires st.cc && Scan(s, mixed, st).Some?
    ensures s == Join(gs) + Colon(trailing) && (trailing ==> gs != [] && !mixed) && (s != "" ==> gs != [])
    ensures Adds(st, gs, Scan(s, mixed, st))
    decreases |s|, 0
  {
    if s == "" {
      gs, trailing := [], false;
      AddsNothing(st);
    } else {
      var g, rest := GroupRead(s, mixed, st);
      gs, trailing := AfterSoundRest(rest, mixed, Add(st, HexNum(g)), g);
      AddsCons(st, g, gs[1..], Scan(s, mixed, st));
      assert [g] + gs[1..] == gs;
    }
  }

  /** The rest after group `g`, once the `::` is behind. */
  lemma {:induction false} AfterSoundRest(rest: string, mixed: bool, st: Seen, g: string) returns (gs: seq<string>,
      trailing: bool)
    requires st.cc && AfterGroup(rest, mixed, st).Some?
    ensures |gs| >= 1 && gs[0] == g && g + rest == Join(gs) + Colon(trailing) && (trailing ==> !mixed)
    ensures Adds(st, gs[1..], AfterGroup(rest, mixed, st))
    decreases |rest|, 1
  {
    if rest == "" || rest == ":" {
      gs, trailing := [g], rest == ":";
      AddsNothing(st);
    } else {
      var more, t := AfterSound(rest[1..], mixed, st);
      JoinText(g, rest, more, Colon(t));
      gs, trailing := [g] + more, t;
      assert gs[1..] == more;
    }
  }

  /** How a text is spelled when its `::` straddles the end. */
  function Spelled(t: Text, straddles: bool): string {
    if straddles then Join(t.before) + ":" else Write(t)
  }

  /** The loop's result on a text, from a state before any `::`. */
  ghost predicate Reads(st: Seen, t: Text, r: Option<Seen>) {
    && AllGroups(t.before) && AllGroups(t.after) && (!t.compressed ==> t.after == [])
    && r == Some(Seen(t.compressed, st.before + Values(t.before), Values(t.after)))
  }

  /** Side conditions on trailing and straddling colons. */
  predicate Ends(t: Text, straddles: bool, mixed: bool) {
    && (t.trailing ==> !mixed && !straddles && if t.compressed then t.after != [] else t.before != [])
    && (straddles ==> mixed && t.compressed && t.after == [])
  }

  lemma {:induction false} ReadsCons(st: Seen, g: string, t: Text, r: Option<Seen>)
    requires !st.cc && IsGroup(g) && Reads(Add(st, HexNum(g)), t, r)
    ensures Reads(st, t.(before := [g] + t.before), r)
  {
    ValuesCons(g, t.before);
    assert st.before + [HexNum(g)] + Values(t.before) == st.before + Values([g] + t.before);
  }

  lemma {:induction false} ReadsNothing(st: Seen, t: Text)
    requires t.before == [] && t.after == [] && st == Seen(false, st.before, [])
    ensures Reads(st, t, Some(st.(cc := t.compressed)))
  {
    assert st.before + Values([]) == st.before;
    assert Values([]) == [];
  }

  /** Whatever the loop accepts is spelled by a text. */
  lemma {:induction false} BeforeSound(s: string, mixed: bool, st: Seen) returns (t: Text, straddles: bool)
    requires !st.cc && st.after == [] && Scan(s, mixed, st).Some?
    ensures s == Spelled(t, straddles) && Ends(t, straddles, mixed) && Reads(st, t, Scan(s, mixed, st))
    ensures DoubleColon(s) ==> t.before == [] && t.compressed && !straddles
    ensures mixed && s == ":" ==> t.before == [] && straddles
    ensures s != "" && s[0] != ':' ==> t.before != []
    decreases |s|, 0
  {
    if s == "" || (mixed && s == ":") {
      straddles := s == ":";
      t := Text([], straddles, [], false);
      ReadsNothing(st, t);
    } else if DoubleColon(s) {
      straddles := false;
      t := CompressedSound(s, mixed, st);
    } else {
      var g, rest := GroupRead(s, mixed, st);
      var u;
      u, straddles := BeforeSoundRest(rest, mixed, Add(st, HexNum(g)), g);
      ReadsCons(st, g, u, Scan(s, mixed, st));
      t := u.(before := [g] + u.before);
    }
  }

  lemma {:induction false} CompressedSound(s: string, mixed: bool, st: Seen) returns (t: Text)
    requires !st.cc && st.after == [] && DoubleColon(s) && Scan(s, mixed, st).Some?
    ensures t.before == [] && t.compressed && s == Write(t) && Ends(t, false, mixed) && Reads(st, t, Scan(s, mixed, st))
  {
    var gs, trailing := AfterSound(s[2..], mixed, st.(cc := true));
    t := Text([], true, gs, trailing);
    assert s == "::" + s[2..];
    assert st.before + Values([]) == st.before && [] + Values(gs) == Values(gs);
    assert Write(t) == "" + ("::" + Join(gs)) + Colon(trailing);
  }

  /** The rest after group `g`, before any `::`; `t` is the text without `g`. */
  lemma {:induction false} BeforeSoundRest(rest: string, mixed: bool, st: Seen, g: string) returns (t: Text,
      straddles: bool)
    requires !st.cc && st.after == [] && AfterGroup(rest, mixed, st).Some?
    ensures g + rest == Spelled(t.(before := [g] + t.before), straddles)
    ensures Ends(t.(before := [g] + t.before), straddles, mixed) && Reads(st, t, AfterGroup(rest, mixed, st))
    decreases |rest|, 1
  {
    if rest == "" || (!mixed && rest == ":") {
      straddles := false;
      t := Text([], false, [], rest == ":");
      ReadsNothing(st, t);
    } else if DoubleColon(rest) || rest == ":" {
      t, straddles := BeforeSound(rest, mixed, st);
      assert [g] + t.before == [g];
    } else {
      t, straddles := BeforeSound(rest[1..], mixed, st);
      SpelledCons(g, rest, t, straddles);
    }
  }

  lemma {:induction false} SpelledCons(g: string, rest: string, t: Text, straddles: bool)
    requires t.before != [] && rest != "" && rest[0] == ':' && rest[1..] == Spelled(t, straddles)
    ensures g + rest == Spelled(t.(before := [g] + t.before), straddles)
  {
    JoinCons(g, t.before);
    assert rest == ":" + rest[1..];
  }

  // ----- What is in the grammar is accepted -----

  /** A group is read whole. */
  lemma {:induction false} GroupStarts(g: string, rest: string, mixed: bool, st: Seen)
    requires IsGroup(g) && (rest == "" || rest[0] == ':') && Room(st, mixed)
    ensures Scan(g + rest, mixed, st) == AfterGroup(rest, mixed, Add(st, HexNum(g)))
  {
    var s := g + rest;
    HexRunIs(g, rest);
    assert s[0] == g[0] && s[..|g|] == g && s[|g|..] == rest;
  }

  lemma {:induction false} ColonGroup(x: string, mixed: bool, st: Seen)
    requires x != "" && x[0] != ':'
    ensures AfterGroup(":" + x, mixed, st) == Scan(x, mixed, st)
  {
    var rest := ":" + x;
    assert rest[1..] == x && rest[1] == x[0];
  }

  lemma {:induction false} JoinStarts(gs: seq<string>, tail: string)
    requires AllGroups(gs) && gs != []
    ensures Join(gs) + tail != "" && IsHex((Join(gs) + tail)[0])
  {
    assert (Join(gs) + tail)[0] == gs[0][0];
  }

  lemma {:induction false} AfterComplete(gs: seq<string>, trailing: bool, mixed: bool, st: Seen)
    requires st.cc && AllGroups(gs) && |st.after| + |gs| <= MaxGroups(mixed) && (trailing ==> gs != [] && !mixed)
    ensures Adds(st, gs, Scan(Join(gs) + Colon(trailing), mixed, st))
    decreases |gs|, 0
  {
    if gs == [] {
      assert Join(gs) + Colon(trailing) == "";
      AddsNothing(st);
    } else {
      var g, more := gs[0], gs[1..];
      assert gs == [g] + more;
      AfterCompleteRest(g, more, Colon(trailing), trailing, mixed, st, Add(st, HexNum(g)));
      AddsCons(st, g, more, Scan(Join(gs) + Colon(trailing), mixed, st));
    }
  }

  lemma {:induction false} AfterCompleteRest(g: string, more: seq<string>, tail: string, trailing: bool, mixed: bool,
      st: Seen, st': Seen)
    requires st.cc && IsGroup(g) && AllGroups(more) && |st.after| + 1 + |more| <= MaxGroups(mixed)
    requires (trailing ==> !mixed) && tail == Colon(trailing) && st' == Add(st, HexNum(g))
    ensures Adds(st', more, Scan(Join([g] + more) + tail, mixed, st))
    decreases |more|, 1
  {
    if more == [] {
      assert Join([g] + more) + tail == g + tail;
      GroupStarts(g, tail, mixed, st);
      assert ":"[1..] == "";
      AddsNothing(st');
    } else {
      var x := Join(more) + tail;
      AfterComplete(more, trailing, mixed, st');
      JoinStarts(more, tail);
      JoinCons(g, more);
      assert Join([g] + more) + tail == g + (":" + x);
      GroupStarts(g, ":" + x, mixed, st);
      ColonGroup(x, mixed, st');
    }
  }

  lemma {:induction false} CompressedComplete(t: Text, mixed: bool, st: Seen)
    requires !st.cc && st.after == [] && t.before == [] && t.compressed && AllGroups(t.after)
    requires |t.after| <= MaxGroups(mixed) && Ends(t, false, mixed)
    ensures Reads(st, t, Scan(Write(t), mixed, st)) && DoubleColon(Write(t))
  {
    var s, tail := Write(t), Join(t.after) + Colon(t.trailing);
    assert s == "" + ("::" + Join(t.after)) + Colon(t.trailing);
    assert s[2..] == tail && s[0] == ':' && s[1] == ':';
    AfterComplete(t.after, t.trailing, mixed, st.(cc := true));
    assert st.before + Values([]) == st.before && [] + Values(t.after) == Values(t.after);
  }

  /** The loop accepts the spelling of every text that leaves it room. */
  lemma {:induction false} BeforeComplete(t: Text, mixed: bool, st: Seen)
    requires !st.cc && st.after == [] && AllGroups(t.before) && AllGroups(t.after) && (!t.compressed ==> t.after == [])
    requires |st.before| + |t.before| <= MaxGroups(mixed) && |t.after| <= MaxGroups(mixed) && Ends(t, false, mixed)
    ensures Reads(st, t, Scan(Write(t), mixed, st))
    decreases |t.before|, 0
  {
    if t.before == [] {
      if t.compressed {
        CompressedComplete(t, mixed, st);
      } else {
        assert Write(t) == "";
        ReadsNothing(st, t);
      }
    } else {
      var g, u := t.before[0], t.(before := t.before[1..]);
      var st' := Add(st, HexNum(g));
      assert t.before == [g] + u.before;
      BeforeCompleteRest(g, t, u, mixed, st, st');
      ReadsCons(st, g, u, Scan(Write(t), mixed, st));
    }
  }

  /** One group in front of the text `u`. */
  lemma {:induction false} BeforeCompleteRest(g: string, t: Text, u: Text, mixed: bool, st: Seen, st': Seen)
    requires !st.cc && st.after == [] && IsGroup(g) && AllGroups(u.before) && AllGroups(u.after)
    requires (!u.compressed ==> u.after == []) && t == u.(before := [g] + u.before) && st' == Add(st, HexNum(g))
    requires |st.before| + 1 + |u.before| <= MaxGroups(mixed) && |u.after| <= MaxGroups(mixed) && Ends(t, false, mixed)
    ensures Reads(st', u, Scan(Write(t), mixed, st))
    decreases |u.before|, 1
  {
    if u.before != [] {
      BeforeComplete(u, mixed, st');
      GroupThenText(g, t, u, mixed, st, st');
    } else if u.compressed {
      CompressedComplete(u, mixed, st');
      assert t.before == [g] && Write(t) == g + Write(u);
      GroupStarts(g, Write(u), mixed, st);
    } else {
      assert t.before == [g] && Write(t) == g + Colon(t.trailing);
      GroupStarts(g, Colon(t.trailing), mixed, st);
      assert ":"[1..] == "";
      ReadsNothing(st', u.(trailing := false));
    }
  }

  lemma {:induction false} GroupThenText(g: string, t: Text, u: Text, mixed: bool, st: Seen, st': Seen)
    requires !st.cc && IsGroup(g) && AllGroups(u.before) && u.before != [] && Room(st, mixed)
    requires t == u.(before := [g] + u.before) && st' == Add(st, HexNum(g))
    ensures Scan(Write(t), mixed, st) == Scan(Write(u), mixed, st')
  {
    var x := Write(u);
    WriteStarts(u);
    JoinCons(g, u.before);
    assert Write(t) == g + (":" + x);
    GroupStarts(g, ":" + x, mixed, st);
    ColonGroup(x, mixed, st');
  }

  lemma {:induction false} WriteStarts(t: Text)
    requires AllGroups(t.before) && t.before != []
    ensures Write(t) != "" && IsHex(Write(t)[0])
  {
    assert Write(t)[0] == Join(t.before)[0] == t.before[0][0];
  }

  // ----- The accepted language -----

  /** The pure form: a text of eight groups. */
  ghost predicate PureText(s: string, vs: seq<nat>) {
    exists t :: WellFormed(t, 8) && s == Write(t) && vs == Denotes(t, 8)
  }

  /** The parser's pure path accepts exactly the spellings of eight groups, with their values. */
  lemma {:induction false} PureIff(s: string, vs: seq<nat>)
    ensures ParseGroups(s, false) == Some(vs) <==> PureText(s, vs)
  {
    if ParseGroups(s, false) == Some(vs) {
      var t, straddles := BeforeSound(s, false, NOTHING);
      ReadsExpand(t, 8, Scan(s, false, NOTHING).value);
      assert WellFormed(t, 8) && s == Write(t) && vs == Denotes(t, 8);
    }
    if t :| WellFormed(t, 8) && s == Write(t) && vs == Denotes(t, 8) {
      BeforeComplete(t, false, NOTHING);
      ReadsExpand(t, 8, Scan(s, false, NOTHING).value);
    }
  }

  /** Expanding what was read gives what the text denotes. */
  lemma {:induction false} ReadsExpand(t: Text, max: nat, st: Seen)
    requires Reads(NOTHING, t, Some(st)) && Ends(t, false, false)
    ensures Expand(st, max).Some? <==> WellFormed(t, max)
    ensures WellFormed(t, max) ==> Expand(st, max) == Some(Denotes(t, max))
  {
    assert [] + Values(t.before) == Values(t.before);
  }

  /** A text that ends in half of a `::` is read as compressed. */
  lemma {:induction false} StraddleComplete(gs: seq<string>, st: Seen)
    requires !st.cc && st.after == [] && AllGroups(gs) && |st.before| + |gs| <= 6
    ensures Reads(st, Text(gs, true, [], false), Scan(Join(gs) + ":", true, st))
    decreases |gs|
  {
    if gs == [] {
      assert Join(gs) + ":" == ":";
      ReadsNothing(st, Text([], true, [], false));
    } else {
      var g, more := gs[0], gs[1..];
      var st' := Add(st, HexNum(g));
      assert gs == [g] + more;
      StraddleComplete(more, st');
      StraddleGroup(g, more, st, st');
      ReadsCons(st, g, Text(more, true, [], false), Scan(Join(gs) + ":", true, st));
    }
  }

  lemma {:induction false} StraddleGroup(g: string, more: seq<string>, st: Seen, st': Seen)
    requires !st.cc && IsGroup(g) && AllGroups(more) && Room(st, true) && st' == Add(st, HexNum(g))
    ensures Scan(Join([g] + more) + ":", true, st) == Scan(Join(more) + ":", true, st')
  {
    var x := Join(more) + ":";
    if more == [] {
      assert Join([g] + more) + ":" == g + ":" && x == ":";
      GroupStarts(g, ":", true, st);
    } else {
      JoinStarts(more, ":");
      JoinCons(g, more);
      assert Join([g] + more) + ":" == g + (":" + x);
      GroupStarts(g, ":" + x, true, st);
      ColonGroup(x, true, st');
    }
  }

  /** The hexadecimal part of the mixed form: a text of six groups, whose `::` may straddle its end. */
  ghost predicate MixedForm(s: string, vs: seq<nat>, t: Text, straddles: bool) {
    && WellFormed(t, 6) && !t.trailing && (straddles ==> t.compressed && t.after == [])
    && s == Spelled(t, straddles) && vs == Denotes(t, 6)
  }

  /** The parser's mixed path accepts exactly those texts, with their values. */
  lemma {:induction false} MixedIff(s: string, vs: seq<nat>)
    ensures ParseGroups(s, true) == Some(vs) <==> exists t, straddles :: MixedForm(s, vs, t, straddles)
  {
    if ParseGroups(s, true) == Some(vs) {
      var t, straddles := BeforeSound(s, true, NOTHING);
      ReadsExpand(t, 6, Scan(s, true, NOTHING).value);
      assert MixedForm(s, vs, t, straddles);
    }
    if t, straddles :| MixedForm(s, vs, t, straddles) {
      if straddles {
        StraddleComplete(t.before, NOTHING);
      } else {
        BeforeComplete(t, true, NOTHING);
      }
      ReadsExpand(t, 6, Scan(s, true, NOTHING).value);
    }
  }

  /** A straddling `::` leaves the last group zero. */
  lemma {:induction false} StraddleIsZero(s: string, vs: seq<nat>, t: Text)
    requires MixedForm(s, vs, t, true)
    ensures |vs| == 6 && vs[5] == 0
  {
    assert vs == Values(t.before) + ZeroGroups(6 - |t.before|) + [];
  }

  /** When the last group is not zero, no `::` straddles the end. */
  lemma {:induction false} MixedNonzeroIff(s: string, vs: seq<nat>)
    requires |vs| == 6 && vs[5] != 0
    ensures ParseGroups(s, true) == Some(vs)
      <==> exists t :: WellFormed(t, 6) && !t.trailing && s == Write(t) && vs == Denotes(t, 6)
  {
    MixedIff(s, vs);
    if t, straddles :| MixedForm(s, vs, t, straddles) {
      if straddles {
        StraddleIsZero(s, vs, t);
      }
      assert WellFormed(t, 6) && !t.trailing && s == Write(t) && vs == Denotes(t, 6);
    }
    if t :| WellFormed(t, 6) && !t.trailing && s == Write(t) && vs == Denotes(t, 6) {
      assert MixedForm(s, vs, t, false);
    }
  }
}
