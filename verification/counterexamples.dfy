/** Concrete inputs on which the code does less than its comments say.

A table whose lookups lose a match, because level compression steps over 0.0.0.0/1 and 128.0.0.0/1,
and a prefix whose subnet run stops early. The table is followed through every stage: sorted order,
stored trie, branch choice, slots, walk. */
module Counterexamples {
  import opened BitStrings
  import opened Bytes
  import opened Prefixes
  import opened Patricia
  import opened LevelCompression
  import opened CompressedLookup
  import opened Arena
  import opened BulkSort
  import opened BulkContains
  import opened PrefixIndex
  import opened LowestIndex
  import opened SubnetIteration
  import opened TableLookup
  import opened PrefixText

  function Half(a: Byte): Prefix {
    Prefix(AF_INET, [a, 0, 0, 0], 1)
  }

  function Sixteen(a: Byte): Prefix {
    Prefix(AF_INET, [a, 1, 0, 0], 16)
  }

  /** {0.0.0.0/1, 0.1.0.0/16, 64.1.0.0/16, 128.0.0.0/1, 128.1.0.0/16, 192.1.0.0/16}, in network order. */
  const TABLE: seq<Prefix> := [Half(0), Sixteen(0), Sixteen(64), Half(128), Sixteen(128), Sixteen(192)]

  /** 10.0.0.1. */
  const ADDR: seq<Byte> := [10, 0, 0, 1]

  function Path(a: Byte): Bits {
    ToBits(a, 8) + ToBits(1, 8)
  }

  function LeafAt(a: Byte, idx: nat): Tree {
    Node(Path(a), Some(idx), Empty, Empty)
  }

  /** The Patricia trie of `TABLE`. */
  function Trie(): Tree {
    Node([], None,
         Node([false], Some(0), LeafAt(0, 1), LeafAt(64, 2)),
         Node([true], Some(3), LeafAt(128, 4), LeafAt(192, 5)))
  }

  lemma {:induction false} Quad(s: seq<Byte>)
    requires |s| == 4
    ensures BitsOf(s) == ToBits(s[0], 8) + ToBits(s[1], 8) + ToBits(s[2], 8) + ToBits(s[3], 8)
  {
    BitsOfSnoc(s[..0], s[0]);
    BitsOfSnoc(s[..1], s[1]);
    BitsOfSnoc(s[..2], s[2]);
    BitsOfSnoc(s[..3], s[3]);
    assert s[..1] == s[..0] + [s[0]] && s[..2] == s[..1] + [s[1]] && s[..3] == s[..2] + [s[2]] && s == s[..3] + [s[3]];
  }

  /** The bits of 64q: the two bits of q, then zeros. */
  lemma {:induction false} Quarter(q: nat)
    requires q < 4
    ensures ToBits(64 * q, 8) == [q >= 2, q % 2 == 1] + Repeat(false, 6)
  {
    assert Pow2(6) == 64;
    ToBitsSplit(q, 0, 2, 6);
    ToBitsZero(6);
    assert q * Pow2(6) + 0 == 64 * q;
    assert ToBits(q, 2) == [q >= 2, q % 2 == 1];
  }

  lemma SixteenKey(a: Byte)
    ensures ValidPrefix(Sixteen(a), 4) && Key(Sixteen(a)) == Path(a)
  {
    Quad(Sixteen(a).addr);
    ToBitsZero(8);
    assert BitsOf(Sixteen(a).addr) == Path(a) + (ToBits(0, 8) + ToBits(0, 8));
  }

  lemma HalfKey(h: nat)
    requires h < 2
    ensures ValidPrefix(Half(128 * h), 4) && Key(Half(128 * h)) == [h == 1]
  {
    Quad(Half(128 * h).addr);
    ToBitsZero(8);
    Quarter(2 * h);
    assert BitsOf(Half(128 * h).addr) == ToBits(128 * h, 8) + Repeat(false, 24);
    assert Repeat(false, 31) == [false] + Repeat(false, 6) + Repeat(false, 24);
    assert BitsOf(Half(128 * h).addr) == [h == 1] + Repeat(false, 31);
  }

  /** The first two bits of a /16 of the table. */
  lemma PathTop(q: nat)
    requires q < 4
    ensures Path(64 * q)[0] == (q >= 2) && Path(64 * q)[1] == (q % 2 == 1)
  {
    Quarter(q);
  }

  /** The bits of entry `i`. */
  function KeyNo(i: nat): Bits {
    if i == 0 then [false] else if i == 1 then Path(0) else if i == 2 then Path(64)
    else if i == 3 then [true] else if i == 4 then Path(128) else Path(192)
  }

  lemma TableKey(i: nat)
    requires i < |TABLE|
    ensures ValidPrefix(TABLE[i], 4) && Key(TABLE[i]) == KeyNo(i)
  {
    if i == 0 || i == 3 {
      var h := if i == 0 then 0 else 1;
      HalfKey(h);
      assert TABLE[i] == Half(128 * h);
    } else {
      var a: Byte := if i == 1 then 0 else if i == 2 then 64 else if i == 4 then 128 else 192;
      SixteenKey(a);
      assert TABLE[i] == Sixteen(a);
    }
  }

  lemma TableKeys()
    ensures AllValid(TABLE, 4)
    ensures forall i: nat :: i < |TABLE| ==> Key(TABLE[i]) == KeyNo(i)
  {
    forall i: nat | i < |TABLE|
      ensures ValidPrefix(TABLE[i], 4) && Key(TABLE[i]) == KeyNo(i)
    {
      TableKey(i);
    }
  }

  lemma TrieWf()
    ensures Wf(Trie(), 32)
  {
    PathTop(0);
    PathTop(1);
    PathTop(2);
    PathTop(3);
  }

  lemma PairSorted(i: nat, j: nat)
    requires i < j < |TABLE|
    ensures LexLe(NetworkKey(TABLE[i]), NetworkKey(TABLE[j]))
  {
    var x, y := NetworkKey(TABLE[i]), NetworkKey(TABLE[j]);
    var d: nat := if x[0] < y[0] then 0 else 1;
    assert x[..d] == y[..d] && x[d] < y[d];
    assert DifferAt(x, y, d);
  }

  lemma TableSorted()
    ensures Table(TABLE, 4) && NetworkSorted(TABLE)
  {
    TableKeys();
    forall i, j | 0 <= i < j < |TABLE|
      ensures LexLe(NetworkKey(TABLE[i]), NetworkKey(TABLE[j]))
    {
      PairSorted(i, j);
    }
    SortedIsTable(TABLE, 4);
  }

  lemma SortedIsTable(ps: seq<Prefix>, len: nat)
    requires AllValid(ps, len) && NetworkSorted(ps)
    ensures Table(ps, len)
  {
    forall i: nat, j: nat | i < j < |ps|
      ensures InOrder(ps, i, j)
    {
      NetworkOrder(ps[i], ps[j], len);
    }
  }

  lemma {:induction false} HeldByLeaf(a: Byte, i: nat, key: Bits, idx: nat)
    ensures Holds(LeafAt(a, i), key, idx) <==> key == Path(a) && idx == i
  {
  }

  lemma {:induction false} HeldByTrie(key: Bits, idx: nat)
    ensures Holds(Trie(), key, idx) <==> idx < |TABLE| && key == KeyNo(idx)
  {
    HeldByLeaf(0, 1, key, idx);
    HeldByLeaf(64, 2, key, idx);
    HeldByLeaf(128, 4, key, idx);
    HeldByLeaf(192, 5, key, idx);
  }

  lemma KeysDistinct(i: nat, j: nat)
    requires i < j < |TABLE|
    ensures KeyNo(i) != KeyNo(j)
  {
    TableKey(i);
    TableKey(j);
    var p, q := TABLE[i], TABLE[j];
    assert p.addr[0] != q.addr[0] || p.pfxlen != q.pfxlen;
    if KeyNo(i) == KeyNo(j) {
      KeyInjective(p, q, 4);
    }
  }

  /** `Trie()` is the trie that the build makes of the table, whatever the tags. */
  lemma TrieStores(ps: seq<Prefix>)
    requires Table(ps, 4) && |ps| == |TABLE| && forall k: nat :: k < |ps| ==> SamePrefix(ps[k], TABLE[k])
    ensures Stores(Trie(), ps, 4, 0, |ps|)
  {
    TableKeys();
    assert forall k: nat :: k < |ps| ==> Key(ps[k]) == KeyNo(k);
    forall key: Bits, idx: nat
      ensures Holds(Trie(), key, idx) <==> FirstAt(ps, 4, 0, |ps|, key, idx)
    {
      HeldByTrie(key, idx);
      forall j: nat | j < idx < |ps|
        ensures Key(ps[j]) != Key(ps[idx])
      {
        KeysDistinct(j, idx);
      }
    }
  }

  /** Every index of the table holds that trie. */
  lemma IndexedTrie(idx: CidrIndex)
    requires idx.Valid() && idx.family == AF_INET && idx.source == TABLE
    ensures idx.trie == Trie()
  {
    var ps, t := idx.prefixes[..], SortedTags(TABLE, 4);
    TableSorted();
    SortedStays(TABLE, 4);
    forall k: nat | k < |ps|
      ensures SamePrefix(ps[k], TABLE[k])
    {
      assert RunTagAt(t, ps, idx.origIndices[..], k);
    }
    TrieStores(ps);
    TrieWf();
    Canonical(idx.trie, Trie(), 32);
  }

  /** One branch bit costs 7 nodes, two cost 5, more cost at least 9. */
  lemma {:induction false} TwoBitsAreBest(t: Tree, width: nat)
    requires t.Node? && !t.Leaf() && Wf(t, width) && MaxBranch(t, width) == 8
    requires CostWith(t, width, 1) == 7 && CostWith(t, width, 2) == 5
    ensures Cost(t, width) == 5 && Branch(t, width) == 2
  {
    var best := BestUpTo(t, width, 8);
    BestUpToIsMin(t, width, 8, 2);
    CostAtLeast(t, width, best.1);
    if best.1 >= 3 {
      Pow2Grows(best.1);
    }
  }

  lemma {:induction false} CostAtLeast(t: Tree, width: nat, b: nat)
    requires t.Node? && Wf(t, width) && b >= 1
    ensures CostWith(t, width, b) >= 1 + Pow2(b)
  {
  }

  lemma RootBranch()
    ensures Wf(Trie(), 32) && Cost(Trie(), 32) == 5 && Branch(Trie(), 32) == 2
  {
    OneBit();
    TwoBits();
    TwoBitsAreBest(Trie(), 32);
  }

  lemma {:induction false} Pow2Grows(b: nat)
    requires b >= 3
    ensures Pow2(b) >= 8
  {
    if b > 3 {
      Pow2Grows(b - 1);
    } else {
      assert Pow2(3) == 8;
    }
  }

  /** A node with two leaves below it packs into three nodes. */
  lemma {:induction false} ForkCost(t: Tree, width: nat)
    requires t.Node? && Wf(t, width) && t.left.Leaf() && t.right.Leaf() && |t.path| < width
    ensures Cost(t, width) == 3
  {
    var m := MaxBranch(t, width);
    assert ToBits(0, 1) == [false] && ToBits(1, 1) == [true];
    assert SlotTarget(t, width, 1, 0) == t.left && SlotTarget(t, width, 1, 1) == t.right;
    assert SlotSum(t, width, 1, 0) == 0 && SlotSum(t, width, 1, 1) == 1 && SlotSum(t, width, 1, 2) == 2;
    assert Pow2(1) == 2 && CostWith(t, width, 1) == 3;
    BestUpToIsMin(t, width, m, 1);
    var best := BestUpTo(t, width, m);
    CostAtLeast(t, width, best.1);
    if best.1 >= 2 {
      FourSlots(best.1);
    }
  }

  lemma {:induction false} FourSlots(b: nat)
    requires b >= 2
    ensures Pow2(b) >= 4
  {
    if b > 2 {
      FourSlots(b - 1);
    } else {
      assert Pow2(2) == 4;
    }
  }

  lemma OneBit()
    ensures Wf(Trie(), 32) && CostWith(Trie(), 32, 1) == 7
  {
    TrieWf();
    var t := Trie();
    assert ToBits(0, 1) == [false] && ToBits(1, 1) == [true];
    assert SlotTarget(t, 32, 1, 0) == t.left && SlotTarget(t, 32, 1, 1) == t.right;
    ForkCost(t.left, 32);
    ForkCost(t.right, 32);
    assert SlotSum(t, 32, 1, 0) == 0 && SlotSum(t, 32, 1, 1) == 3 && SlotSum(t, 32, 1, 2) == 6;
    assert Pow2(1) == 2;
  }

  /** Slot `s` of two bits leads to a grandchild of the root. */
  lemma {:induction false} Grandchild(t: Tree, width: nat, s: nat)
    requires t.Node? && Wf(t, width) && t.path == [] && s < 4
    requires t.Child(s >= 2).Node? && |t.Child(s >= 2).path| == 1 && t.Child(s >= 2).Child(s % 2 == 1).Node?
    ensures SlotTarget(t, width, 2, s) == t.Child(s >= 2).Child(s % 2 == 1)
  {
    var pat := ToBits(s, 2);
    assert pat == [s >= 2, s % 2 == 1];
    assert pat[1..] == [s % 2 == 1] && pat[1..][1..] == [];
    var c := t.Child(s >= 2);
    var d := c.Child(s % 2 == 1);
    assert Target(t, pat) == Step(c, 1, pat[1..]) == Step(d, 2, []) == d;
  }

  /** With two branch bits every slot goes straight to a leaf, past the /1 above it. */
  lemma TwoBitSlot(s: nat)
    requires s < 4
    ensures Wf(Trie(), 32) && SlotTarget(Trie(), 32, 2, s) == Trie().Child(s >= 2).Child(s % 2 == 1)
  {
    TrieWf();
    Grandchild(Trie(), 32, s);
  }

  lemma TwoBits()
    ensures Wf(Trie(), 32) && CostWith(Trie(), 32, 2) == 5
  {
    TrieWf();
    var t := Trie();
    TwoBitSlot(0);
    TwoBitSlot(1);
    TwoBitSlot(2);
    TwoBitSlot(3);
    assert SlotSum(t, 32, 2, 0) == 0 && SlotSum(t, 32, 2, 1) == 1 && SlotSum(t, 32, 2, 2) == 2;
    assert SlotSum(t, 32, 2, 3) == 3 && SlotSum(t, 32, 2, 4) == 4;
    assert Pow2(2) == 4;
  }

  /** A walk that goes straight to a leaf off the address's path finds only the root's own match. */
  lemma {:induction false} LeafMissed(t: Tree, width: nat, a: Bits, u: Tree)
    requires t.Node? && !t.Leaf() && Wf(t, width) && |a| == width && t.pfx.None?
    requires u == Next(t, width, a) && u.Leaf() && !(u.path <= a)
    ensures Rest(t, 0, width, a) == None
  {
    GoesOn(t, 0, width, a);
    EndsHere(u, |t.path| + Branch(t, width), width, a);
  }

  lemma AddrBits()
    ensures BitsOf(ADDR)[0..2] == [false, false] && [false] <= BitsOf(ADDR) && !(Path(0) <= BitsOf(ADDR))
  {
    var a := BitsOf(ADDR);
    Quad(ADDR);
    assert Pow2(6) == 64;
    ToBitsSplit(0, 10, 2, 6);
    assert 0 * Pow2(6) + 10 == 10;
    assert ToBits(0, 2) == [false, false];
    assert a[0..2] == ToBits(10, 8)[..2] == [false, false];
    if Path(0) <= a {
      assert Path(0)[..8] == ToBits(0, 8) && a[..8] == ToBits(10, 8);
      ByteEqual(0, 10);
    }
  }

  lemma {:induction false} FirstStep(t: Tree, width: nat, a: Bits, u: Tree)
    requires t.Node? && !t.Leaf() && Wf(t, width) && |a| == width && t.path == [] && Branch(t, width) == 2 <= width
    requires a[0..2] == [false, false] && u == SlotTarget(t, width, 2, 0)
    ensures u == Next(t, width, a)
  {
    assert Val([false, false]) == 0;
  }

  lemma NothingFound()
    ensures Wf(Trie(), 32) && Found(Trie(), 32, BitsOf(ADDR)) == None
  {
    RootBranch();
    AddrBits();
    TwoBitSlot(0);
    var t, a, u := Trie(), BitsOf(ADDR), LeafAt(0, 1);
    FirstStep(t, 32, a, u);
    LeafMissed(t, 32, a, u);
    assert Rest(t, 0, 32, a) == Found(t, 32, a);
  }

  /** Looking up 10.0.0.1 answers -1 although 0.0.0.0/1 contains it. */
  lemma NestedPrefixIsLost()
    ensures Table(TABLE, 4) && Wf(Trie(), 32) && Stores(Trie(), TABLE, 4, 0, |TABLE|)
    ensures Branch(Trie(), 32) == 2 && Cost(Trie(), 32) == 5
    ensures LookupGives(TABLE, 4, Trie(), ADDR, -1)
    ensures Contains(TABLE[0], ADDR) && !LongestFor(TABLE, 4, ADDR, -1)
  {
    TableSorted();
    TrieStores(TABLE);
    RootBranch();
    NothingFound();
    AddrBits();
    TableKeys();
    assert Contains(TABLE[0], ADDR);
  }

  /** 5.0.0.0/16, 1.0.0.0/8, 1.0.0.0/8: in the order of CIDR_SORT_PFXLEN_DESC. */
  const DESC: seq<Prefix> := [Prefix(AF_INET, [5, 0, 0, 0], 16), Prefix(AF_INET, [1, 0, 0, 0], 8),
    Prefix(AF_INET, [1, 0, 0, 0], 8)]

  lemma HostZeros(a: Byte, n: Byte)
    requires n == 8 || n == 16
    ensures ValidPrefix(Prefix(AF_INET, [a, 0, 0, 0], n), 4)
  {
    var z := Repeat(false, 8);
    ToBitsZero(8);
    Quad([a, 0, 0, 0]);
    assert BitsOf([a, 0, 0, 0])[n..] == if n == 8 then z + z + z else z + z;
    assert z + z == Repeat(false, 16) && z + z + z == Repeat(false, 24);
  }

  lemma DescValid()
    ensures AllValid(DESC, 4) && DescOrdered(DESC)
  {
    HostZeros(5, 16);
    HostZeros(1, 8);
    assert DescKey(DESC[0])[0] == 239 && DescKey(DESC[1])[0] == 247 && DescKey(DESC[2]) == DescKey(DESC[1]);
    assert DifferAt(DescKey(DESC[0]), DescKey(DESC[1]), 0);
    assert LexLe(DescKey(DESC[0]), DescKey(DESC[1])) && LexLe(DescKey(DESC[1]), DescKey(DESC[2]));
  }

  lemma DescTwo()
    ensures TwoPrefixes(DESC, DESC[1], DESC[0], 4) && TellsApart(DESC[1], DESC[0], 4, 0) && Copies(DESC, DESC[1]) == 2
  {
    DescValid();
    assert DifferAt(NetworkKey(DESC[1]), NetworkKey(DESC[0]), 0);
    var two, one := [DESC[0], DESC[1]], [DESC[0]];
    assert DESC[..2] == two && two[..1] == one && one[..0] == [];
    assert Copies(one, DESC[1]) == Copies([], DESC[1]) == 0;
    assert Copies(two, DESC[1]) == Copies(one, DESC[1]) + 1 == 1;
  }

  /** The recorded indices: the second copy's for both copies. */
  lemma DescRecorded(sorted: seq<Prefix>, orig: seq<nat>)
    requires RunTags(DESC, sorted, orig, 4)
    ensures orig == [2, 2, 0] && !RecordsLowest(DESC, sorted, orig)
  {
    DescTags(sorted, orig);
    assert SamePrefix(DESC[1], sorted[0]);
  }

  lemma DescTags(sorted: seq<Prefix>, orig: seq<nat>)
    requires RunTags(DESC, sorted, orig, 4)
    ensures orig == [2, 2, 0] && SamePrefix(sorted[0], DESC[1])
  {
    var p, q := DESC[1], DESC[0];
    DescSorted();
    RunOfTwo(DESC, sorted, orig, 4, p, q, 0);
    RunOfTwo(DESC, sorted, orig, 4, p, q, 1);
    RunOfTwo(DESC, sorted, orig, 4, p, q, 2);
  }

  lemma DescSorted()
    ensures var t := SortedTags(DESC, 4);
      && Copies(DESC, DESC[1]) == 2 && t[0].family == 2 && t[2].family == 0
      && forall k :: 0 <= k < |t| ==> SamePrefix(t[k], if k < 2 then DESC[1] else DESC[0])
  {
    DescValid();
    DescTwo();
    TwoSorted(DESC, DESC[1], DESC[0], 4, 0);
    assert TagAll(DESC)[1].family == 1;
  }

  /** On that table, sorted as documented, first match of 1.0.0.1 is index 1 and lookup answers 2. */
  lemma DescTableDisagrees(idx: CidrIndex, m: int, f: int)
    requires idx.Valid() && idx.family == AF_INET && idx.source == DESC
    requires LookupGives(DESC, 4, idx.trie, [1, 0, 0, 1], m) && Recorded(idx.origIndices[..], m)
    requires AllValid(DESC, 4) && IsFirstMatch(DESC, 4, [1, 0, 0, 1], f)
    ensures DescOrdered(DESC) && f == 1 && m == 2
  {
    DescValid();
    DescRecorded(idx.prefixes[..], idx.origIndices[..]);
    ValidHolds(idx.nodes[..], idx.prefixes[..], idx.origIndices[..], 4, DESC, idx.trie);
    DescFirstMatch();
    DescUnnested();
    UnnestedLookupIsRight(DESC, 4, idx.trie, [1, 0, 0, 1], m);
  }

  lemma DescFirstMatch()
    requires AllValid(DESC, 4)
    ensures IsFirstMatch(DESC, 4, [1, 0, 0, 1], 1)
  {
    var addr: seq<Byte> := [1, 0, 0, 1];
    assert DESC[0].addr[..2][0] == 5 && addr[..2][0] == 1 && DESC[1].addr[..1] == addr[..1];
    assert !BulkPrefixContains(DESC[0], addr) && BulkPrefixContains(DESC[1], addr);
  }

  lemma DescUnnested()
    requires AllValid(DESC, 4)
    ensures Unnested(DESC, 4)
  {
    assert Key(DESC[1]) <= Key(DESC[0]) ==> Key(DESC[1]) <= BitsOf(DESC[0].addr);
    assert DESC[1].addr[..1][0] == 1 && DESC[0].addr[..1][0] == 5;
    assert !BulkPrefixContains(DESC[1], DESC[0].addr);
  }

  /** An array of IPv4 prefixes small enough for the node limit always gets an index. */
  method CreateIpv4(table: array<Prefix>, nodeLimit: nat) returns (idx: CidrIndex)
    requires AllValid(table[..], 4) && forall k :: 0 <= k < table.Length ==> table[k].family == AF_INET
    requires 0 < table.Length && 2 * table.Length - 1 <= nodeLimit < TAG_LIMIT
    ensures idx.Valid() && idx.family == AF_INET && idx.source == table[..]
  {
    DistinctAtMost(table[..], 4);
    assert forall k :: 0 <= k < table.Length ==> table[..][k] == table[k];
    assert Admissible(table[..], nodeLimit);
    var status, made, trie := Create(table, nodeLimit);
    assert status == Ok;
    idx := made;
  }

  /** Looking up one IPv4 address. */
  method LookupIpv4(idx: CidrIndex, addr: seq<Byte>) returns (answer: int)
    requires idx.Valid() && idx.family == AF_INET && |addr| == 4
    ensures LookupGives(idx.source, 4, idx.trie, addr, answer) && Recorded(idx.origIndices[..], answer)
  {
    var addrs, matches := [Address(AF_INET, addr)], new int[1];
    var status := idx.Lookup(addrs, matches);
    assert Families(addrs, AddressFamily)[0] == addrs[0].family == AF_INET;
    assert status == Ok;
    assert addrs[0].bytes == addr;
    answer := matches[0];
  }

  /** Creating an index of the table and looking 10.0.0.1 up in it answers -1. */
  method LookupLosesMatch() returns (answer: int)
    ensures answer == -1
  {
    var table := new Prefix[6](i requires 0 <= i < 6 => TABLE[i]);
    assert table[..] == TABLE;
    TableKeys();
    var idx := CreateIpv4(table, 11);
    answer := LookupIpv4(idx, ADDR);
    IndexedTrie(idx);
    NothingFound();
  }

  /** Creating an index of the descending table and looking 1.0.0.1 up in it answers 2, not 1. */
  method LookupMissesFirst() returns (answer: int)
    ensures answer == 2
  {
    var table := new Prefix[3](i requires 0 <= i < 3 => DESC[i]);
    assert table[..] == DESC;
    DescValid();
    var idx := CreateIpv4(table, 5);
    answer := LookupIpv4(idx, [1, 0, 0, 1]);
    DescFirstMatch();
    DescTableDisagrees(idx, answer, 1);
  }

  /** A failed parse leaves the family of the caller's prefix set, although the comment of
      `cidr_prefix_parse` promises to unset it. */
  method FailedParseKeepsFamily() returns (family: nat)
    ensures family == AF_INET
  {
    var out := new PrefixCell(Prefix(AF_INET, [10, 0, 0, 0], 8));
    var status := ParsePrefix("", out);
    assert status == ErrParse;
    family := out.value.family;
  }

  lemma TopHalf(target: nat)
    requires 1 < target <= 32
    ensures Splits(Half(128), target) && !ReachesAll(Half(128)) && 1 < SubnetCount(Half(128), target)
  {
    HalfKey(1);
    TopBlocks(Half(128));
    SeveralSubnets(Half(128), target);
    assert Repeat(true, 1) == [true];
  }

  /** Iterating over 128.0.0.0/1 hands out one subnet at every target length, and then reports the end. */
  method TopHalfStopsEarly(target: Byte) returns (subnets: seq<Prefix>)
    requires 1 < target <= 32
    ensures Splits(Half(128), target) && |subnets| == 1 < SubnetCount(Half(128), target)
    ensures subnets == [Prefix(AF_INET, [128, 0, 0, 0], target)]
  {
    TopHalf(target);
    var iter := new SubnetIter();
    var status := iter.Init(Half(128), target);
    assert status == Ok;
    subnets := Drain(iter, Half(128), target);
    FirstSubnet(Half(128), target);
  }
}
