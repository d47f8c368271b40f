/** `cidr_index_create` and `cidr_index_lookup`: when an answer is a longest match on the caller's table. */
module TableLookup {
  import opened BitStrings
  import opened Bytes
  import opened Prefixes
  import opened BulkSort
  import opened BulkContains
  import opened Patricia
  import opened LevelCompression
  import opened CompressedLookup
  import opened Arena
  import opened Packing
  import opened PrefixIndex
  import opened LowestIndex

  // ----- Family checks -----

  /** The outcome of checking families in order: the first one that is not `family` decides. */
  ghost predicate FamilyOutcome(fs: seq<nat>, family: nat, status: Status) {
    match status
    case Ok => forall i :: 0 <= i < |fs| ==> fs[i] == family
    case ErrInval => exists i :: FirstBad(fs, family, i) && fs[i] == AF_UNSPEC
    case ErrFamily => exists i :: FirstBad(fs, family, i) && fs[i] != AF_UNSPEC
    case _ => false
  }

  predicate FirstBad(fs: seq<nat>, family: nat, i: int) {
    0 <= i < |fs| && (fs[i] == AF_UNSPEC || fs[i] != family) && forall j :: 0 <= j < i ==> fs[j] == family
  }

  method CheckFamilies(fs: seq<nat>, family: nat) returns (status: Status)
    requires family != AF_UNSPEC
    ensures FamilyOutcome(fs, family, status)
    ensures status == Ok <==> forall i :: 0 <= i < |fs| ==> fs[i] == family
    ensures status == ErrInval <==>
      exists i :: 0 <= i < |fs| && fs[i] == AF_UNSPEC && forall j :: 0 <= j < i ==> fs[j] == family
    ensures status == Ok || status == ErrInval || status == ErrFamily
  {
    for i := 0 to |fs|
      invariant forall j :: 0 <= j < i ==> fs[j] == family
    {
      if fs[i] == AF_UNSPEC {
        assert FirstBad(fs, family, i);
        return ErrInval;
      }
      if fs[i] != family {
        assert FirstBad(fs, family, i);
        return ErrFamily;
      }
    }
    return Ok;
  }

  function PrefixFamily(p: Prefix): nat {
    p.family
  }

  function AddressFamily(a: Address): nat {
    a.family
  }

  function Families<T>(xs: seq<T>, family: T -> nat): (fs: seq<nat>)
    ensures |fs| == |xs| && forall i :: 0 <= i < |xs| ==> fs[i] == family(xs[i])
  {
    seq(|xs|, i requires 0 <= i < |xs| => family(xs[i]))
  }

  // ----- The index object -----

  /** The contents of an index: the packed nodes stand for `trie`, which holds the caller's table. */
  ghost predicate Indexes(nodes: seq<LcNode>, prefixes: seq<Prefix>, origIndices: seq<nat>, len: nat,
      source: seq<Prefix>, trie: Tree)
  {
    && AllValid(source, len) && |source| >= 1
    && Table(prefixes, len) && MapsBack(source, prefixes, origIndices) && RunTags(source, prefixes, origIndices, len)
    && trie.Node? && Wf(trie, 8 * len) && Stores(trie, prefixes, len, 0, |prefixes|)
    && |nodes| == Cost(trie, 8 * len) && PackedAt(nodes, 0, 1, trie, 0, 8 * len)
  }

  /** `cidr_index_t`. */
  class CidrIndex {
    const nodes: array<LcNode>
    const prefixes: array<Prefix>
    const origIndices: array<nat>
    const family: nat
    // The caller's array and the trie the packed nodes stand for.
    ghost const source: seq<Prefix>
    ghost const trie: Tree

    ghost predicate Valid()
      reads this, nodes, prefixes, origIndices
    {
      && (family == AF_INET || family == AF_INET6)
      && Indexes(nodes[..], prefixes[..], origIndices[..], AddrLen(family), source, trie)
    }

    constructor (nodes: array<LcNode>, prefixes: array<Prefix>, origIndices: array<nat>, family: nat,
        ghost source: seq<Prefix>, ghost trie: Tree)
      ensures this.nodes == nodes && this.prefixes == prefixes && this.origIndices == origIndices
      ensures this.family == family && this.source == source && this.trie == trie
    {
      this.nodes := nodes;
      this.prefixes := prefixes;
      this.origIndices := origIndices;
      this.family := family;
      this.source := source;
      this.trie := trie;
    }

    /** `cidr_index_lookup`: nothing is written unless every address has the index's family; then
        each slot gets what the packed walk finds, as an index of the caller's array. */
    method Lookup(addrs: seq<Address>, matches: array<int>) returns (status: Status)
      requires Valid() && matches.Length == |addrs|
      requires forall i :: 0 <= i < |addrs| ==> addrs[i].family != AF_UNSPEC ==> ValidAddress(addrs[i])
      modifies matches
      ensures Valid() && FamilyOutcome(Families(addrs, AddressFamily), family, status)
      ensures status != Ok ==> matches[..] == old(matches[..])
      ensures status == Ok ==> forall i :: 0 <= i < |addrs| ==>
        LookupGives(source, AddrLen(family), trie, addrs[i].bytes, matches[i]) && Recorded(origIndices[..], matches[i])
    {
      status := CheckFamilies(Families(addrs, AddressFamily), family);
      if status != Ok {
        return;
      }
      ghost var len := AddrLen(family);
      Ready(nodes[..], prefixes[..], origIndices[..], len, source, trie);
      for i := 0 to |addrs|
        invariant Valid()
        invariant forall k :: 0 <= k < i ==>
          LookupGives(source, len, trie, addrs[k].bytes, matches[k]) && Recorded(origIndices[..], matches[k])
      {
        assert Families(addrs, AddressFamily)[i] == addrs[i].family;
        matches[i] := Walk(nodes, prefixes, origIndices, addrs[i].bytes, 8 * AddrLen(family), len, source, trie);
      }
    }
  }

  /** Every prefix with a known family is valid for it. */
  ghost predicate ValidForFamily(ps: seq<Prefix>) {
    forall i :: 0 <= i < |ps| && ps[i].family != AF_UNSPEC ==> Proper(ps[i])
  }

  /** What `cidr_index_create` demands of the array before it builds anything. */
  ghost predicate Admissible(ps: seq<Prefix>, nodeLimit: nat) {
    0 < |ps| <= nodeLimit && ps[0].family != AF_UNSPEC && forall i :: 0 <= i < |ps| ==> ps[i].family == ps[0].family
  }

  /** The different prefixes of a table. */
  ghost function DistinctKeys(source: seq<Prefix>, len: nat): set<Bits>
    requires AllValid(source, len)
  {
    set m: nat | m < |source| :: Key(source[m])
  }

  lemma {:induction false} DistinctAtMost(source: seq<Prefix>, len: nat)
    requires AllValid(source, len)
    ensures |DistinctKeys(source, len)| <= |source|
  {
    if source != [] {
      var n := |source| - 1;
      var init := source[..n];
      DistinctAtMost(init, len);
      assert forall m: nat :: m < n ==> init[m] == source[m];
      assert DistinctKeys(source, len) == DistinctKeys(init, len) + {Key(source[n])};
    }
  }

  /** Neither the trie nor its packed form has more than `2n - 1` nodes for `n` different prefixes. */
  lemma {:induction false} PackedBound(source: seq<Prefix>, len: nat, trie: Tree)
    requires AllValid(source, len) && trie.Node? && Wf(trie, 8 * len) && HoldsTable(trie, source, len)
    ensures trie.Count() <= 2 * |DistinctKeys(source, len)| - 1
    ensures Cost(trie, 8 * len) <= 2 * |DistinctKeys(source, len)| - 1
  {
    forall key: Bits
      ensures key in HeldKeys(trie) <==> key in DistinctKeys(source, len)
    {
      InHeldKeys(trie, key);
      assert HeldKey(trie, key) <==> KeyIn(key, source, len);
    }
    assert HeldKeys(trie) == DistinctKeys(source, len);
    StoredIsKeys(trie, 8 * len);
    NodeBound(trie, 8 * len);
    CostBound(trie, 8 * len);
  }

  /** `cidr_index_create`: an index of the caller's table, or the reason there is none. An admissible
      table fails exactly when its trie or the trie's least packed size is over the node limit. */
  method Create(prefixes: array<Prefix>, nodeLimit: nat) returns (status: Status, idx: CidrIndex?, ghost trie: Tree)
    requires nodeLimit < TAG_LIMIT && ValidForFamily(prefixes[..])
    ensures status == Ok <==> idx != null
    ensures !Admissible(prefixes[..], nodeLimit) ==>
      if prefixes.Length == 0 || prefixes.Length > nodeLimit || prefixes[0].family == AF_UNSPEC then status == ErrInval
      else FamilyOutcome(Families(prefixes[..], PrefixFamily), prefixes[0].family, status)
    ensures idx != null ==> Admissible(prefixes[..], nodeLimit) && idx.Valid()
    ensures idx != null ==> fresh(idx) && fresh(idx.nodes) && fresh(idx.prefixes) && fresh(idx.origIndices)
    ensures idx != null ==> idx.source == prefixes[..] && idx.family == prefixes[0].family && idx.trie == trie
    ensures Admissible(prefixes[..], nodeLimit) ==>
      var len := AddrLen(prefixes[0].family);
      && AllValid(prefixes[..], len) && trie.Node? && Wf(trie, 8 * len) && HoldsTable(trie, prefixes[..], len)
      && status == (if trie.Count() <= nodeLimit && Cost(trie, 8 * len) <= nodeLimit then Ok else ErrInval)
      && (2 * |DistinctKeys(prefixes[..], len)| - 1 <= nodeLimit ==> status == Ok)
  {
    trie := Empty;
    ghost var source := prefixes[..];
    if prefixes.Length == 0 || prefixes.Length > nodeLimit || prefixes[0].family == AF_UNSPEC {
      return ErrInval, null, trie;
    }
    var family := prefixes[0].family;
    status := CheckFamilies(Families(prefixes[..], PrefixFamily), family);
    if status != Ok {
      FamiliesDiffer(source, nodeLimit, status);
      return status, null, trie;
    }
    assert forall i :: 0 <= i < |source| ==> Families(source, PrefixFamily)[i] == source[i].family;
    var copy, origMap := SortTable(prefixes, AddrLen(family), family);
    var nodes;
    nodes, trie := BuildPacked(copy, AddrLen(family), nodeLimit);
    StoresTable(trie, source, copy[..], origMap[..], AddrLen(family));
    PackedBound(source, AddrLen(family), trie);
    if nodes == null {
      return ErrInval, null, trie;
    }
    idx := new CidrIndex(nodes, copy, origMap, family, source, trie);
  }

  lemma FamiliesDiffer(ps: seq<Prefix>, nodeLimit: nat, status: Status)
    requires |ps| > 0 && FamilyOutcome(Families(ps, PrefixFamily), ps[0].family, status) && status != Ok
    ensures !Admissible(ps, nodeLimit)
  {
    var fs := Families(ps, PrefixFamily);
    var i :| FirstBad(fs, ps[0].family, i);
    assert ps[i].family == fs[i];
  }

  /** A valid index is ready for a walk from its root. */
  lemma Ready(nodes: seq<LcNode>, prefixes: seq<Prefix>, orig: seq<nat>, len: nat, source: seq<Prefix>, trie: Tree)
    requires Indexes(nodes, prefixes, orig, len, source, trie)
    ensures Standing(nodes, prefixes, len, trie, 0, 1, 0)
  {
    forall key: Bits, idx: nat | Holds(trie, key, idx)
      ensures idx < |prefixes| && Key(prefixes[idx]) == key
    {
      assert FirstAt(prefixes, len, 0, |prefixes|, key, idx);
    }
    StoredLabels(trie, prefixes, len);
  }

  /** `m` is what a lookup of `addr` answers. */
  ghost predicate LookupGives(source: seq<Prefix>, len: nat, trie: Tree, addr: seq<Byte>, m: int) {
    AllValid(source, len) && Wf(trie, 8 * len) && |addr| == len
    && Reports(source, len, m, Found(trie, 8 * len, BitsOf(addr)))
  }

  // ----- What a lookup means -----

  /** The right answer: a longest prefix of the table that contains the address, or -1 for none. */
  ghost predicate LongestFor(source: seq<Prefix>, len: nat, addr: seq<Byte>, m: int)
    requires AllValid(source, len)
  {
    && -1 <= m < |source|
    && (m >= 0 ==> Contains(source[m], addr))
    && forall j: nat :: j < |source| && Contains(source[j], addr) ==> m >= 0 && source[j].pfxlen <= source[m].pfxlen
  }

  /** Every answer is sound: the prefix it names contains the address. */
  lemma LookupIsSound(source: seq<Prefix>, len: nat, trie: Tree, addr: seq<Byte>, m: int)
    requires LookupGives(source, len, trie, addr, m) && HoldsTable(trie, source, len)
    ensures -1 <= m < |source| && (m >= 0 ==> Contains(source[m], addr))
  {
    FoundSound(trie, 8 * len, BitsOf(addr));
  }

  /** On one address, the answer is right exactly when the walk finds the longest stored key. */
  lemma {:induction false} RightAnswer(source: seq<Prefix>, len: nat, trie: Tree, addr: seq<Byte>, m: int)
    requires LookupGives(source, len, trie, addr, m) && HoldsTable(trie, source, len)
    ensures LongestFor(source, len, addr, m) <==> IsLongest(trie, BitsOf(addr), Found(trie, 8 * len, BitsOf(addr)))
  {
    var a, found := BitsOf(addr), Found(trie, 8 * len, BitsOf(addr));
    LookupIsSound(source, len, trie, addr, m);
    FoundSound(trie, 8 * len, a);
    if LongestFor(source, len, addr, m) {
      forall key | HeldKey(trie, key) && key <= a
        ensures found.Some? && |key| <= |found.value|
      {
        assert KeyIn(key, source, len);
        var j: nat :| j < |source| && Key(source[j]) == key;
        assert Contains(source[j], addr);
      }
    }
    if IsLongest(trie, a, found) {
      forall j: nat | j < |source| && Contains(source[j], addr)
        ensures m >= 0 && source[j].pfxlen <= source[m].pfxlen
      {
        assert KeyIn(Key(source[j]), source, len);
      }
    }
  }

  /** On one address, the answer is right exactly when the walk loses nothing on its way. */
  lemma {:induction false} AnswerIsRightIff(source: seq<Prefix>, len: nat, trie: Tree, addr: seq<Byte>, m: int)
    requires LookupGives(source, len, trie, addr, m) && HoldsTable(trie, source, len)
    ensures LongestFor(source, len, addr, m) <==> WalkSafe(trie, 8 * len, BitsOf(addr))
  {
    var a := BitsOf(addr);
    RightAnswer(source, len, trie, addr, m);
    WalkIsRightIff(trie, 8 * len, a);
    BestIsLongest(trie, 8 * len, a);
    if IsLongest(trie, a, Found(trie, 8 * len, a)) {
      LongestUnique(trie, a, Found(trie, 8 * len, a), Best(trie, a));
    }
  }

  /** Some answer is given for every address. */
  lemma LookupAnswers(source: seq<Prefix>, len: nat, trie: Tree, addr: seq<Byte>) returns (m: int)
    requires AllValid(source, len) && Wf(trie, 8 * len) && HoldsTable(trie, source, len) && |addr| == len
    ensures LookupGives(source, len, trie, addr, m)
  {
    m := -1;
    var found := Found(trie, 8 * len, BitsOf(addr));
    FoundSound(trie, 8 * len, BitsOf(addr));
    if found.Some? {
      assert KeyIn(found.value, source, len);
      var j: nat :| j < |source| && Key(source[j]) == found.value;
      m := j;
    }
  }

  lemma {:induction false} LossFreeAnswer(source: seq<Prefix>, len: nat, trie: Tree, addr: seq<Byte>, m: int)
    requires LookupGives(source, len, trie, addr, m) && HoldsTable(trie, source, len) && LossFree(trie, 8 * len)
    ensures LongestFor(source, len, addr, m)
  {
    LossFreeIsExact(trie, 8 * len, BitsOf(addr));
    BestIsLongest(trie, 8 * len, BitsOf(addr));
    RightAnswer(source, len, trie, addr, m);
  }

  lemma WholeBytes(len: nat)
    ensures 8 * len % 8 == 0
  {
  }

  /** A trie that is not loss-free gives some address a wrong answer. */
  lemma LossyAnswer(source: seq<Prefix>, len: nat, trie: Tree) returns (addr: seq<Byte>, m: int)
    requires AllValid(source, len) && Wf(trie, 8 * len) && HoldsTable(trie, source, len) && !LossFree(trie, 8 * len)
    ensures LookupGives(source, len, trie, addr, m) && !LongestFor(source, len, addr, m)
  {
    var a := LossIsObservable(trie, 8 * len);
    WholeBytes(len);
    BitsOfBytesOf(a);
    addr := BytesOf(a);
    m := LookupAnswers(source, len, trie, addr);
    RightAnswer(source, len, trie, addr, m);
    WrongIsNotLongest(trie, 8 * len, a, Found(trie, 8 * len, a));
  }

  lemma {:induction false} WrongIsNotLongest(t: Tree, width: nat, a: Bits, r: Option<Bits>)
    requires Wf(t, width) && r != Best(t, a)
    ensures !IsLongest(t, a, r)
  {
    var best := Best(t, a);
    BestIsLongest(t, width, a);
    if IsLongest(t, a, r) {
      LongestUnique(t, a, r, best);
    }
  }

  /** Lookup is longest-prefix match for every address exactly when the trie is loss-free. */
  lemma {:induction false} LookupIsRightIffLossFree(source: seq<Prefix>, len: nat, trie: Tree)
    requires AllValid(source, len) && Wf(trie, 8 * len) && HoldsTable(trie, source, len)
    ensures LossFree(trie, 8 * len) <==>
      forall addr, m :: LookupGives(source, len, trie, addr, m) ==> LongestFor(source, len, addr, m)
  {
    if LossFree(trie, 8 * len) {
      forall addr, m | LookupGives(source, len, trie, addr, m)
        ensures LongestFor(source, len, addr, m)
      {
        LossFreeAnswer(source, len, trie, addr, m);
      }
    } else {
      var addr, m := LossyAnswer(source, len, trie);
    }
  }

  /** No prefix of the table lies strictly inside another one. */
  ghost predicate Unnested(source: seq<Prefix>, len: nat)
    requires AllValid(source, len)
  {
    forall i: nat, j: nat :: i < |source| && j < |source| && Key(source[i]) <= Key(source[j]) ==>
      Key(source[i]) == Key(source[j])
  }

  /** On a table without nested prefixes every lookup is right. */
  lemma {:induction false} UnnestedLookupIsRight(source: seq<Prefix>, len: nat, trie: Tree, addr: seq<Byte>, m: int)
    requires AllValid(source, len) && Unnested(source, len) && Wf(trie, 8 * len) && HoldsTable(trie, source, len)
    requires LookupGives(source, len, trie, addr, m)
    ensures LongestFor(source, len, addr, m)
  {
    forall k, l | HeldKey(trie, k) && HeldKey(trie, l) && k <= l
      ensures k == l
    {
      assert KeyIn(k, source, len) && KeyIn(l, source, len);
    }
    NoNestingIsLossFree(trie, trie, 8 * len);
    LossFreeAnswer(source, len, trie, addr, m);
  }

  /** A valid index holds its caller's table. */
  lemma ValidHolds(nodes: seq<LcNode>, prefixes: seq<Prefix>, orig: seq<nat>, len: nat, source: seq<Prefix>, trie: Tree)
    requires Indexes(nodes, prefixes, orig, len, source, trie)
    ensures HoldsTable(trie, source, len)
  {
    StoresTable(trie, source, prefixes, orig, len);
  }

  /** For a valid index: every lookup is longest-prefix match on the caller's table exactly when the
      trie is loss-free. */
  lemma IndexIsRightIffLossFree(idx: CidrIndex)
    requires idx.Valid()
    ensures var len := AddrLen(idx.family);
      LossFree(idx.trie, 8 * len) <==>
      forall addr, m :: LookupGives(idx.source, len, idx.trie, addr, m) ==> LongestFor(idx.source, len, addr, m)
  {
    var len := AddrLen(idx.family);
    ValidHolds(idx.nodes[..], idx.prefixes[..], idx.origIndices[..], len, idx.source, idx.trie);
    LookupIsRightIffLossFree(idx.source, len, idx.trie);
  }

  // ----- Agreement with first-match containment -----

  /** The table is in the order of CIDR_SORT_PFXLEN_DESC. */
  ghost predicate DescOrdered(source: seq<Prefix>) {
    forall i, j :: 0 <= i < j < |source| ==> LexLe(DescKey(source[i]), DescKey(source[j]))
  }

  /** No earlier entry is the same prefix. */
  ghost predicate FirstOfPrefix(source: seq<Prefix>, m: int)
    requires m < |source|
  {
    m >= 0 ==> forall j :: 0 <= j < m ==> !SamePrefix(source[j], source[m])
  }

  /** In a table in descending order, first match is exactly the first entry of the longest match. */
  lemma {:induction false} FirstMatchIs(source: seq<Prefix>, len: nat, addr: seq<Byte>, f: int, m: int)
    requires AllValid(source, len) && DescOrdered(source) && IsFirstMatch(source, len, addr, f) && -1 <= m < |source|
    ensures m == f <==> LongestFor(source, len, addr, m) && FirstOfPrefix(source, m)
  {
    if m == f {
      forall j: nat | j < |source| && Contains(source[j], addr)
        ensures m >= 0 && source[j].pfxlen <= source[m].pfxlen
      {
        if m < j {
          DescKeyLonger(source[m], source[j]);
        }
      }
    } else if LongestFor(source, len, addr, m) && FirstOfPrefix(source, m) {
      assert f >= 0 && m >= 0 && f < m;
      DescKeyLonger(source[f], source[m]);
      assert Key(source[f]) == BitsOf(addr)[..source[f].pfxlen] && Key(source[m]) == BitsOf(addr)[..source[m].pfxlen];
      KeyInjective(source[f], source[m], len);
    }
  }

  /** `addr` lies in `p` and in no longer prefix of the table. */
  ghost predicate ExposedBy(source: seq<Prefix>, len: nat, p: Prefix, addr: seq<Byte>)
    requires AllValid(source, len) && ValidPrefix(p, len)
  {
    && |addr| == len && Contains(p, addr)
    && forall j: nat :: j < |source| && Contains(source[j], addr) ==> source[j].pfxlen <= p.pfxlen
  }

  /** Every prefix that some address exposes is recorded under its lowest index; one that longer
      prefixes cover altogether may have any of its own. */
  ghost predicate LowestWhereSeen(source: seq<Prefix>, sorted: seq<Prefix>, orig: seq<nat>, len: nat)
    requires AllValid(source, len) && AllValid(sorted, len) && |orig| == |sorted|
  {
    forall k: nat, j: nat, addr | k < |sorted| && j < |source| ::
      SamePrefix(source[j], sorted[k]) && ExposedBy(source, len, sorted[k], addr) ==> orig[k] <= j
  }

  /** Lookup and first-match containment answer the same for every address. */
  ghost predicate Agree(source: seq<Prefix>, orig: seq<nat>, len: nat, trie: Tree)
    requires AllValid(source, len)
  {
    forall addr, m, f | LookupGives(source, len, trie, addr, m) && Recorded(orig, m) ::
      IsFirstMatch(source, len, addr, f) ==> m == f
  }

  /** A table, its sorted copy with the recorded indices, and the trie that holds it. */
  ghost predicate Stored(source: seq<Prefix>, sorted: seq<Prefix>, orig: seq<nat>, len: nat, trie: Tree) {
    && AllValid(source, len) && AllValid(sorted, len) && MapsBack(source, sorted, orig)
    && Wf(trie, 8 * len) && HoldsTable(trie, source, len)
  }

  lemma FirstMatchExists(source: seq<Prefix>, len: nat, addr: seq<Byte>) returns (f: int)
    requires AllValid(source, len)
    ensures IsFirstMatch(source, len, addr, f)
  {
    f := 0;
    while f < |source| && !Contains(source[f], addr)
      invariant 0 <= f <= |source| && forall j :: 0 <= j < f ==> !Contains(source[j], addr)
    {
      f := f + 1;
    }
    if f == |source| {
      f := -1;
    }
  }

  /** Every answer has a recorded index of the same prefix. */
  lemma RecordedAnswer(source: seq<Prefix>, sorted: seq<Prefix>, orig: seq<nat>, len: nat, m0: int) returns (m: int)
    requires AllValid(source, len) && AllValid(sorted, len) && MapsBack(source, sorted, orig) && -1 <= m0 < |source|
    ensures Recorded(orig, m) && -1 <= m < |source| && (m == -1 <==> m0 == -1)
    ensures m0 >= 0 ==> Key(source[m]) == Key(source[m0])
  {
    m := -1;
    if m0 >= 0 {
      assert AppearsIn(source[m0], sorted);
      var k: nat :| k < |sorted| && SamePrefix(source[m0], sorted[k]);
      assert MapsBackAt(source, sorted, orig, k);
      m := orig[k];
      assert m == orig[k] && m in orig;
    }
  }

  /** A trie that is not loss-free makes the two disagree somewhere. */
  lemma {:induction false} LossyDisagrees(source: seq<Prefix>, sorted: seq<Prefix>, orig: seq<nat>, len: nat,
      trie: Tree)
    requires Stored(source, sorted, orig, len, trie) && DescOrdered(source) && !LossFree(trie, 8 * len)
    ensures !Agree(source, orig, len, trie)
  {
    var addr, m0 := LossyAnswer(source, len, trie);
    LookupIsSound(source, len, trie, addr, m0);
    var m := RecordedAnswer(source, sorted, orig, len, m0);
    assert LookupGives(source, len, trie, addr, m);
    RightAnswer(source, len, trie, addr, m0);
    RightAnswer(source, len, trie, addr, m);
    var f := FirstMatchExists(source, len, addr);
    FirstMatchIs(source, len, addr, f, m);
  }

  /** At an address that exposes a prefix, a loss-free lookup answers with that prefix. */
  lemma {:induction false} ExposedIsFound(source: seq<Prefix>, len: nat, trie: Tree, p: Prefix, j: nat, addr: seq<Byte>)
    requires AllValid(source, len) && Wf(trie, 8 * len) && HoldsTable(trie, source, len) && LossFree(trie, 8 * len)
    requires ValidPrefix(p, len) && j < |source| && SamePrefix(source[j], p) && ExposedBy(source, len, p, addr)
    ensures Found(trie, 8 * len, BitsOf(addr)) == Some(Key(p))
  {
    var a := BitsOf(addr);
    LossFreeIsExact(trie, 8 * len, a);
    BestIsLongest(trie, 8 * len, a);
    assert Key(source[j]) == Key(p) && KeyIn(Key(p), source, len);
    forall key | HeldKey(trie, key) && key <= a
      ensures |key| <= |Key(p)|
    {
      assert KeyIn(key, source, len);
      var i: nat :| i < |source| && Key(source[i]) == key;
      assert Contains(source[i], addr);
    }
    LongestUnique(trie, a, Some(Key(p)), Best(trie, a));
  }

  /** So does an exposed prefix that is not recorded under its lowest index. */
  lemma {:induction false} HigherDisagrees(source: seq<Prefix>, sorted: seq<Prefix>, orig: seq<nat>, len: nat,
      trie: Tree, k: nat, j: nat, addr: seq<Byte>)
    requires Stored(source, sorted, orig, len, trie) && DescOrdered(source) && LossFree(trie, 8 * len)
    requires k < |sorted| && j < |source| && SamePrefix(source[j], sorted[k]) && j < orig[k]
    requires ExposedBy(source, len, sorted[k], addr)
    ensures !Agree(source, orig, len, trie)
  {
    var m := orig[k];
    assert MapsBackAt(source, sorted, orig, k) && m in orig;
    ExposedIsFound(source, len, trie, sorted[k], j, addr);
    assert LookupGives(source, len, trie, addr, m);
    var f := FirstMatchExists(source, len, addr);
    FirstMatchIs(source, len, addr, f, m);
    assert SamePrefix(source[j], source[m]);
  }

  /** On a table in descending order, lookup and first-match containment give the same index if the trie
      is loss-free and every exposed prefix is recorded under its lowest index. */
  lemma {:induction false} LookupAgreesWithScan(source: seq<Prefix>, sorted: seq<Prefix>, orig: seq<nat>, len: nat,
      trie: Tree, addr: seq<Byte>, m: int, f: int)
    requires Stored(source, sorted, orig, len, trie) && DescOrdered(source) && LossFree(trie, 8 * len)
    requires LowestWhereSeen(source, sorted, orig, len)
    requires LookupGives(source, len, trie, addr, m) && Recorded(orig, m) && IsFirstMatch(source, len, addr, f)
    ensures m == f
  {
    LossFreeAnswer(source, len, trie, addr, m);
    if m >= 0 {
      var k: nat :| k < |orig| && orig[k] == m;
      assert MapsBackAt(source, sorted, orig, k);
      assert ExposedBy(source, len, sorted[k], addr);
      assert forall j: nat :: j < |source| && SamePrefix(source[j], source[m]) ==> SamePrefix(source[j], sorted[k]);
    }
    FirstMatchIs(source, len, addr, f, m);
  }

  /** On a table in descending order, lookup and first-match containment give the same index for every
      address if and only if the trie is loss-free and every prefix that some address exposes is
      recorded under its lowest index. */
  lemma {:induction false} AgreeIff(source: seq<Prefix>, sorted: seq<Prefix>, orig: seq<nat>, len: nat, trie: Tree)
    requires Stored(source, sorted, orig, len, trie) && DescOrdered(source)
    ensures Agree(source, orig, len, trie) <==>
      LossFree(trie, 8 * len) && LowestWhereSeen(source, sorted, orig, len)
  {
    if !LossFree(trie, 8 * len) {
      LossyDisagrees(source, sorted, orig, len, trie);
    } else if !LowestWhereSeen(source, sorted, orig, len) {
      var k: nat, j: nat, addr :| k < |sorted| && j < |source| && SamePrefix(source[j], sorted[k])
        && ExposedBy(source, len, sorted[k], addr) && j < orig[k];
      HigherDisagrees(source, sorted, orig, len, trie, k, j, addr);
    } else {
      forall addr, m, f | LookupGives(source, len, trie, addr, m) && Recorded(orig, m)
          && IsFirstMatch(source, len, addr, f)
        ensures m == f
      {
        LookupAgreesWithScan(source, sorted, orig, len, trie, addr, m, f);
      }
    }
  }

  /** No prefix occurs twice. */
  ghost predicate NoDuplicates(source: seq<Prefix>) {
    forall i: nat, j: nat :: i < j < |source| ==> !SamePrefix(source[i], source[j])
  }

  /** Without duplicates, loss-freedom alone decides. */
  lemma {:induction false} DistinctAgreeIff(source: seq<Prefix>, sorted: seq<Prefix>, orig: seq<nat>, len: nat,
      trie: Tree)
    requires Stored(source, sorted, orig, len, trie) && DescOrdered(source) && NoDuplicates(source)
    ensures Agree(source, orig, len, trie) <==> LossFree(trie, 8 * len)
  {
    forall k: nat, j: nat | k < |sorted| && j < |source| && SamePrefix(source[j], sorted[k])
      ensures orig[k] == j
    {
      DistinctIsLowest(source, sorted, orig, k, j);
    }
    AgreeIff(source, sorted, orig, len, trie);
  }

  /** For every valid index of a table in descending order: its lookups are the first matches if and
      only if its trie is loss-free and exposed prefixes have their lowest index. */
  lemma IndexAgreesIff(idx: CidrIndex)
    requires idx.Valid() && DescOrdered(idx.source)
    ensures var len, sorted, orig := AddrLen(idx.family), idx.prefixes[..], idx.origIndices[..];
      Agree(idx.source, orig, len, idx.trie) <==>
      LossFree(idx.trie, 8 * len) && LowestWhereSeen(idx.source, sorted, orig, len)
    ensures NoDuplicates(idx.source) ==>
      (Agree(idx.source, idx.origIndices[..], AddrLen(idx.family), idx.trie) <==>
       LossFree(idx.trie, 8 * AddrLen(idx.family)))
  {
    var len, sorted, orig := AddrLen(idx.family), idx.prefixes[..], idx.origIndices[..];
    ValidHolds(idx.nodes[..], sorted, orig, len, idx.source, idx.trie);
    AgreeIff(idx.source, sorted, orig, len, idx.trie);
    if NoDuplicates(idx.source) {
      DistinctAgreeIff(idx.source, sorted, orig, len, idx.trie);
    }
  }
}
