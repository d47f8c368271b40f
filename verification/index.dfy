/** `cidr_index_create` and `cidr_index_lookup`. */
module PrefixIndex {
  import opened BitStrings
  import opened Bytes
  import opened Prefixes
  import opened RadixSort
  import opened BulkSort
  import opened Patricia
  import opened LevelCompression
  import opened CompressedLookup
  import opened Arena
  import opened BranchChoice
  import opened Packing

  // ----- Tags and duplicates -----

  /** `t` is `s` with other tags: every entry of a run of equal prefixes carries the run's first. */
  ghost predicate Retagged(s: seq<Prefix>, t: seq<Prefix>) {
    |s| == |t| && forall k: nat :: k < |t| ==> RetaggedAt(s, t, k)
  }

  ghost predicate RetaggedAt(s: seq<Prefix>, t: seq<Prefix>, k: nat)
    requires k < |s| == |t|
  {
    SamePrefix(s[k], t[k]) && exists j: nat :: RunStart(s, j, k) && t[k].family == s[j].family
  }

  /** The run of equal prefixes around entry `k` starts at entry `j`. */
  ghost predicate RunStart(s: seq<Prefix>, j: nat, k: nat) {
    && j <= k < |s| && (forall m :: j <= m <= k ==> SamePrefix(s[m], s[k]))
    && (j > 0 ==> !SamePrefix(s[j - 1], s[j]))
  }

  /** Give the entries `from..to`, all equal to entry `runStart`, its tag. */
  method TagRun(sorted: array<Prefix>, runStart: nat, to: nat)
    requires runStart < to <= sorted.Length
    requires forall k :: runStart <= k < to ==> SamePrefix(sorted[k], sorted[runStart])
    modifies sorted
    ensures forall k :: 0 <= k < sorted.Length ==>
      sorted[k] == if runStart <= k < to then old(sorted[k]).(family := old(sorted[runStart]).family)
        else old(sorted[k])
  {
    var bestTag := sorted[runStart].family;
    for j := runStart + 1 to to
      invariant forall k :: 0 <= k < sorted.Length ==>
        sorted[k] == if runStart <= k < j then old(sorted[k]).(family := bestTag) else old(sorted[k])
    {
      sorted[j] := sorted[j].(family := bestTag);
    }
  }

  /** `prefixes_resolve_duplicates`: every entry of a run of equal prefixes takes the tag of the
      run's first entry. The run is whatever order the sort left it in. */
  method ResolveDuplicates(sorted: array<Prefix>)
    modifies sorted
    ensures Retagged(old(sorted[..]), sorted[..])
  {
    ghost var s := sorted[..];
    if sorted.Length < 2 {
      return;
    }
    var runStart := 0;
    for i := 1 to sorted.Length
      invariant 0 <= runStart < i && (runStart > 0 ==> !SamePrefix(s[runStart - 1], s[runStart]))
      invariant forall k :: runStart <= k < i ==> SamePrefix(s[k], s[runStart])
      invariant forall k :: runStart <= k < sorted.Length ==> sorted[k] == s[k]
      invariant forall k: nat :: k < runStart ==> RetaggedAt(s, sorted[..], k)
    {
      var same := sorted[i - 1].pfxlen == sorted[i].pfxlen && sorted[i - 1].addr == sorted[i].addr;
      if !same {
        ghost var before := sorted[..];
        TagRun(sorted, runStart, i);
        RunRetagged(s, before, sorted[..], runStart, i);
        runStart := i;
      }
    }
    ghost var before := sorted[..];
    if runStart < sorted.Length - 1 {
      TagRun(sorted, runStart, sorted.Length);
    }
    RunRetagged(s, before, sorted[..], runStart, sorted.Length);
  }

  lemma RunRetagged(s: seq<Prefix>, before: seq<Prefix>, now: seq<Prefix>, runStart: nat, i: nat)
    requires |s| == |before| == |now| && runStart < i <= |s|
      && (runStart > 0 ==> !SamePrefix(s[runStart - 1], s[runStart]))
    requires forall k: nat :: k < runStart ==> RetaggedAt(s, before, k)
    requires forall k :: runStart <= k < i ==> SamePrefix(s[k], s[runStart]) && before[k] == s[k]
    requires forall k :: 0 <= k < |s| ==>
      now[k] == if runStart <= k < i then before[k].(family := before[runStart].family) else before[k]
    ensures forall k: nat :: k < i ==> RetaggedAt(s, now, k)
  {
    forall k: nat | k < i
      ensures RetaggedAt(s, now, k)
    {
      if k < runStart {
        assert RetaggedAt(s, before, k);
      } else {
        assert RunStart(s, runStart, k) && now[k].family == s[runStart].family;
      }
    }
  }

  // ----- The index -----

  /** `orig[k]` is an index of the caller's array holding the same prefix as sorted entry `k`, and
      every prefix of the caller's array is among the sorted ones. */
  ghost predicate MapsBack(source: seq<Prefix>, sorted: seq<Prefix>, orig: seq<nat>) {
    && |orig| == |sorted| == |source|
    && (forall k: nat :: k < |sorted| ==> MapsBackAt(source, sorted, orig, k))
    && (forall m: nat :: m < |source| ==> AppearsIn(source[m], sorted))
  }

  ghost predicate MapsBackAt(source: seq<Prefix>, sorted: seq<Prefix>, orig: seq<nat>, k: nat)
    requires k < |sorted| == |orig|
  {
    orig[k] < |source| && SamePrefix(source[orig[k]], sorted[k])
  }

  /** The caller's array, tagged with its indices and sorted. */
  ghost function SortedTags(source: seq<Prefix>, len: nat): (t: seq<Prefix>)
    ensures |t| == |source|
  {
    SortResult(TagAll(source), 0, |source|, 0, len + 1, NetworkDigit)
  }

  /** `orig` gives every entry of a run of equal prefixes the tag that the sort left in front. */
  ghost predicate RunTags(source: seq<Prefix>, sorted: seq<Prefix>, orig: seq<nat>, len: nat) {
    |orig| == |sorted| == |source| && forall k: nat :: k < |sorted| ==>
      RunTagAt(SortedTags(source, len), sorted, orig, k)
  }

  ghost predicate RunTagAt(t: seq<Prefix>, sorted: seq<Prefix>, orig: seq<nat>, k: nat)
    requires k < |sorted| == |orig| == |t|
  {
    SamePrefix(t[k], sorted[k]) && exists j: nat :: RunStart(t, j, k) && orig[k] == t[j].family
  }

  /** Every entry carries the lowest index of its prefix, as ARCHITECTURE.md promises. */
  ghost predicate RecordsLowest(source: seq<Prefix>, sorted: seq<Prefix>, orig: seq<nat>) {
    && |orig| == |sorted|
    && forall k: nat, j: nat :: k < |sorted| && j < |source| && SamePrefix(source[j], sorted[k]) ==> orig[k] <= j
  }

  ghost predicate AppearsIn(p: Prefix, sorted: seq<Prefix>) {
    exists k: nat :: k < |sorted| && SamePrefix(p, sorted[k])
  }

  /** `trie_prefix_matches`. */
  method TriePrefixMatches(pfx: Prefix, addr: seq<Byte>) returns (r: bool)
    requires |pfx.addr| == |addr| && pfx.pfxlen <= 8 * |addr|
    ensures r <==> Contains(pfx, addr)
  {
    var pfxlen := pfx.pfxlen;
    if pfxlen == 0 {
      return true;
    }
    var fullBytes, bitRem := pfxlen / 8, pfxlen % 8;
    AgreeByBytes(pfx.addr, addr, fullBytes, bitRem);
    AgreeIsContains(pfx, addr);
    for i := 0 to fullBytes
      invariant forall k :: 0 <= k < i ==> pfx.addr[k] == addr[k]
    {
      if pfx.addr[i] != addr[i] {
        assert pfx.addr[..fullBytes][i] != addr[..fullBytes][i];
        return false;
      }
    }
    assert pfx.addr[..fullBytes] == addr[..fullBytes];
    if bitRem > 0 {
      if HighBits(pfx.addr[fullBytes], bitRem) != HighBits(addr[fullBytes], bitRem) {
        return false;
      }
    }
    return true;
  }

  /** What the walk reports for the key it has found: -1, or a caller's index of that prefix. */
  ghost predicate Reports(source: seq<Prefix>, len: nat, best: int, key: Option<Bits>)
    requires AllValid(source, len)
  {
    if key.None? then best == -1 else 0 <= best < |source| && Key(source[best]) == key.value
  }

  /** The answer is -1 or an index from the sorted-to-original map. */
  ghost predicate Recorded(orig: seq<nat>, best: int) {
    best == -1 || best in orig
  }

  // ----- The walk -----

  /** Every stored index of `t` is that of a prefix with the node's path as its key. */
  ghost predicate Labelled(t: Tree, ps: seq<Prefix>, len: nat)
    requires AllValid(ps, len)
  {
    t.Node? ==>
      && (t.pfx.Some? ==> t.pfx.value < |ps| && Key(ps[t.pfx.value]) == t.path)
      && Labelled(t.left, ps, len) && Labelled(t.right, ps, len)
  }

  lemma {:induction false} StoredLabels(t: Tree, ps: seq<Prefix>, len: nat)
    requires AllValid(ps, len)
    requires forall key: Bits, idx: nat :: Holds(t, key, idx) ==> idx < |ps| && Key(ps[idx]) == key
    ensures Labelled(t, ps, len)
  {
    if t.Node? {
      assert t.pfx.Some? ==> Holds(t, t.path, t.pfx.value);
      forall key: Bits, idx: nat | Holds(t.left, key, idx) || Holds(t.right, key, idx)
        ensures idx < |ps| && Key(ps[idx]) == key
      {
        assert Holds(t, key, idx);
      }
      StoredLabels(t.left, ps, len);
      StoredLabels(t.right, ps, len);
    }
  }

  lemma {:induction false} StepLabelled(c: Tree, pos: nat, rest: Bits, ps: seq<Prefix>, len: nat)
    requires AllValid(ps, len) && c.Node? && Labelled(c, ps, len)
    ensures Labelled(Step(c, pos, rest), ps, len)
    decreases |rest|
  {
    if rest != [] {
      if pos < |c.path| {
        StepLabelled(c, pos + 1, rest[1..], ps, len);
      } else if c.Child(rest[0]).Node? {
        StepLabelled(c.Child(rest[0]), pos + 1, rest[1..], ps, len);
      }
    }
  }

  /** What the walk still finds from `t`, reached at `depth`. */
  ghost function Rest(t: Tree, depth: nat, width: nat, a: Bits): Option<Bits>
    requires Wf(t, width) && |a| == width
  {
    if t.Node? && |t.path| < depth then Own(t, a) else Found(t, width, a)
  }

  /** The walk stands at cell `idx`, which holds `t` at `depth`; the cells below it start at `free`, further on. */
  ghost predicate Standing(p: seq<LcNode>, ps: seq<Prefix>, len: nat, t: Tree, idx: nat, free: nat, depth: nat) {
    && AllValid(ps, len) && Wf(t, 8 * len) && depth <= 8 * len && idx < free
    && Labelled(t, ps, len) && PackedAt(p, idx, free, t, depth, 8 * len)
  }

  /** The step to slot `slot`: in bounds, and on the subtree behind the slot. */
  lemma SlotCell(p: seq<LcNode>, t: Tree, idx: nat, free: nat, depth: nat, width: nat, slot: nat)
    requires t.Node? && !t.Leaf() && Wf(t, width) && PackedAt(p, idx, free, t, depth, width)
    requires slot < Pow2(Branch(t, width))
    ensures var b := Branch(t, width);
      && b >= 1 && idx < |p| && p[idx].LcNode? && p[idx].base == free && |t.path| + b <= width
      && PackedAt(p, free + slot, KidFree(t, width, b, free, slot), SlotTarget(t, width, b, slot), |t.path| + b, width)
  {
    BranchFits(t, width);
    var b := Branch(t, width);
    assert SlotsPacked(p, free, t, b, Pow2(b), width);
    assert SlotPacked(p, free, t, b, slot, width);
  }

  lemma {:induction false} SlotLabelled(t: Tree, width: nat, b: nat, slot: nat, ps: seq<Prefix>, len: nat)
    requires t.Node? && Wf(t, width) && b >= 1 && AllValid(ps, len) && Labelled(t, ps, len)
    ensures Labelled(SlotTarget(t, width, b, slot), ps, len)
  {
    var pat := ToBits(slot, b);
    if t.Child(pat[0]).Node? {
      StepLabelled(t.Child(pat[0]), |t.path| + 1, pat[1..], ps, len);
    }
  }

  /** The walk's step lands on the cell of the next subtree. */
  lemma {:induction false} StepDown(p: seq<LcNode>, ps: seq<Prefix>, len: nat, t: Tree, idx: nat, free: nat,
      depth: nat, b: nat, slot: nat, u: Tree, free': nat)
    requires Standing(p, ps, len, t, idx, free, depth) && t.Node? && !t.Leaf()
    requires b == Branch(t, 8 * len) && |t.path| + b <= 8 * len && slot < Pow2(b)
    requires b >= 1 && u == SlotTarget(t, 8 * len, b, slot) && free' == KidFree(t, 8 * len, b, free, slot)
    ensures idx < |p| && p[idx].LcNode? && p[idx].base == free && idx < free + slot
    ensures Standing(p, ps, len, u, free + slot, free', |t.path| + b)
  {
    SlotCell(p, t, idx, free, depth, 8 * len, slot);
    SlotLabelled(t, 8 * len, b, slot, ps, len);
  }

  /** The walk ends at a leaf, a dead slot or a wrapped cell: only the cell's own prefix counts. */
  lemma {:induction false} EndsHere(t: Tree, depth: nat, width: nat, a: Bits)
    requires Wf(t, width) && |a| == width && (t.Empty? || t.Leaf() || |t.path| < depth)
    ensures Rest(t, depth, width, a) == Own(t, a)
  {
  }

  /** Otherwise what is found further down wins over the cell's own prefix. */
  lemma {:induction false} GoesOn(t: Tree, depth: nat, width: nat, a: Bits)
    requires t.Node? && !t.Leaf() && Wf(t, width) && |a| == width && depth <= |t.path|
    ensures var below := Rest(Next(t, width, a), |t.path| + Branch(t, width), width, a);
      Rest(t, depth, width, a) == if below.Some? then below else Own(t, a)
  {
    assert FoundBelow(t, width, a) == Rest(Next(t, width, a), |t.path| + Branch(t, width), width, a);
    assert Found(t, width, a) == if FoundBelow(t, width, a).Some? then FoundBelow(t, width, a) else Own(t, a);
  }

  lemma SliceSnoc(bits: Bits, from: nat, b: nat)
    requires from + b < |bits|
    ensures Val(bits[from..from + b + 1]) == 2 * Val(bits[from..from + b]) + if bits[from + b] then 1 else 0
  {
    assert bits[from..from + b + 1] == bits[from..from + b] + [bits[from + b]];
    ValSnoc(bits[from..from + b], bits[from + b]);
  }

  /** `extracted`: the `branch` address bits from `bitPos` on, as a number. */
  method ExtractSlot(addr: seq<Byte>, bitPos: nat, branch: nat) returns (extracted: nat)
    requires bitPos + branch <= 8 * |addr|
    ensures extracted == Val(BitsOf(addr)[bitPos..bitPos + branch])
  {
    extracted := 0;
    ghost var bits := BitsOf(addr);
    for b := 0 to branch
      invariant extracted == Val(bits[bitPos..bitPos + b])
    {
      SliceSnoc(bits, bitPos, b);
      extracted := 2 * extracted + if AddrBit(addr, bitPos + b) then 1 else 0;
    }
  }

  /** The answer of the whole walk, given what is recorded and what is still ahead. */
  function Merge(rest: Option<Bits>, key: Option<Bits>): Option<Bits> {
    if rest.Some? then rest else key
  }

  /** The walk loop of `cidr_index_lookup` for one address. */
  method Walk(nodes: array<LcNode>, prefixes: array<Prefix>, origIndices: array<nat>, addr: seq<Byte>, keyBits: nat,
      ghost len: nat, ghost source: seq<Prefix>, ghost trie: Tree) returns (best: int)
    requires len <= 16 && keyBits == 8 * len == 8 * |addr|
    requires AllValid(source, len) && MapsBack(source, prefixes[..], origIndices[..])
    requires Standing(nodes[..], prefixes[..], len, trie, 0, 1, 0)
    ensures Reports(source, len, best, Found(trie, keyBits, BitsOf(addr)))
    ensures Recorded(origIndices[..], best)
  {
    best := -1;
    var bitPos: nat, node: nat, stop := 0, 0, false;
    ghost var a, p := BitsOf(addr), nodes[..];
    ghost var t, free, key := trie, 1, None;
    while true
      invariant Standing(p, prefixes[..], len, t, node, free, bitPos)
      invariant Reports(source, len, best, key) && Recorded(origIndices[..], best)
      invariant Found(trie, keyBits, a) == Merge(Rest(t, bitPos, keyBits, a), key)
      decreases t.Count()
    {
      stop, best, bitPos, node, t, free, key :=
        Visit(nodes, prefixes, origIndices, addr, keyBits, best, bitPos, node, len, source, t, free, key);
      if stop {
        break;
      }
    }
  }

  /** The body of the walk: record the node's prefix, then stop or descend. */
  method Visit(nodes: array<LcNode>, prefixes: array<Prefix>, origIndices: array<nat>, addr: seq<Byte>, keyBits: nat,
      best: int, bitPos: nat, node: nat, ghost len: nat, ghost source: seq<Prefix>, ghost t: Tree, ghost free: nat,
      ghost key: Option<Bits>) returns (stop: bool, best': int, bitPos': nat, node': nat, ghost t': Tree,
      ghost free': nat, ghost key': Option<Bits>)
    requires len <= 16 && keyBits == 8 * len == 8 * |addr|
    requires AllValid(source, len) && MapsBack(source, prefixes[..], origIndices[..])
    requires Standing(nodes[..], prefixes[..], len, t, node, free, bitPos)
    requires Reports(source, len, best, key) && Recorded(origIndices[..], best)
    ensures Reports(source, len, best', key') && Recorded(origIndices[..], best')
    ensures stop ==> Reports(source, len, best', Merge(Rest(t, bitPos, keyBits, BitsOf(addr)), key))
    ensures stop ==> key' == Merge(Rest(t, bitPos, keyBits, BitsOf(addr)), key)
    ensures !stop ==> Standing(nodes[..], prefixes[..], len, t', node', free', bitPos') && t'.Count() < t.Count()
    ensures !stop ==> node < node'
    ensures !stop ==>
      Merge(Rest(t', bitPos', keyBits, BitsOf(addr)), key') == Merge(Rest(t, bitPos, keyBits, BitsOf(addr)), key)
  {
    ghost var a, p := BitsOf(addr), nodes[..];
    stop, bitPos', node', t', free' := true, bitPos, node, t, free;
    CellFacts(p, prefixes[..], len, t, node, free, bitPos, a);
    best', key' := RecordMatch(nodes[node], prefixes, origIndices, addr, best, len, source, t, key);
    if nodes[node].branch == 0 {
      return;
    }
    if bitPos + nodes[node].skip + nodes[node].branch > keyBits {
      return;
    }
    bitPos', node', t', free' := StepToSlot(nodes, prefixes[..], addr, bitPos, node, len, t, free);
    stop := false;
  }

  /** The step of the walk from an interior node to the cell of its next slot. */
  method StepToSlot(nodes: array<LcNode>, ghost ps: seq<Prefix>, addr: seq<Byte>, bitPos: nat, node: nat,
      ghost len: nat, ghost t: Tree, ghost free: nat) returns (bitPos': nat, node': nat, ghost t': Tree,
      ghost free': nat)
    requires |addr| == len && Standing(nodes[..], ps, len, t, node, free, bitPos)
    requires t.Node? && !t.Leaf() && node < nodes.Length && nodes[node].LcNode?
    requires bitPos <= |t.path| == bitPos + nodes[node].skip
    requires nodes[node].branch == Branch(t, 8 * len) && |t.path| + nodes[node].branch <= 8 * len
    ensures Standing(nodes[..], ps, len, t', node', free', bitPos') && t'.Count() < t.Count() && node < node'
    ensures Rest(t, bitPos, 8 * len, BitsOf(addr))
      == Merge(Rest(t', bitPos', 8 * len, BitsOf(addr)), Own(t, BitsOf(addr)))
  {
    ghost var slot;
    bitPos', node', slot := Descend(nodes, node, bitPos, addr, len, t);
    free', t' := AdvanceWalk(nodes[..], ps, len, t, node, free, bitPos, BitsOf(addr), slot);
    GoesOn(t, bitPos, 8 * len, BitsOf(addr));
  }

  /** One step of the walk, on the trie side. */
  lemma AdvanceWalk(p: seq<LcNode>, ps: seq<Prefix>, len: nat, t: Tree, idx: nat, free: nat, depth: nat, a: Bits,
      slot: nat) returns (free': nat, u: Tree)
    requires Standing(p, ps, len, t, idx, free, depth) && t.Node? && !t.Leaf() && |a| == 8 * len && depth <= |t.path|
    requires var b := Branch(t, 8 * len); |t.path| + b <= 8 * len && slot == Val(a[|t.path|..|t.path| + b])
    ensures u == Next(t, 8 * len, a) && u.Count() < t.Count()
    ensures idx < |p| && p[idx].LcNode? && idx < p[idx].base + slot
    ensures Standing(p, ps, len, u, p[idx].base + slot, free', |t.path| + Branch(t, 8 * len))
  {
    BranchFits(t, 8 * len);
    var b := Branch(t, 8 * len);
    u, free' := TargetOf(t, 8 * len, b, a, slot), KidFree(t, 8 * len, b, free, slot);
    StepDown(p, ps, len, t, idx, free, depth, b, slot, u, free');
  }

  /** The subtree of the walk's next slot. */
  function TargetOf(t: Tree, width: nat, b: nat, a: Bits, slot: nat): (u: Tree)
    requires t.Node? && !t.Leaf() && Wf(t, width) && |a| == width && b == Branch(t, width) && b >= 1
    requires |t.path| + b <= width
    requires slot == Val(a[|t.path|..|t.path| + b])
    ensures u == SlotTarget(t, width, b, slot) && u == Next(t, width, a) && u.Count() < t.Count() && slot < Pow2(b)
  {
    SlotTarget(t, width, b, slot)
  }

  /** The descent step of the walk: skip, extract the branch bits, move to the child slot. */
  method Descend(nodes: array<LcNode>, node: nat, bitPos: nat, addr: seq<Byte>, ghost len: nat, ghost t: Tree)
      returns (bitPos': nat, node': nat, ghost slot: nat)
    requires |addr| == len && node < nodes.Length && nodes[node].LcNode?
    requires t.Node? && bitPos + nodes[node].skip == |t.path| && |t.path| + nodes[node].branch <= 8 * len
    ensures slot == Val(BitsOf(addr)[|t.path|..|t.path| + nodes[node].branch])
    ensures bitPos' == |t.path| + nodes[node].branch && node' == nodes[node].base + slot
  {
    var at, branch := bitPos + nodes[node].skip, nodes[node].branch;
    var extracted := ExtractSlot(addr, at, branch);
    bitPos', node', slot := at + branch, nodes[node].base + extracted, extracted;
  }

  /** The fields of a packed cell, and what its skip does to the bit position. */
  lemma {:induction false} PackedCell(p: seq<LcNode>, idx: nat, free: nat, t: Tree, depth: nat, width: nat)
    requires Wf(t, width) && depth <= width <= 128 && PackedAt(p, idx, free, t, depth, width)
    ensures idx < |p| && p[idx].LcNode? && p[idx].prefixIdx == (if t.Node? then t.pfx else None)
    ensures p[idx].branch == 0 <==> t.Empty? || t.Leaf()
    ensures t.Node? ==> p[idx].branch == Branch(t, width)
    ensures t.Node? && depth <= |t.path| ==> depth + p[idx].skip == |t.path|
    ensures t.Node? && depth <= |t.path| && !t.Leaf() ==> |t.path| + p[idx].branch <= width
    ensures t.Node? && |t.path| < depth ==> depth + p[idx].skip > width
  {
    if t.Node? && !t.Leaf() {
      BranchFits(t, width);
    }
  }

  /** A cell without branch bits, or one whose bits run past the address, also by a wrapped skip. */
  predicate Stopping(n: LcNode, depth: nat, width: nat)
    requires n.LcNode?
  {
    n.branch == 0 || depth + n.skip + n.branch > width
  }

  /** Such a cell ends the walk; any other is an interior node at or below the walk's bit position. */
  lemma {:induction false} CellFacts(p: seq<LcNode>, ps: seq<Prefix>, len: nat, t: Tree, idx: nat, free: nat,
      depth: nat, a: Bits)
    requires len <= 16 && Standing(p, ps, len, t, idx, free, depth) && |a| == 8 * len
    ensures idx < |p| && p[idx].LcNode? && p[idx].prefixIdx == if t.Node? then t.pfx else None
    ensures Stopping(p[idx], depth, 8 * len) ==> Rest(t, depth, 8 * len, a) == Own(t, a)
    ensures !Stopping(p[idx], depth, 8 * len) ==>
      && t.Node? && !t.Leaf() && depth <= |t.path| == depth + p[idx].skip
      && p[idx].branch == Branch(t, 8 * len) && |t.path| + p[idx].branch <= 8 * len
  {
    PackedCell(p, idx, free, t, depth, 8 * len);
    if Stopping(p[idx], depth, 8 * len) {
      EndsHere(t, depth, 8 * len, a);
    }
  }

  /** Checking the prefix of the visited node and recording it as the best match so far. */
  method RecordMatch(node: LcNode, prefixes: array<Prefix>, origIndices: array<nat>, addr: seq<Byte>, best: int,
      ghost len: nat, ghost source: seq<Prefix>, ghost t: Tree, ghost key: Option<Bits>) returns (best': int,
      ghost key': Option<Bits>)
    requires |addr| == len && AllValid(source, len) && AllValid(prefixes[..], len) && Labelled(t, prefixes[..], len)
    requires node.LcNode? && node.prefixIdx == (if t.Node? then t.pfx else None)
    requires MapsBack(source, prefixes[..], origIndices[..])
    requires Reports(source, len, best, key) && Recorded(origIndices[..], best)
    ensures Recorded(origIndices[..], best') && key' == Merge(Own(t, BitsOf(addr)), key)
    ensures Reports(source, len, best', Merge(Own(t, BitsOf(addr)), key))
  {
    best', key' := best, key;
    if node.prefixIdx.Some? {
      var k := node.prefixIdx.value;
      var pfx := prefixes[k];
      assert prefixes[..][k] == pfx && ValidPrefix(pfx, len);
      var matches := TriePrefixMatches(pfx, addr);
      if matches {
        assert MapsBackAt(source, prefixes[..], origIndices[..], k);
        assert origIndices[k] in origIndices[..];
        best', key' := origIndices[k], Some(t.path);
      }
    }
  }

  // ----- Building -----

  lemma EntryOf(s: seq<Prefix>, t: seq<Prefix>, u: seq<Prefix>, r: seq<Prefix>, orig: seq<nat>, len: nat, k: nat)
    requires AllValid(s, len) && Tagged(s, t) && Retagged(t, u) && |s| == |r| == |orig| == |u| && k < |r|
    requires SamePrefix(r[k], u[k]) && orig[k] == u[k].family
    ensures SamePrefix(r[k], t[k]) && ValidPrefix(r[k], len) && MapsBackAt(s, r, orig, k) && RunTagAt(t, r, orig, k)
  {
    assert RetaggedAt(t, u, k);
    var j: nat :| RunStart(t, j, k) && u[k].family == t[j].family;
    TaggedAt(s, t, j);
    TaggedAt(s, t, k);
  }

  lemma TableOf(s: seq<Prefix>, t: seq<Prefix>, u: seq<Prefix>, r: seq<Prefix>, orig: seq<nat>, len: nat)
    requires AllValid(s, len) && Tagged(s, t) && NetworkSorted(t) && Retagged(t, u) && |r| == |orig| == |u|
    requires forall k :: 0 <= k < |u| ==> SamePrefix(r[k], u[k]) && orig[k] == u[k].family
    ensures Table(r, len) && MapsBack(s, r, orig)
    ensures t == SortedTags(s, len) ==> RunTags(s, r, orig, len)
  {
    assert |t| == |multiset(t)| == |s|;
    forall k: nat | k < |r|
      ensures SamePrefix(r[k], t[k]) && ValidPrefix(r[k], len) && MapsBackAt(s, r, orig, k) && RunTagAt(t, r, orig, k)
    {
      EntryOf(s, t, u, r, orig, len, k);
    }
    forall i: nat, j: nat | i < j < |r|
      ensures InOrder(r, i, j)
    {
      assert LexLe(NetworkKey(t[i]), NetworkKey(t[j]));
      assert NetworkKey(r[i]) == NetworkKey(t[i]) && NetworkKey(r[j]) == NetworkKey(t[j]);
      NetworkOrder(r[i], r[j], len);
    }
    forall m: nat | m < |s|
      ensures AppearsIn(s[m], r)
    {
      var k := TaggedOnto(s, t, m);
      TaggedAt(s, t, k);
      assert SamePrefix(s[m], r[k]);
    }
  }

  /** The copy, tag, sort and duplicate steps of `cidr_index_create`. */
  method SortTable(prefixes: array<Prefix>, len: nat, family: nat) returns (copy: array<Prefix>, origMap: array<nat>)
    requires AllValid(prefixes[..], len) && prefixes.Length < TAG_LIMIT
    ensures fresh(copy) && fresh(origMap) && copy.Length == prefixes.Length
    ensures Table(copy[..], len) && MapsBack(prefixes[..], copy[..], origMap[..])
    ensures RunTags(prefixes[..], copy[..], origMap[..], len)
  {
    ghost var s := prefixes[..];
    copy := new Prefix[prefixes.Length](i requires 0 <= i < prefixes.Length reads prefixes => prefixes[i]);
    assert copy[..] == s;
    PrepareTags(copy);
    SortNetwork(copy, len);
    ghost var t := copy[..];
    ResolveDuplicates(copy);
    ghost var u := copy[..];
    origMap := new nat[copy.Length](i requires 0 <= i < copy.Length reads copy => copy[i].family);
    RestoreFamily(copy, family);
    TableOf(s, t, u, copy[..], origMap[..], len);
  }

  /** A trie holds exactly the prefixes of an array. */
  ghost predicate HoldsTable(t: Tree, source: seq<Prefix>, len: nat)
    requires AllValid(source, len)
  {
    forall key: Bits :: HeldKey(t, key) <==> KeyIn(key, source, len)
  }

  ghost predicate KeyIn(key: Bits, source: seq<Prefix>, len: nat)
    requires AllValid(source, len)
  {
    exists m: nat :: m < |source| && Key(source[m]) == key
  }

  lemma {:induction false} HeldKeyIndex(t: Tree, key: Bits) returns (idx: nat)
    requires HeldKey(t, key)
    ensures Holds(t, key, idx)
  {
    if t.path == key && t.pfx.Some? {
      idx := t.pfx.value;
    } else if HeldKey(t.left, key) {
      idx := HeldKeyIndex(t.left, key);
    } else {
      idx := HeldKeyIndex(t.right, key);
    }
  }

  lemma {:induction false} HoldsHeldKey(t: Tree, key: Bits, idx: nat)
    requires Holds(t, key, idx)
    ensures HeldKey(t, key)
  {
    if Holds(t.left, key, idx) {
      HoldsHeldKey(t.left, key, idx);
    } else if Holds(t.right, key, idx) {
      HoldsHeldKey(t.right, key, idx);
    }
  }

  lemma FirstOf(ps: seq<Prefix>, len: nat, k: nat) returns (idx: nat)
    requires Table(ps, len) && k < |ps|
    ensures FirstAt(ps, len, 0, |ps|, Key(ps[k]), idx)
  {
    idx := 0;
    while Key(ps[idx]) != Key(ps[k])
      invariant idx <= k && forall j :: 0 <= j < idx ==> Key(ps[j]) != Key(ps[k])
      decreases k - idx
    {
      idx := idx + 1;
    }
  }

  /** The built trie holds the caller's table. */
  lemma StoresTable(t: Tree, source: seq<Prefix>, ps: seq<Prefix>, orig: seq<nat>, len: nat)
    requires AllValid(source, len) && Table(ps, len) && MapsBack(source, ps, orig) && Stores(t, ps, len, 0, |ps|)
    ensures HoldsTable(t, source, len)
  {
    forall key: Bits
      ensures HeldKey(t, key) <==> KeyIn(key, source, len)
    {
      if HeldKey(t, key) {
        var idx := HeldKeyIndex(t, key);
        assert FirstAt(ps, len, 0, |ps|, key, idx);
        assert MapsBackAt(source, ps, orig, idx);
        assert Key(source[orig[idx]]) == key;
      }
      if KeyIn(key, source, len) {
        var m: nat :| m < |source| && Key(source[m]) == key;
        assert AppearsIn(source[m], ps);
        var k: nat :| k < |ps| && SamePrefix(source[m], ps[k]);
        var idx := FirstOf(ps, len, k);
        assert Holds(t, key, idx);
        HoldsHeldKey(t, key, idx);
      }
    }
  }

  /** The trie, DP and packing steps of `cidr_index_create`: fails exactly when the nodes of the trie or
      its least packed size are over the node limit; the final size check never fails. */
  method BuildPacked(copy: array<Prefix>, len: nat, nodeLimit: nat) returns (nodes: array?<LcNode>, ghost trie: Tree)
    requires Table(copy[..], len) && 1 <= copy.Length <= nodeLimit
    ensures trie.Node? && Wf(trie, 8 * len) && Stores(trie, copy[..], len, 0, copy.Length)
    ensures nodes == null <==> trie.Count() > nodeLimit || Cost(trie, 8 * len) > nodeLimit
    ensures nodes != null ==> fresh(nodes) && nodes.Length == Cost(trie, 8 * len) <= nodeLimit
    ensures nodes != null ==> PackedAt(nodes[..], 0, 1, trie, 0, 8 * len) && AllWritten(nodes[..], 0, nodes.Length)
  {
    var ps, keyBits := copy[..], 8 * len;
    var maxPatNodes := 2 * copy.Length + 2;
    if maxPatNodes > nodeLimit {
      maxPatNodes := nodeLimit;
    }
    var patNodes := new PatNode[maxPatNodes](_ => PatNode(None, None, None, 0, 0, 0, 0));
    var root, patCount, overflowed;
    root, patCount, overflowed, trie :=
      SubtreeBuild(ps, len, 0, copy.Length, 0, keyBits, patNodes, 0, nodeLimit, []);
    if overflowed || root.None? {
      return null, trie;
    }
    ghost var cells := Preorder(trie);
    TrieCells(patNodes[..], ps, len, trie, cells);
    var ok := DpCompute(patNodes, root.value, ps, len, keyBits, nodeLimit, cells);
    if !ok {
      return null, trie;
    }
    assert PricedCell(patNodes[..], cells, keyBits, 0);
    if patNodes[root.value].dpCost > nodeLimit {
      return null, trie;
    }
    nodes := new LcNode[patNodes[root.value].dpCost](_ => Raw);
    nodes := PackRoot(patNodes, root.value, ps, len, nodes, cells);
  }

  lemma {:induction false} TrieCells(nodes: seq<PatNode>, ps: seq<Prefix>, len: nat, t: Tree, cells: seq<Tree>)
    requires Table(ps, len) && t.Node? && Wf(t, 8 * len) && Rep(nodes, ps, len, 0, t) && cells == Preorder(t)
    ensures Cells(nodes, ps, len, cells) && WfCells(cells, 8 * len) && |cells| > 0 && cells[0] == t
    ensures cells[0].Count() == |cells|
  {
    assert cells[0..0 + t.Count()] == cells;
    forall i: nat | i < |cells|
      ensures CellOk(nodes, ps, len, cells, i)
    {
      RepCells(nodes, ps, len, 0, t, cells, i);
    }
    ListsRoot(cells, 0, t);
    forall i | 0 <= i < |cells|
      ensures cells[i].Node? && Wf(cells[i], 8 * len)
    {
      assert CellOk(nodes, ps, len, cells, i);
    }
  }

  /** The packing step and the final size check. */
  method PackRoot(patNodes: array<PatNode>, patRoot: nat, ps: seq<Prefix>, ghost len: nat, nodes: array<LcNode>,
      ghost cells: seq<Tree>) returns (r: array?<LcNode>)
    requires Cells(patNodes[..], ps, len, cells) && WfCells(cells, 8 * len) && |cells| > 0 && patRoot == 0
    requires cells[0].Count() == |cells| && PricedAll(patNodes[..], cells, 8 * len, 0)
    requires nodes.Length == Cost(cells[0], 8 * len) && AllRaw(nodes[..], 0, nodes.Length)
    modifies nodes
    ensures r == nodes && PackedAt(nodes[..], 0, 1, cells[0], 0, 8 * len) && AllWritten(nodes[..], 0, nodes.Length)
  {
    assert PricedCell(patNodes[..], cells, 8 * len, 0);
    var packedNext := PackSubtree(patNodes, patRoot, ps, len, nodes, 0, 1, 0, cells);
    if packedNext != patNodes[patRoot].dpCost {
      return null;
    }
    return nodes;
  }
}
