/** `lctrie_pack_subtree`: the packed array, its layout and its exact size. */
module Packing {
  import opened BitStrings
  import opened Prefixes
  import opened Patricia
  import opened LevelCompression
  import opened CostMonotone
  import opened Arena
  import opened BranchChoice

  /** `cidr_lctrie_node_t`; `Raw` is a slot of the fresh allocation nothing has written yet. */
  datatype LcNode = Raw | LcNode(base: nat, prefixIdx: Option<nat>, branch: nat, skip: nat)

  /** `(uint8_t)(bit_position - parent_depth)`. */
  function Skip(bitPosition: nat, parentDepth: nat): nat {
    (bitPosition - parentDepth) % 256
  }

  lemma {:induction false} CostOfBranch(t: Tree, width: nat)
    requires t.Node? && Wf(t, width) && !t.Leaf()
    ensures Branch(t, width) >= 1 && Cost(t, width) == 1 + SlotSum(t, width, Branch(t, width), Pow2(Branch(t, width)))
  {
    InteriorBranch(t, width);
    BestUpToIsMin(t, width, MaxBranch(t, width), 1);
  }

  /** Where the descendants of slot `s` start, when the slot block itself starts at `base`. */
  function KidFree(t: Tree, width: nat, b: nat, base: nat, s: nat): (r: nat)
    requires t.Node? && Wf(t, width) && b >= 1
    ensures r >= base + Pow2(b)
  {
    base + Pow2(b) + (SlotSum(t, width, b, s) - s)
  }

  lemma {:induction false} KidRegions(t: Tree, width: nat, b: nat, base: nat, s: nat, k: nat)
    requires t.Node? && Wf(t, width) && b >= 1 && s < k <= Pow2(b)
    ensures KidFree(t, width, b, base, s + 1)
      == KidFree(t, width, b, base, s) + Cost(SlotTarget(t, width, b, s), width) - 1
    ensures KidFree(t, width, b, base, s + 1) <= KidFree(t, width, b, base, k)
    ensures KidFree(t, width, b, base, Pow2(b)) == base + SlotSum(t, width, b, Pow2(b))
  {
    SumGrows(t, width, b, s + 1, k);
  }

  /** Array cell `idx` holds `t` at `depth`, its descendants filling the cells from `free` on. */
  ghost predicate PackedAt(p: seq<LcNode>, idx: nat, free: nat, t: Tree, depth: nat, width: nat)
    requires Wf(t, width)
    decreases t.Count(), 2
  {
    && idx < |p| && free + Cost(t, width) - 1 <= |p|
    && if t.Empty? then p[idx] == LcNode(0, None, 0, 0)
       else
         && p[idx] == LcNode(if t.Leaf() then 0 else free, t.pfx, Branch(t, width), Skip(|t.path|, depth))
         && (!t.Leaf() ==>
             && Branch(t, width) >= 1
             && SlotsPacked(p, free, t, Branch(t, width), Pow2(Branch(t, width)), width))
  }

  /** The first `n` slots of `t`, in the block at `base`, are packed. */
  ghost predicate SlotsPacked(p: seq<LcNode>, base: nat, t: Tree, b: nat, n: nat, width: nat)
    requires t.Node? && Wf(t, width) && b >= 1
    decreases t.Count(), 1
  {
    forall s: nat :: s < n ==> SlotPacked(p, base, t, b, s, width)
  }

  ghost predicate SlotPacked(p: seq<LcNode>, base: nat, t: Tree, b: nat, s: nat, width: nat)
    requires t.Node? && Wf(t, width) && b >= 1
    decreases t.Count(), 0
  {
    PackedAt(p, base + s, KidFree(t, width, b, base, s), SlotTarget(t, width, b, s), |t.path| + b, width)
  }

  ghost predicate AgreeOn(p: seq<LcNode>, q: seq<LcNode>, lo: nat, hi: nat) {
    |p| == |q| && forall i :: lo <= i < hi && i < |p| ==> p[i] == q[i]
  }

  /** The packed form depends on its own cells only: the root and the run from `free`. */
  lemma {:induction false} PackedFrame(p: seq<LcNode>, q: seq<LcNode>, idx: nat, free: nat, t: Tree, depth: nat,
      width: nat)
    requires Wf(t, width) && PackedAt(p, idx, free, t, depth, width)
    requires AgreeOn(p, q, idx, idx + 1) && AgreeOn(p, q, free, free + Cost(t, width) - 1)
    ensures PackedAt(q, idx, free, t, depth, width)
    decreases t.Count(), 1
  {
    if t.Node? && !t.Leaf() {
      CostOfBranch(t, width);
      SlotsFrame(p, q, free, t, Branch(t, width), Pow2(Branch(t, width)), width);
    }
  }

  lemma {:induction false} SlotsFrame(p: seq<LcNode>, q: seq<LcNode>, base: nat, t: Tree, b: nat, n: nat, width: nat)
    requires t.Node? && Wf(t, width) && b >= 1 && SlotsPacked(p, base, t, b, n, width) && n == Pow2(b)
    requires AgreeOn(p, q, base, base + SlotSum(t, width, b, n))
    ensures SlotsPacked(q, base, t, b, n, width)
    decreases t.Count(), 0
  {
    forall s: nat | s < n
      ensures SlotPacked(q, base, t, b, s, width)
    {
      assert SlotPacked(p, base, t, b, s, width);
      KidRegions(t, width, b, base, s, n);
      PackedFrame(p, q, base + s, KidFree(t, width, b, base, s), SlotTarget(t, width, b, s), |t.path| + b, width);
    }
  }

  ghost predicate AllRaw(p: seq<LcNode>, lo: nat, hi: nat) {
    hi <= |p| && forall i :: lo <= i < hi ==> p[i].Raw?
  }

  ghost predicate AllWritten(p: seq<LcNode>, lo: nat, hi: nat) {
    hi <= |p| && forall i :: lo <= i < hi ==> !p[i].Raw?
  }

  /** Only cell `idx` and the cells `lo..hi` differ. */
  ghost predicate OnlyTouches(p: seq<LcNode>, q: seq<LcNode>, idx: nat, lo: nat, hi: nat) {
    |p| == |q| && forall i :: 0 <= i < |p| && i != idx && !(lo <= i < hi) ==> p[i] == q[i]
  }

  /** `lctrie_pack_subtree`: every cell it writes was raw, and `next` advances by the DP cost less one. */
  method PackSubtree(nodes: array<PatNode>, patIdx: nat, ps: seq<Prefix>, ghost len: nat, packed: array<LcNode>,
      packedIdx: nat, nextFree: nat, parentDepth: nat, ghost cells: seq<Tree>) returns (next: nat)
    requires Cells(nodes[..], ps, len, cells) && WfCells(cells, 8 * len)
    requires patIdx < |cells| && patIdx + cells[patIdx].Count() <= |cells|
    requires PricedAll(nodes[..], cells, 8 * len, patIdx)
    requires packedIdx < nextFree && AllRaw(packed[..], packedIdx, packedIdx + 1)
    requires AllRaw(packed[..], nextFree, nextFree + Cost(cells[patIdx], 8 * len) - 1)
    modifies packed
    ensures next == nextFree + Cost(cells[patIdx], 8 * len) - 1
    ensures PackedAt(packed[..], packedIdx, nextFree, cells[patIdx], parentDepth, 8 * len)
    ensures AllWritten(packed[..], packedIdx, packedIdx + 1) && AllWritten(packed[..], nextFree, next)
    ensures OnlyTouches(old(packed[..]), packed[..], packedIdx, nextFree, next)
    decreases cells[patIdx].Count(), 2
  {
    ghost var t, width := cells[patIdx], 8 * len;
    CellData(nodes[..], ps, len, cells, patIdx);
    assert PricedCell(nodes[..], cells, width, patIdx);
    var patNode := nodes[patIdx];
    var branch := patNode.optimalBranch;
    packed[packedIdx] := LcNode(0, patNode.prefixIdx, branch, Skip(patNode.bitPosition, parentDepth));
    next := nextFree;
    if branch == 0 {
      return;
    }
    CostOfBranch(t, width);
    packed[packedIdx] := packed[packedIdx].(base := next);
    next := next + Pow2(branch);
    next := PackSlots(nodes, patIdx, ps, len, packed, nextFree, branch, patNode.bitPosition + branch, cells);
  }

  /** Writing the cells of slot `n` leaves the earlier slots packed. */
  lemma {:induction false} SlotsKept(p: seq<LcNode>, q: seq<LcNode>, base: nat, t: Tree, b: nat, n: nat, width: nat)
    requires t.Node? && Wf(t, width) && b >= 1 && n < Pow2(b) && SlotsPacked(p, base, t, b, n, width)
    requires OnlyTouches(p, q, base + n, KidFree(t, width, b, base, n), KidFree(t, width, b, base, n + 1))
    ensures SlotsPacked(q, base, t, b, n, width)
  {
    forall s: nat | s < n
      ensures SlotPacked(q, base, t, b, s, width)
    {
      assert SlotPacked(p, base, t, b, s, width);
      KidRegions(t, width, b, base, s, n);
      PackedFrame(p, q, base + s, KidFree(t, width, b, base, s), SlotTarget(t, width, b, s), |t.path| + b, width);
    }
  }

  /** The state of the slot loop before slot `slot`: earlier slots packed, the rest still raw. */
  ghost predicate SlotLoop(was: seq<LcNode>, p: seq<LcNode>, base: nat, t: Tree, b: nat, slot: nat, width: nat)
    requires t.Node? && Wf(t, width) && b >= 1
  {
    var next, end := KidFree(t, width, b, base, slot), base + SlotSum(t, width, b, Pow2(b));
    && SlotsPacked(p, base, t, b, slot, width)
    && AllWritten(p, base, base + slot) && AllRaw(p, base + slot, base + Pow2(b))
    && AllWritten(p, base + Pow2(b), next) && AllRaw(p, next, end)
    && OnlyTouches(was, p, base, base, end)
  }

  lemma SlotLoopStep(was: seq<LcNode>, p: seq<LcNode>, q: seq<LcNode>, base: nat, t: Tree, b: nat, slot: nat,
      width: nat)
    requires t.Node? && Wf(t, width) && b >= 1 && slot < Pow2(b)
    requires SlotLoop(was, p, base, t, b, slot, width) && SlotPacked(q, base, t, b, slot, width)
    requires var next, next' := KidFree(t, width, b, base, slot), KidFree(t, width, b, base, slot + 1);
      && OnlyTouches(p, q, base + slot, next, next') && next <= next' <= |q|
      && AllWritten(q, base + slot, base + slot + 1) && AllWritten(q, next, next')
    ensures SlotLoop(was, q, base, t, b, slot + 1, width)
  {
    SlotsKept(p, q, base, t, b, slot, width);
    KidRegions(t, width, b, base, slot, Pow2(b));
    var next, next' := KidFree(t, width, b, base, slot), KidFree(t, width, b, base, slot + 1);
    forall i | base <= i < base + slot + 1 || base + Pow2(b) <= i < next'
      ensures !q[i].Raw?
    {
      if i != base + slot && !(next <= i < next') {
        assert p[i] == q[i];
      }
    }
  }

  /** The slot loop of `lctrie_pack_subtree`. */
  method PackSlots(nodes: array<PatNode>, patIdx: nat, ps: seq<Prefix>, ghost len: nat, packed: array<LcNode>,
      base: nat, branch: nat, depth: nat, ghost cells: seq<Tree>) returns (next: nat)
    requires Cells(nodes[..], ps, len, cells) && WfCells(cells, 8 * len)
    requires patIdx < |cells| && patIdx + cells[patIdx].Count() <= |cells|
    requires PricedAll(nodes[..], cells, 8 * len, patIdx)
    requires branch >= 1 && depth == |cells[patIdx].path| + branch
    requires AllRaw(packed[..], base, base + SlotSum(cells[patIdx], 8 * len, branch, Pow2(branch)))
    modifies packed
    ensures next == base + SlotSum(cells[patIdx], 8 * len, branch, Pow2(branch))
    ensures SlotLoop(old(packed[..]), packed[..], base, cells[patIdx], branch, Pow2(branch), 8 * len)
    decreases cells[patIdx].Count(), 1
  {
    ghost var t, width, was := cells[patIdx], 8 * len, packed[..];
    next := base + Pow2(branch);
    var slot := 0;
    while slot < Pow2(branch)
      invariant slot <= Pow2(branch) && next == KidFree(t, width, branch, base, slot)
      invariant SlotLoop(was, packed[..], base, t, branch, slot, width)
    {
      ghost var before := packed[..];
      KidRegions(t, width, branch, base, slot, Pow2(branch));
      next := PackOneSlot(nodes, patIdx, ps, len, packed, base, branch, slot, next, depth, cells);
      SlotLoopStep(was, before, packed[..], base, t, branch, slot, width);
      slot := slot + 1;
    }
    KidRegions(t, width, branch, base, Pow2(branch) - 1, Pow2(branch));
  }

  /** One slot: a dead leaf, or a full copy of the subtree behind it. */
  method PackOneSlot(nodes: array<PatNode>, patIdx: nat, ps: seq<Prefix>, ghost len: nat, packed: array<LcNode>,
      base: nat, branch: nat, slot: nat, nextFree: nat, depth: nat, ghost cells: seq<Tree>) returns (next: nat)
    requires Cells(nodes[..], ps, len, cells) && WfCells(cells, 8 * len)
    requires patIdx < |cells| && patIdx + cells[patIdx].Count() <= |cells|
    requires PricedAll(nodes[..], cells, 8 * len, patIdx)
    requires branch >= 1 && slot < Pow2(branch) && depth == |cells[patIdx].path| + branch
    requires nextFree == KidFree(cells[patIdx], 8 * len, branch, base, slot)
    requires AllRaw(packed[..], base + slot, base + slot + 1)
    requires AllRaw(packed[..], nextFree, KidFree(cells[patIdx], 8 * len, branch, base, slot + 1))
    modifies packed
    ensures next == KidFree(cells[patIdx], 8 * len, branch, base, slot + 1) && nextFree <= next
    ensures SlotPacked(packed[..], base, cells[patIdx], branch, slot, 8 * len)
    ensures AllWritten(packed[..], base + slot, base + slot + 1) && AllWritten(packed[..], nextFree, next)
    ensures OnlyTouches(old(packed[..]), packed[..], base + slot, nextFree, next)
    decreases cells[patIdx].Count(), 0
  {
    ghost var t, width := cells[patIdx], 8 * len;
    KidRegions(t, width, branch, base, slot, slot + 1);
    var childPatIdx := FindSlotTarget(nodes, patIdx, ps, len, branch, slot, cells);
    if childPatIdx.None? {
      packed[base + slot] := LcNode(0, None, 0, 0);
      next := nextFree;
    } else {
      PricedDescendant(nodes[..], cells, width, patIdx, childPatIdx.value);
      next := PackSubtree(nodes, childPatIdx.value, ps, len, packed, base + slot, nextFree, depth, cells);
    }
  }

  lemma PricedDescendant(nodes: seq<PatNode>, cells: seq<Tree>, width: nat, i: nat, j: nat)
    requires i < j < |cells| <= |nodes| && WfCells(cells, width)
    requires j + cells[j].Count() <= i + cells[i].Count() <= |cells| && PricedAll(nodes, cells, width, i)
    ensures PricedAll(nodes, cells, width, j)
  {
  }
}
