/** `patricia_slot_target` and `patricia_dp_compute` over the node arena. */
module BranchChoice {
  // From here on the arena is read cell by cell: `cells[i]` is the subtree whose root is cell `i`.
  import opened BitStrings
  import opened Prefixes
  import opened Patricia
  import opened LevelCompression
  import opened CostMonotone
  import opened Arena

  /** The link of a cell: absent for an empty child, else the cell `j` of that child. */
  ghost predicate LinkOk(link: Option<nat>, cells: seq<Tree>, j: nat, c: Tree) {
    if c.Empty? then link.None? else link == Some(j) && j + c.Count() <= |cells| && cells[j] == c
  }

  /** Cell `i` describes the root of `cells[i]`. */
  ghost predicate CellOk(nodes: seq<PatNode>, ps: seq<Prefix>, len: nat, cells: seq<Tree>, i: nat)
    requires AllValid(ps, len) && i < |cells| <= |nodes|
  {
    var n, c := nodes[i], cells[i];
    && c.Node? && Wf(c, 8 * len) && i + c.Count() <= |cells|
    && n.bitPosition == |c.path| && n.prefixIdx == c.pfx
    && n.reprIdx < |ps| && c.path <= Key(ps[n.reprIdx])
    && (c.pfx.Some? ==> c.pfx.value < |ps| && Key(ps[c.pfx.value]) == c.path)
    && LinkOk(n.left, cells, i + 1, c.left)
    && LinkOk(n.right, cells, i + 1 + c.left.Count(), c.right)
  }

  ghost predicate Cells(nodes: seq<PatNode>, ps: seq<Prefix>, len: nat, cells: seq<Tree>) {
    AllValid(ps, len) && |cells| <= |nodes| && forall i: nat :: i < |cells| ==> CellOk(nodes, ps, len, cells, i)
  }

  /** The subtrees of `t` in preorder. */
  ghost function Preorder(t: Tree): (r: seq<Tree>)
    ensures |r| == t.Count()
  {
    if t.Empty? then [] else [t] + Preorder(t.left) + Preorder(t.right)
  }

  /** The cells from `at` on list the subtrees of `t`. */
  ghost predicate Lists(cells: seq<Tree>, at: nat, t: Tree) {
    at + t.Count() <= |cells| && cells[at..at + t.Count()] == Preorder(t)
  }

  lemma {:induction false} ListsChildren(cells: seq<Tree>, at: nat, t: Tree)
    requires t.Node? && Lists(cells, at, t)
    ensures cells[at] == t
    ensures Lists(cells, at + 1, t.left) && Lists(cells, at + 1 + t.left.Count(), t.right)
  {
    var x, y := Preorder(t.left), Preorder(t.right);
    PreorderParts(t);
    ThreeParts(cells, at, t, x, y);
  }

  lemma {:induction false} PreorderParts(t: Tree)
    requires t.Node?
    ensures t.Count() == 1 + |Preorder(t.left)| + |Preorder(t.right)|
    ensures Preorder(t) == [t] + (Preorder(t.left) + Preorder(t.right))
  {
    assert [t] + Preorder(t.left) + Preorder(t.right) == [t] + (Preorder(t.left) + Preorder(t.right));
  }

  lemma {:induction false} ThreeParts<T>(cells: seq<T>, at: nat, r: T, x: seq<T>, y: seq<T>)
    requires at + 1 + |x| + |y| <= |cells| && cells[at..at + 1 + |x| + |y|] == [r] + (x + y)
    ensures cells[at] == r && cells[at + 1..at + 1 + |x|] == x
    ensures cells[at + 1 + |x|..at + 1 + |x| + |y|] == y
  {
    var all := cells[at..at + 1 + |x| + |y|];
    assert cells[at] == all[0] && all[1..] == x + y;
    assert cells[at + 1..at + 1 + |x|] == all[1..][..|x|];
    assert cells[at + 1 + |x|..at + 1 + |x| + |y|] == all[1..][|x|..];
  }

  lemma ListsRoot(cells: seq<Tree>, at: nat, t: Tree)
    requires t.Node? && Lists(cells, at, t)
    ensures cells[at] == t
  {
    assert cells[at] == cells[at..at + t.Count()][0];
  }

  /** The fields of the root cell. */
  lemma {:induction false} RepRoot(nodes: seq<PatNode>, ps: seq<Prefix>, len: nat, at: nat, t: Tree)
    requires Table(ps, len) && t.Node? && Rep(nodes, ps, len, at, t)
    ensures at < |nodes| && nodes[at].bitPosition == |t.path| && nodes[at].prefixIdx == t.pfx
    ensures nodes[at].reprIdx < |ps| && t.path <= Key(ps[nodes[at].reprIdx])
    ensures t.pfx.Some? ==> t.pfx.value < |ps| && Key(ps[t.pfx.value]) == t.path
    ensures nodes[at].left == if t.left.Empty? then None else Some(at + 1)
    ensures nodes[at].right == if t.right.Empty? then None else Some(at + 1 + t.left.Count())
  {
  }

  lemma {:induction false} ListsLink(cells: seq<Tree>, at: nat, c: Tree, link: Option<nat>)
    requires Lists(cells, at, c) && link == if c.Empty? then None else Some(at)
    ensures LinkOk(link, cells, at, c)
  {
    if c.Node? {
      ListsRoot(cells, at, c);
    }
  }

  lemma {:induction false} LeftLink(nodes: seq<PatNode>, ps: seq<Prefix>, len: nat, at: nat, t: Tree, cells: seq<Tree>)
    requires Table(ps, len) && t.Node? && Rep(nodes, ps, len, at, t) && Lists(cells, at, t)
    ensures LinkOk(nodes[at].left, cells, at + 1, t.left)
  {
    ListsChildren(cells, at, t);
    ListsLink(cells, at + 1, t.left, nodes[at].left);
  }

  lemma {:induction false} RightLink(nodes: seq<PatNode>, ps: seq<Prefix>, len: nat, at: nat, t: Tree, cells: seq<Tree>)
    requires Table(ps, len) && t.Node? && Rep(nodes, ps, len, at, t) && Lists(cells, at, t)
    ensures LinkOk(nodes[at].right, cells, at + 1 + t.left.Count(), t.right)
  {
    ListsChildren(cells, at, t);
    ListsLink(cells, at + 1 + t.left.Count(), t.right, nodes[at].right);
  }

  lemma {:induction false} RootCell(nodes: seq<PatNode>, ps: seq<Prefix>, len: nat, at: nat, t: Tree, cells: seq<Tree>)
    requires Table(ps, len) && Wf(t, 8 * len) && |cells| <= |nodes| && t.Node?
    requires Rep(nodes, ps, len, at, t) && Lists(cells, at, t)
    ensures CellOk(nodes, ps, len, cells, at)
  {
    RepRoot(nodes, ps, len, at, t);
    LeftLink(nodes, ps, len, at, t, cells);
    RightLink(nodes, ps, len, at, t, cells);
    ListsRoot(cells, at, t);
  }

  /** The arena that holds a trie, read cell by cell. */
  lemma {:induction false} RepCells(nodes: seq<PatNode>, ps: seq<Prefix>, len: nat, at: nat, t: Tree, cells: seq<Tree>,
      i: nat)
    requires Table(ps, len) && Wf(t, 8 * len) && |cells| <= |nodes| && t.Node?
    requires Rep(nodes, ps, len, at, t) && Lists(cells, at, t) && at <= i < at + t.Count()
    ensures CellOk(nodes, ps, len, cells, i)
    decreases t
  {
    ListsChildren(cells, at, t);
    if i == at {
      RootCell(nodes, ps, len, at, t, cells);
    } else if i < at + 1 + t.left.Count() {
      RepCells(nodes, ps, len, at + 1, t.left, cells, i);
    } else {
      RepCells(nodes, ps, len, at + 1 + t.left.Count(), t.right, cells, i);
    }
  }

  lemma {:induction false} CellData(nodes: seq<PatNode>, ps: seq<Prefix>, len: nat, cells: seq<Tree>, i: nat)
    requires Cells(nodes, ps, len, cells) && i < |cells|
    ensures cells[i].Node? && Wf(cells[i], 8 * len) && i + cells[i].Count() <= |cells|
    ensures nodes[i].bitPosition == |cells[i].path| && nodes[i].prefixIdx == cells[i].pfx
    ensures nodes[i].reprIdx < |ps| && cells[i].path <= Key(ps[nodes[i].reprIdx])
    ensures nodes[i].left.None? == cells[i].left.Empty? && nodes[i].right.None? == cells[i].right.Empty?
  {
    assert CellOk(nodes, ps, len, cells, i);
  }

  /** The link of cell `i` on one side leads to the child on that side. */
  lemma CellLink(nodes: seq<PatNode>, ps: seq<Prefix>, len: nat, cells: seq<Tree>, i: nat, bit: bool)
    requires Cells(nodes, ps, len, cells) && i < |cells|
    ensures cells[i].Node? && i + cells[i].Count() <= |cells|
    ensures Resolves(cells, i, cells[i].Child(bit), if bit then nodes[i].right else nodes[i].left)
    ensures cells[i].Child(bit).Node? ==> |cells[i].path| < |cells[i].Child(bit).path|
  {
    assert CellOk(nodes, ps, len, cells, i);
  }

  /** The links of a cell lead to the next cell and to the one after the left subtree. */
  lemma CellRegions(nodes: seq<PatNode>, ps: seq<Prefix>, len: nat, cells: seq<Tree>, i: nat)
    requires Cells(nodes, ps, len, cells) && i < |cells|
    ensures cells[i].Node? && LinkOk(nodes[i].left, cells, i + 1, cells[i].left)
    ensures LinkOk(nodes[i].right, cells, i + 1 + cells[i].left.Count(), cells[i].right)
  {
    assert CellOk(nodes, ps, len, cells, i);
  }

  lemma CellsFrame(m: seq<PatNode>, n: seq<PatNode>, ps: seq<Prefix>, len: nat, cells: seq<Tree>)
    requires Cells(m, ps, len, cells) && |m| == |n| && forall i :: 0 <= i < |m| ==> SameLinks(m[i], n[i])
    ensures Cells(n, ps, len, cells)
  {
    forall i: nat | i < |cells|
      ensures CellOk(n, ps, len, cells, i)
    {
      assert CellOk(m, ps, len, cells, i) && SameLinks(m[i], n[i]);
    }
  }

  // ----- Slot targets in the arena -----

  /** `slot_pattern_bit`: `(slot >> (branch - rel - 1)) & 1`. */
  predicate SlotPatternBit(slot: nat, branch: nat, rel: nat)
    requires rel < branch
  {
    Shr(slot, branch - rel - 1) % 2 == 1
  }

  /** Cell `r` (or none) is the root of `u`, a proper descendant of cell `at`. */
  ghost predicate Resolves(cells: seq<Tree>, at: nat, u: Tree, r: Option<nat>)
    requires at < |cells|
  {
    if u.Empty? then r.None?
    else r.Some? && at < r.value && r.value + u.Count() <= at + cells[at].Count() <= |cells| && cells[r.value] == u
  }

  /** The inner loop of `patricia_slot_target`: match the pattern against `child`'s compressed bits. */
  method MatchCompressed(child: PatNode, ps: seq<Prefix>, ghost len: nat, branch: nat, slot: nat, absStart: nat,
      relStart: nat, ghost c: Tree) returns (matched: bool, absBitPos: nat, relBitPos: nat)
    requires AllValid(ps, len) && c.Node? && child.bitPosition == |c.path|
    requires child.reprIdx < |ps| && c.path <= Key(ps[child.reprIdx])
    requires relStart < branch && absStart <= |c.path|
    ensures relStart <= relBitPos <= branch && absBitPos <= |c.path| && absBitPos - absStart == relBitPos - relStart
    ensures relBitPos == branch || absBitPos == |c.path| || !matched
    ensures var pat := ToBits(slot, branch);
      Step(c, absStart, pat[relStart..]) == if matched then Step(c, absBitPos, pat[relBitPos..]) else Empty
  {
    ghost var pat := ToBits(slot, branch);
    ghost var u := Step(c, absStart, pat[relStart..]);
    absBitPos, relBitPos := absStart, relStart;
    while relBitPos < branch && absBitPos < child.bitPosition
      invariant relStart <= relBitPos <= branch && absBitPos <= |c.path| && absBitPos - absStart == relBitPos - relStart
      invariant u == Step(c, absBitPos, pat[relBitPos..])
    {
      var requiredBit := AddrBit(ps[child.reprIdx].addr, absBitPos);
      assert requiredBit == Key(ps[child.reprIdx])[absBitPos] == c.path[absBitPos];
      ToBitsAt(slot, branch, relBitPos);
      assert pat[relBitPos..][0] == pat[relBitPos] && pat[relBitPos..][1..] == pat[relBitPos + 1..];
      if SlotPatternBit(slot, branch, relBitPos) != requiredBit {
        return false, absBitPos, relBitPos;
      }
      absBitPos, relBitPos := absBitPos + 1, relBitPos + 1;
    }
    matched := true;
  }

  /** The step from the end of a compressed path. */
  lemma {:induction false} StepOn(c: Tree, pos: nat, pat: Bits, k: nat)
    requires c.Node? && pos == |c.path| && k < |pat|
    ensures Step(c, pos, pat[k..]) ==
      if c.Child(pat[k]).Node? then Step(c.Child(pat[k]), pos + 1, pat[k + 1..])
      else if c.pfx.Some? then c
      else Empty
  {
    assert pat[k..][0] == pat[k] && pat[k..][1..] == pat[k + 1..];
  }

  /** The outer loop of `patricia_slot_target`, from the first child on. */
  method FollowSlot(nodes: array<PatNode>, ghost patIdx: nat, start: nat, ps: seq<Prefix>, ghost len: nat, branch: nat,
      slot: nat, absStart: nat, ghost cells: seq<Tree>) returns (r: Option<nat>)
    requires Cells(nodes[..], ps, len, cells) && patIdx < start < |cells| && branch >= 1
    requires cells[start].Node? && absStart <= |cells[start].path|
    requires start + cells[start].Count() <= patIdx + cells[patIdx].Count() <= |cells|
    ensures Resolves(cells, patIdx, Step(cells[start], absStart, ToBits(slot, branch)[1..]), r)
  {
    ghost var pat := ToBits(slot, branch);
    ghost var u := Step(cells[start], absStart, pat[1..]);
    var childIdx: nat, absBitPos: nat, relBitPos: nat := start, absStart, 1;
    while relBitPos < branch
      invariant 1 <= relBitPos <= branch
      invariant patIdx < childIdx < |cells| && cells[childIdx].Node?
      invariant childIdx + cells[childIdx].Count() <= patIdx + cells[patIdx].Count() <= |cells|
      invariant absBitPos <= |cells[childIdx].path|
      invariant u == Step(cells[childIdx], absBitPos, pat[relBitPos..])
    {
      var child := nodes[childIdx];
      CellData(nodes[..], ps, len, cells, childIdx);
      var matched;
      matched, absBitPos, relBitPos :=
        MatchCompressed(child, ps, len, branch, slot, absBitPos, relBitPos, cells[childIdx]);
      if !matched {
        return None;
      }
      if relBitPos == branch {
        break;
      }
      ToBitsAt(slot, branch, relBitPos);
      StepOn(cells[childIdx], absBitPos, pat, relBitPos);
      CellLink(nodes[..], ps, len, cells, childIdx, pat[relBitPos]);
      if child.left.None? && child.right.None? {
        return if child.prefixIdx.Some? then Some(childIdx) else None;
      }
      var next := if !SlotPatternBit(slot, branch, relBitPos) then child.left else child.right;
      if next.None? {
        return if child.prefixIdx.Some? then Some(childIdx) else None;
      }
      childIdx, absBitPos, relBitPos := next.value, absBitPos + 1, relBitPos + 1;
    }
    return Some(childIdx);
  }

  /** `patricia_slot_target`. */
  method FindSlotTarget(nodes: array<PatNode>, patIdx: nat, ps: seq<Prefix>, ghost len: nat, branch: nat, slot: nat,
      ghost cells: seq<Tree>) returns (r: Option<nat>)
    requires Cells(nodes[..], ps, len, cells) && patIdx < |cells| && branch >= 1
    ensures cells[patIdx].Node? && Wf(cells[patIdx], 8 * len)
    ensures Resolves(cells, patIdx, SlotTarget(cells[patIdx], 8 * len, branch, slot), r)
  {
    ghost var pat := ToBits(slot, branch);
    CellData(nodes[..], ps, len, cells, patIdx);
    ghost var u := SlotTarget(cells[patIdx], 8 * len, branch, slot);
    var node := nodes[patIdx];
    if node.left.None? && node.right.None? {
      return None;
    }
    ToBitsAt(slot, branch, 0);
    CellLink(nodes[..], ps, len, cells, patIdx, pat[0]);
    var first := if !SlotPatternBit(slot, branch, 0) then node.left else node.right;
    if first.None? {
      return None;
    }
    r := FollowSlot(nodes, patIdx, first.value, ps, len, branch, slot, node.bitPosition + 1, cells);
  }

  // ----- The dynamic programme -----

  /** Cell `i` carries the DP cost and the chosen branch factor of its subtree. */
  ghost predicate PricedCell(nodes: seq<PatNode>, cells: seq<Tree>, width: nat, i: nat)
    requires i < |cells| <= |nodes| && Wf(cells[i], width) && cells[i].Node?
  {
    nodes[i].dpCost == Cost(cells[i], width) && nodes[i].optimalBranch == Branch(cells[i], width)
  }

  ghost predicate WfCells(cells: seq<Tree>, width: nat) {
    forall i :: 0 <= i < |cells| ==> cells[i].Node? && Wf(cells[i], width)
  }

  /** The proper descendants of cell `i` are priced. */
  ghost predicate PricedBelow(nodes: seq<PatNode>, cells: seq<Tree>, width: nat, i: nat)
    requires i < |cells| <= |nodes| && WfCells(cells, width) && i + cells[i].Count() <= |cells|
  {
    forall k: nat :: i < k < i + cells[i].Count() ==> PricedCell(nodes, cells, width, k)
  }

  /** The DP cost stored at a slot's target, one for a dead slot. */
  method SlotCost(nodes: array<PatNode>, patIdx: nat, ps: seq<Prefix>, ghost len: nat, branch: nat, slot: nat,
      ghost cells: seq<Tree>) returns (slotCost: nat)
    requires Cells(nodes[..], ps, len, cells) && patIdx < |cells| && branch >= 1
    requires WfCells(cells, 8 * len) && patIdx + cells[patIdx].Count() <= |cells|
    requires PricedBelow(nodes[..], cells, 8 * len, patIdx)
    ensures slotCost == Cost(SlotTarget(cells[patIdx], 8 * len, branch, slot), 8 * len)
  {
    var targetIdx := FindSlotTarget(nodes, patIdx, ps, len, branch, slot, cells);
    assert targetIdx.Some? ==> PricedCell(nodes[..], cells, 8 * len, targetIdx.value);
    slotCost := if targetIdx.None? then 1 else nodes[targetIdx.value].dpCost;
  }

  /** The slot loop for one branch factor: its packed size, unless that passes the node limit. */
  method PriceBranch(nodes: array<PatNode>, patIdx: nat, ps: seq<Prefix>, ghost len: nat, branch: nat, nodeLimit: nat,
      ghost cells: seq<Tree>) returns (cost: nat, valid: bool)
    requires Cells(nodes[..], ps, len, cells) && patIdx < |cells| && branch >= 1 && nodeLimit >= 1
    requires WfCells(cells, 8 * len) && patIdx + cells[patIdx].Count() <= |cells|
    requires PricedBelow(nodes[..], cells, 8 * len, patIdx)
    ensures valid <==> CostWith(cells[patIdx], 8 * len, branch) <= nodeLimit
    ensures valid ==> cost == CostWith(cells[patIdx], 8 * len, branch)
  {
    ghost var t, width := cells[patIdx], 8 * len;
    cost := 1;
    var fanout := Pow2(branch);
    var slot := 0;
    while slot < fanout
      invariant slot <= fanout && cost == 1 + SlotSum(t, width, branch, slot) <= nodeLimit
    {
      var slotCost := SlotCost(nodes, patIdx, ps, len, branch, slot, cells);
      if slotCost > nodeLimit - cost {
        SumGrows(t, width, branch, slot + 1, fanout);
        return cost, false;
      }
      cost := cost + slotCost;
      slot := slot + 1;
    }
    valid := true;
  }

  /** The branch loop: the cheapest factor within the limit, the larger one on a tie. */
  method ChooseBranch(nodes: array<PatNode>, patIdx: nat, ps: seq<Prefix>, ghost len: nat, maxBranch: nat,
      nodeLimit: nat, ghost cells: seq<Tree>) returns (bestValid: bool, bestCost: nat, bestBranch: nat)
    requires Cells(nodes[..], ps, len, cells) && patIdx < |cells| && maxBranch >= 1 && nodeLimit >= 1
    requires WfCells(cells, 8 * len) && patIdx + cells[patIdx].Count() <= |cells|
    requires PricedBelow(nodes[..], cells, 8 * len, patIdx)
    ensures bestValid <==> BestUpTo(cells[patIdx], 8 * len, maxBranch).0 <= nodeLimit
    ensures bestValid ==> (bestCost, bestBranch) == BestUpTo(cells[patIdx], 8 * len, maxBranch)
  {
    bestValid, bestCost, bestBranch := false, 0, 1;
    var branch := 1;
    while branch <= maxBranch
      invariant 1 <= branch <= maxBranch + 1
      invariant branch == 1 ==> !bestValid
      invariant branch > 1 ==>
        var r := BestUpTo(cells[patIdx], 8 * len, branch - 1);
        (bestValid <==> r.0 <= nodeLimit) && (bestValid ==> (bestCost, bestBranch) == r)
    {
      var cost, valid := PriceBranch(nodes, patIdx, ps, len, branch, nodeLimit, cells);
      if valid && (!bestValid || cost < bestCost || (cost == bestCost && branch > bestBranch)) {
        bestValid, bestCost, bestBranch := true, cost, branch;
      }
      branch := branch + 1;
    }
  }

  /** The whole subtree of cell `i` is priced. */
  ghost predicate PricedAll(nodes: seq<PatNode>, cells: seq<Tree>, width: nat, i: nat)
    requires i < |cells| <= |nodes| && WfCells(cells, width) && i + cells[i].Count() <= |cells|
  {
    forall k: nat :: i <= k < i + cells[i].Count() ==> PricedCell(nodes, cells, width, k)
  }

  /** Every price in `m` is still there in `n`. */
  ghost predicate KeepsPrices(m: seq<PatNode>, n: seq<PatNode>, cells: seq<Tree>, width: nat)
    requires |cells| <= |m| == |n| && WfCells(cells, width)
  {
    forall k: nat :: k < |cells| && PricedCell(m, cells, width, k) ==> PricedCell(n, cells, width, k)
  }

  lemma KeepsChain(a: seq<PatNode>, b: seq<PatNode>, c: seq<PatNode>, cells: seq<Tree>, width: nat)
    requires |cells| <= |a| == |b| == |c| && WfCells(cells, width)
    requires KeepsPrices(a, b, cells, width) && KeepsPrices(b, c, cells, width)
    ensures KeepsPrices(a, c, cells, width)
  {
  }

  /** Once both children are done, everything below the cell is priced. */
  lemma PricedChildren(nodes: seq<PatNode>, cells: seq<Tree>, width: nat, i: nat, l: nat, r: nat)
    requires i < |cells| <= |nodes| && WfCells(cells, width) && i + cells[i].Count() <= |cells|
    requires l == i + 1 && r == l + cells[i].left.Count()
    requires cells[i].left.Node? ==>
      l < |cells| && l + cells[l].Count() <= |cells| && cells[l] == cells[i].left && PricedAll(nodes, cells, width, l)
    requires cells[i].right.Node? ==>
      r < |cells| && r + cells[r].Count() <= |cells| && cells[r] == cells[i].right && PricedAll(nodes, cells, width, r)
    ensures PricedBelow(nodes, cells, width, i)
  {
  }

  /** Storing a price keeps the arena and every price already there. */
  lemma {:induction false} StorePrice(m: seq<PatNode>, n: seq<PatNode>, ps: seq<Prefix>, len: nat, cells: seq<Tree>,
      i: nat)
    requires Cells(m, ps, len, cells) && i < |cells| && WfCells(cells, 8 * len) && i + cells[i].Count() <= |cells|
    requires |n| == |m| && PricedBelow(m, cells, 8 * len, i)
    requires n == m[i := m[i].(dpCost := Cost(cells[i], 8 * len), optimalBranch := Branch(cells[i], 8 * len))]
    ensures Cells(n, ps, len, cells) && PricedAll(n, cells, 8 * len, i) && KeepsPrices(m, n, cells, 8 * len)
  {
    CellsFrame(m, n, ps, len, cells);
    forall k: nat | i < k < i + cells[i].Count()
      ensures PricedCell(n, cells, 8 * len, k)
    {
      assert PricedCell(m, cells, 8 * len, k);
    }
  }

  /** `patricia_dp_compute`: succeeds exactly when the best packing fits the node limit, and then
      leaves the DP cost and the chosen factor in every cell of the subtree. */
  method DpCompute(nodes: array<PatNode>, patIdx: nat, ps: seq<Prefix>, ghost len: nat, keyBits: nat, nodeLimit: nat,
      ghost cells: seq<Tree>) returns (ok: bool)
    requires Cells(nodes[..], ps, len, cells) && patIdx < |cells| && keyBits == 8 * len && nodeLimit >= 1
    requires WfCells(cells, keyBits) && patIdx + cells[patIdx].Count() <= |cells|
    modifies nodes
    ensures Cells(nodes[..], ps, len, cells) && KeepsPrices(old(nodes[..]), nodes[..], cells, keyBits)
    ensures ok <==> Cost(cells[patIdx], keyBits) <= nodeLimit
    ensures ok ==> PricedAll(nodes[..], cells, keyBits, patIdx)
    decreases cells[patIdx].Count()
  {
    ghost var t, n0 := cells[patIdx], nodes[..];
    CellRegions(n0, ps, len, cells, patIdx);
    var left, right := nodes[patIdx].left, nodes[patIdx].right;
    if left.Some? {
      ok := DpCompute(nodes, left.value, ps, len, keyBits, nodeLimit, cells);
      if !ok {
        ChildCheaper(t, keyBits, false);
        return;
      }
    }
    ghost var n1 := nodes[..];
    assert KeepsPrices(n0, n1, cells, keyBits);
    if right.Some? {
      ok := DpCompute(nodes, right.value, ps, len, keyBits, nodeLimit, cells);
      KeepsChain(n0, n1, nodes[..], cells, keyBits);
      if !ok {
        ChildCheaper(t, keyBits, true);
        return;
      }
    }
    ghost var n2 := nodes[..];
    assert KeepsPrices(n0, n2, cells, keyBits) && KeepsPrices(n1, n2, cells, keyBits);
    PricedChildren(n2, cells, keyBits, patIdx, patIdx + 1, patIdx + 1 + t.left.Count());
    ok := StoreChoice(nodes, patIdx, ps, len, keyBits, nodeLimit, cells);
    KeepsChain(n0, n2, nodes[..], cells, keyBits);
  }

  /** The second half of `patricia_dp_compute`: price the cell itself. */
  method StoreChoice(nodes: array<PatNode>, patIdx: nat, ps: seq<Prefix>, ghost len: nat, keyBits: nat, nodeLimit: nat,
      ghost cells: seq<Tree>) returns (ok: bool)
    requires Cells(nodes[..], ps, len, cells) && patIdx < |cells| && keyBits == 8 * len && nodeLimit >= 1
    requires WfCells(cells, keyBits) && patIdx + cells[patIdx].Count() <= |cells|
    requires PricedBelow(nodes[..], cells, keyBits, patIdx)
    modifies nodes
    ensures Cells(nodes[..], ps, len, cells) && KeepsPrices(old(nodes[..]), nodes[..], cells, keyBits)
    ensures ok <==> Cost(cells[patIdx], keyBits) <= nodeLimit
    ensures ok ==> PricedAll(nodes[..], cells, keyBits, patIdx)
  {
    ghost var t, before := cells[patIdx], nodes[..];
    CellData(nodes[..], ps, len, cells, patIdx);
    if nodes[patIdx].left.None? && nodes[patIdx].right.None? {
      nodes[patIdx] := nodes[patIdx].(dpCost := 1, optimalBranch := 0);
      StorePrice(before, nodes[..], ps, len, cells, patIdx);
      return true;
    }
    var remainingBits := keyBits - nodes[patIdx].bitPosition;
    var maxBranch := if remainingBits < MAX_BRANCH then remainingBits else MAX_BRANCH;
    InteriorBranch(t, keyBits);
    var bestValid, bestCost, bestBranch := ChooseBranch(nodes, patIdx, ps, len, maxBranch, nodeLimit, cells);
    if !bestValid {
      return false;
    }
    nodes[patIdx] := nodes[patIdx].(dpCost := bestCost, optimalBranch := bestBranch);
    StorePrice(before, nodes[..], ps, len, cells, patIdx);
    return true;
  }
}
