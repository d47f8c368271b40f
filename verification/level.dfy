/** Which subtree a child slot reaches, what the packed form costs, and the best branch factor. */
module LevelCompression {
  // All on values; `pack.dfy` and `dp.dfy` refine it.
  import opened BitStrings
  import opened Patricia

  const MAX_BRANCH := 8

  // ----- Slot targets -----

  /** The subtree reached from node `t` by the bit pattern `pat`, or `Empty` for a dead slot. */
  function Target(t: Tree, pat: Bits): Tree
    requires t.Node? && |pat| >= 1
  {
    var c := t.Child(pat[0]);
    if c.Empty? then Empty else Step(c, |t.path| + 1, pat[1..])
  }

  /** Continue from child `c`, with `pos` bits already tested, along the rest of the pattern. */
  function Step(c: Tree, pos: nat, rest: Bits): Tree
    requires c.Node?
    decreases |rest|
  {
    if rest == [] then c
    else if pos < |c.path| then
      if rest[0] != c.path[pos] then Empty else Step(c, pos + 1, rest[1..])
    else
      // A leaf, or a node with no child on this side, answers for the slot if it stores a prefix.
      var d := c.Child(rest[0]);
      if d.Node? then Step(d, pos + 1, rest[1..])
      else if c.pfx.Some? then c
      else Empty
  }

  lemma {:induction false} StepSize(c: Tree, pos: nat, rest: Bits)
    requires c.Node?
    ensures Step(c, pos, rest).Count() <= c.Count()
    decreases |rest|
  {
    if rest == [] {
    } else if pos < |c.path| {
      StepSize(c, pos + 1, rest[1..]);
    } else {
      var d := c.Child(rest[0]);
      if d.Node? {
        StepSize(d, pos + 1, rest[1..]);
      }
    }
  }

  lemma {:induction false} TargetSize(t: Tree, pat: Bits)
    requires t.Node? && |pat| >= 1
    ensures Target(t, pat).Count() < t.Count()
  {
    if t.Child(pat[0]).Node? {
      StepSize(t.Child(pat[0]), |t.path| + 1, pat[1..]);
    }
  }

  lemma {:induction false} StepWf(c: Tree, width: nat, pos: nat, rest: Bits)
    requires c.Node? && Wf(c, width)
    ensures Wf(Step(c, pos, rest), width)
    decreases |rest|
  {
    if rest == [] {
    } else if pos < |c.path| {
      StepWf(c, width, pos + 1, rest[1..]);
    } else if c.Child(rest[0]).Node? {
      StepWf(c.Child(rest[0]), width, pos + 1, rest[1..]);
    }
  }

  /** The subtree behind slot number `slot` when `t` branches on `b` bits. */
  function SlotTarget(t: Tree, width: nat, b: nat, slot: nat): (r: Tree)
    requires t.Node? && Wf(t, width) && b >= 1
    ensures Wf(r, width) && r.Count() < t.Count()
  {
    var pat := ToBits(slot, b);
    TargetSize(t, pat);
    TargetWf(t, width, pat);
    Target(t, pat)
  }

  lemma {:induction false} TargetWf(t: Tree, width: nat, pat: Bits)
    requires t.Node? && Wf(t, width) && |pat| >= 1
    ensures Wf(Target(t, pat), width)
  {
    if t.Child(pat[0]).Node? {
      StepWf(t.Child(pat[0]), width, |t.path| + 1, pat[1..]);
    }
  }

  // ----- Packed cost and the choice of branch factor -----

  /** Largest admissible branch factor at an interior node. */
  function MaxBranch(t: Tree, width: nat): nat
    requires t.Node? && |t.path| <= width
  {
    if width - |t.path| < MAX_BRANCH then width - |t.path| else MAX_BRANCH
  }

  lemma {:induction false} InteriorBranch(t: Tree, width: nat)
    requires t.Node? && Wf(t, width) && !t.Leaf()
    ensures MaxBranch(t, width) >= 1
  {
  }

  /** Fewest packed nodes for `t`: one for a leaf or a dead slot, else the best branch factor. */
  function Cost(t: Tree, width: nat): (c: nat)
    requires Wf(t, width)
    ensures c >= 1
    decreases t.Count(), 3, 0, 0
  {
    if t.Empty? || t.Leaf() then 1
    else InteriorBranch(t, width); BestUpTo(t, width, MaxBranch(t, width)).0
  }

  /** Branch factor chosen at `t`; 0 at a leaf. */
  function Branch(t: Tree, width: nat): nat
    requires t.Node? && Wf(t, width)
  {
    if t.Leaf() then 0
    else InteriorBranch(t, width); BestUpTo(t, width, MaxBranch(t, width)).1
  }

  /** Cheapest factor among `1..b`, a later (larger) one winning ties. */
  function BestUpTo(t: Tree, width: nat, b: nat): (r: (nat, nat))
    requires t.Node? && Wf(t, width) && b >= 1
    ensures r.0 >= 1 && 1 <= r.1 <= b
    decreases t.Count(), 2, b, 0
  {
    var c := CostWith(t, width, b);
    if b == 1 then (c, 1)
    else
      var r := BestUpTo(t, width, b - 1);
      if c <= r.0 then (c, b) else r
  }

  /** Packed nodes for `t` when its root branches on `b` bits. */
  function CostWith(t: Tree, width: nat, b: nat): (c: nat)
    requires t.Node? && Wf(t, width) && b >= 1
    ensures c >= 1
    decreases t.Count(), 1, 0, 0
  {
    1 + SlotSum(t, width, b, Pow2(b))
  }

  /** Packed nodes under slots `0..n`. */
  function SlotSum(t: Tree, width: nat, b: nat, n: nat): (c: nat)
    requires t.Node? && Wf(t, width) && b >= 1
    ensures c >= n
    decreases t.Count(), 0, n, 0
  {
    if n == 0 then 0
    else
      SlotSum(t, width, b, n - 1) + Cost(SlotTarget(t, width, b, n - 1), width)
  }

  lemma {:induction false} BestUpToIsMin(t: Tree, width: nat, b: nat, k: nat)
    requires t.Node? && Wf(t, width) && 1 <= k <= b
    ensures BestUpTo(t, width, b).0 <= CostWith(t, width, k)
    ensures BestUpTo(t, width, b).0 == CostWith(t, width, k) ==> k <= BestUpTo(t, width, b).1
    ensures BestUpTo(t, width, b).0 == CostWith(t, width, BestUpTo(t, width, b).1)
  {
    if b > 1 {
      if k < b {
        BestUpToIsMin(t, width, b - 1, k);
      } else {
        BestUpToIsMin(t, width, b - 1, 1);
      }
    }
  }

  lemma {:induction false} OneBitTarget(t: Tree, width: nat, bit: bool)
    requires t.Node? && Wf(t, width)
    ensures SlotTarget(t, width, 1, if bit then 1 else 0) == t.Child(bit)
  {
    assert ToBits(if bit then 1 else 0, 1) == [bit];
  }

  /** A packed trie has at most `2n - 1` nodes for `n` stored prefixes: branching bit by bit needs no more. */
  lemma {:induction false} CostBound(t: Tree, width: nat)
    requires t.Node? && Wf(t, width)
    ensures Cost(t, width) <= 2 * Stored(t) - 1
    decreases t
  {
    if !t.Leaf() {
      InteriorBranch(t, width);
      BestUpToIsMin(t, width, MaxBranch(t, width), 1);
      OneBitTarget(t, width, false);
      OneBitTarget(t, width, true);
      assert Pow2(1) == 2;
      assert CostWith(t, width, 1) == 1 + Cost(t.left, width) + Cost(t.right, width) by {
        assert SlotSum(t, width, 1, 2) == SlotSum(t, width, 1, 1) + Cost(t.right, width);
        assert SlotSum(t, width, 1, 1) == SlotSum(t, width, 1, 0) + Cost(t.left, width);
      }
      if t.left.Node? { CostBound(t.left, width); }
      if t.right.Node? { CostBound(t.right, width); }
    }
  }

  // ----- Every packing, and the optimality of the chosen one -----

  /** The shape of a packed subtree: a dead leaf, or a node with its branch factor and its slots. */
  datatype Layout = Dead | Packed(branch: nat, slots: seq<Layout>) {
    function Size(): nat { if Dead? then 1 else 1 + Sizes(slots) }
  }

  function Sizes(ls: seq<Layout>): nat {
    if ls == [] then 0 else Sizes(ls[..|ls| - 1]) + ls[|ls| - 1].Size()
  }

  /** `l` packs `t`: any admissible branch factor at each node, independently at each duplicate. */
  ghost predicate Packs(l: Layout, t: Tree, width: nat)
    requires Wf(t, width)
    decreases t.Count(), 1
  {
    if t.Empty? then l.Dead?
    else if t.Leaf() then l == Packed(0, [])
    else
      && l.Packed?
      && 1 <= l.branch <= MaxBranch(t, width)
      && |l.slots| == Pow2(l.branch)
      && SlotsPack(l.slots, t, width, l.branch)
  }

  ghost predicate SlotsPack(ls: seq<Layout>, t: Tree, width: nat, b: nat)
    requires t.Node? && Wf(t, width) && b >= 1
    decreases t.Count(), 0
  {
    forall s :: 0 <= s < |ls| ==> Packs(ls[s], SlotTarget(t, width, b, s), width)
  }

  /** No assignment of branch factors packs a trie into fewer nodes than its DP cost. */
  lemma {:induction false} CostIsLeast(l: Layout, t: Tree, width: nat)
    requires Wf(t, width) && Packs(l, t, width)
    ensures Cost(t, width) <= l.Size()
    decreases t.Count(), 1, 0
  {
    if t.Node? && !t.Leaf() {
      SlotsAtLeast(l.slots, t, width, l.branch, |l.slots|);
      assert l.slots[..|l.slots|] == l.slots;
      BestUpToIsMin(t, width, MaxBranch(t, width), l.branch);
    }
  }

  lemma {:induction false} SizesSnoc(ls: seq<Layout>, n: nat)
    requires n < |ls|
    ensures Sizes(ls[..n + 1]) == Sizes(ls[..n]) + ls[n].Size()
  {
    assert ls[..n + 1][..n] == ls[..n];
  }

  lemma {:induction false} SlotsAtLeast(ls: seq<Layout>, t: Tree, width: nat, b: nat, n: nat)
    requires t.Node? && Wf(t, width) && b >= 1 && SlotsPack(ls, t, width, b) && n <= |ls|
    ensures SlotSum(t, width, b, n) <= Sizes(ls[..n])
    decreases t.Count(), 0, n
  {
    if n > 0 {
      SlotsAtLeast(ls, t, width, b, n - 1);
      SizesSnoc(ls, n - 1);
      CostIsLeast(ls[n - 1], SlotTarget(t, width, b, n - 1), width);
    }
  }

  /** The packing that follows the chosen branch factors. */
  function Chosen(t: Tree, width: nat): Layout
    requires Wf(t, width)
    decreases t.Count(), 1, 0
  {
    if t.Empty? then Dead
    else if t.Leaf() then Packed(0, [])
    else InteriorBranch(t, width); Packed(Branch(t, width),
      ChosenSlots(t, width, Branch(t, width), Pow2(Branch(t, width))))
  }

  function ChosenSlots(t: Tree, width: nat, b: nat, n: nat): (ls: seq<Layout>)
    requires t.Node? && Wf(t, width) && b >= 1
    ensures |ls| == n
    decreases t.Count(), 0, n
  {
    if n == 0 then []
    else ChosenSlots(t, width, b, n - 1) + [Chosen(SlotTarget(t, width, b, n - 1), width)]
  }

  lemma {:induction false} ChosenSlotAt(t: Tree, width: nat, b: nat, n: nat, s: nat)
    requires t.Node? && Wf(t, width) && b >= 1 && s < n
    ensures ChosenSlots(t, width, b, n)[s] == Chosen(SlotTarget(t, width, b, s), width)
  {
    if s < n - 1 {
      ChosenSlotAt(t, width, b, n - 1, s);
    }
  }

  lemma {:induction false} SumOfSizes(ls: seq<Layout>, t: Tree, width: nat, b: nat, n: nat)
    requires t.Node? && Wf(t, width) && b >= 1 && n <= |ls|
    requires forall s :: 0 <= s < n ==> HasLeastSize(ls[s], SlotTarget(t, width, b, s), width)
    ensures Sizes(ls[..n]) == SlotSum(t, width, b, n)
    decreases n
  {
    if n > 0 {
      SumOfSizes(ls, t, width, b, n - 1);
      AddSlot(ls, t, width, b, n - 1);
    }
  }

  lemma {:induction false} AddSlot(ls: seq<Layout>, t: Tree, width: nat, b: nat, n: nat)
    requires t.Node? && Wf(t, width) && b >= 1 && n < |ls|
    requires HasLeastSize(ls[n], SlotTarget(t, width, b, n), width) && Sizes(ls[..n]) == SlotSum(t, width, b, n)
    ensures Sizes(ls[..n + 1]) == SlotSum(t, width, b, n + 1)
  {
    SizesSnoc(ls, n);
  }

  ghost predicate HasLeastSize(l: Layout, t: Tree, width: nat)
    requires Wf(t, width)
  {
    l.Size() == Cost(t, width)
  }

  /** The DP cost is attained: the chosen factors give a packing of exactly that size. */
  lemma {:induction false} CostIsAttained(t: Tree, width: nat)
    requires Wf(t, width)
    ensures Packs(Chosen(t, width), t, width) && HasLeastSize(Chosen(t, width), t, width)
    decreases t.Count()
  {
    if t.Node? && !t.Leaf() {
      InteriorBranch(t, width);
      var b := Branch(t, width);
      BestUpToIsMin(t, width, MaxBranch(t, width), b);
      var ls := ChosenSlots(t, width, b, Pow2(b));
      forall s | 0 <= s < |ls|
        ensures HasLeastSize(ls[s], SlotTarget(t, width, b, s), width)
        ensures Packs(ls[s], SlotTarget(t, width, b, s), width)
      {
        ChosenSlotAt(t, width, b, Pow2(b), s);
        CostIsAttained(SlotTarget(t, width, b, s), width);
      }
      SumOfSizes(ls, t, width, b, |ls|);
      assert ls[..|ls|] == ls;
    }
  }
}
