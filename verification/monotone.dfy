/** A child is always cheaper to pack than its parent, whatever the parent's branch factor.

So when the DP gives up because a subtree is over the node limit, the whole trie is over it too. */
module CostMonotone {
  import opened BitStrings
  import opened Patricia
  import opened LevelCompression

  lemma {:induction false} SumGrows(t: Tree, width: nat, b: nat, n: nat, k: nat)
    requires t.Node? && Wf(t, width) && b >= 1 && n <= k
    ensures SlotSum(t, width, b, n) + (k - n) <= SlotSum(t, width, b, k)
  {
    if n < k {
      SumGrows(t, width, b, n, k - 1);
    }
  }

  lemma {:induction false} SumHasTerm(t: Tree, width: nat, b: nat, s: nat, k: nat)
    requires t.Node? && Wf(t, width) && b >= 1 && s < k
    ensures Cost(SlotTarget(t, width, b, s), width) <= SlotSum(t, width, b, k)
  {
    SumGrows(t, width, b, s + 1, k);
  }

  /** Slots `base..base + 2^m` of `t` hold exactly what the slots of `c` hold. */
  ghost predicate Block(t: Tree, c: Tree, width: nat, b: nat, base: nat, m: nat)
    requires t.Node? && c.Node? && Wf(t, width) && Wf(c, width) && b >= 1 && m >= 1
  {
    forall n: nat :: n < Pow2(m) ==> SlotTarget(t, width, b, base + n) == SlotTarget(c, width, m, n)
  }

  lemma {:induction false} BlockSum(t: Tree, c: Tree, width: nat, b: nat, base: nat, m: nat, n: nat)
    requires t.Node? && c.Node? && Wf(t, width) && Wf(c, width) && b >= 1 && m >= 1 && n <= Pow2(m)
    requires Block(t, c, width, b, base, m)
    ensures SlotSum(t, width, b, base + n) == SlotSum(t, width, b, base) + SlotSum(c, width, m, n)
  {
    if n > 0 {
      BlockSum(t, c, width, b, base, m, n - 1);
      assert SlotTarget(t, width, b, base + (n - 1)) == SlotTarget(c, width, m, n - 1);
    }
  }

  /** If the block of `c` appears among the slots of `t`, then `t` costs more than `c` so branched. */
  lemma {:induction false} BlockCheaper(t: Tree, c: Tree, width: nat, b: nat, base: nat, m: nat, all: nat, part: nat)
    requires t.Node? && c.Node? && Wf(t, width) && Wf(c, width) && b >= 1 && m >= 1
    requires all == Pow2(b) && part == Pow2(m)
    requires Block(t, c, width, b, base, m) && base + part <= all && part < all
    ensures SlotSum(c, width, m, part) < SlotSum(t, width, b, all)
  {
    BlockSum(t, c, width, b, base, m, part);
    SumGrows(t, width, b, base + part, all);
    assert SlotSum(t, width, b, base) >= base;
  }

  /** Patterns of `t` that start with `q` and then go on like patterns of `c` make up such a block. */
  lemma BlockOf(t: Tree, c: Tree, width: nat, q: Bits, m: nat) returns (base: nat)
    requires t.Node? && c.Node? && Wf(t, width) && Wf(c, width) && q != [] && m >= 1
    requires forall r: Bits | |r| == m :: Target(t, q + r) == Target(c, r)
    ensures Block(t, c, width, |q| + m, base, m)
    ensures base + Pow2(m) <= Pow2(|q| + m) && Pow2(m) < Pow2(|q| + m)
  {
    base := Val(q) * Pow2(m);
    forall n: nat | n < Pow2(m)
      ensures SlotTarget(t, width, |q| + m, base + n) == SlotTarget(c, width, m, n)
    {
      assert Target(t, q + ToBits(n, m)) == Target(c, ToBits(n, m));
      SlotOfBlock(t, c, width, q, m, n);
    }
    Pow2Fits(Val(q), |q|, m);
  }

  lemma {:induction false} SlotOfBlock(t: Tree, c: Tree, width: nat, q: Bits, m: nat, n: nat)
    requires t.Node? && c.Node? && Wf(t, width) && Wf(c, width) && q != [] && m >= 1 && n < Pow2(m)
    requires Target(t, q + ToBits(n, m)) == Target(c, ToBits(n, m))
    ensures SlotTarget(t, width, |q| + m, Val(q) * Pow2(m) + n) == SlotTarget(c, width, m, n)
  {
    PatternAt(q, n, m);
  }

  lemma {:induction false} PatternAt(q: Bits, n: nat, m: nat)
    requires n < Pow2(m)
    ensures ToBits(Val(q) * Pow2(m) + n, |q| + m) == q + ToBits(n, m)
  {
    ToBitsOfVal(q);
    ToBitsSplit(Val(q), n, |q|, m);
  }

  lemma MulMonotone(x: nat, y: nat, z: nat)
    requires x <= y
    ensures x * z <= y * z
  {
  }

  lemma Pow2Fits(x: nat, j: nat, m: nat)
    requires j >= 1 && x < Pow2(j)
    ensures x * Pow2(m) + Pow2(m) <= Pow2(j + m) && Pow2(m) < Pow2(j + m)
  {
    Pow2Adds(j, m);
    MulMonotone(x + 1, Pow2(j), Pow2(m));
    MulMonotone(2, Pow2(j), Pow2(m));
  }

  /** Following a pattern along `c`'s compressed bits, then on from `c` itself. */
  lemma {:induction false} StepAlong(c: Tree, pos: nat, rest: Bits)
    requires c.Node? && pos <= |c.path|
    ensures |rest| <= |c.path| - pos && rest <= c.path[pos..] ==> Step(c, pos, rest) == c
    ensures |rest| > |c.path| - pos && c.path[pos..] <= rest ==>
      Step(c, pos, rest) == Step(c, |c.path|, rest[|c.path| - pos..])
    decreases |rest|
  {
    if rest != [] && pos < |c.path| {
      StepAlong(c, pos + 1, rest[1..]);
      if rest[0] == c.path[pos] {
        assert c.path[pos..] == [c.path[pos]] + c.path[pos + 1..];
        assert rest == [rest[0]] + rest[1..];
        assert |rest| > |c.path| - pos ==> rest[1..][|c.path| - pos - 1..] == rest[|c.path| - pos..];
      }
    }
  }

  /** Some slot of `t` holds `c` itself. */
  lemma {:induction false} SlotHoldsChild(t: Tree, width: nat, b: nat, pat: Bits, c: Tree)
    requires t.Node? && Wf(t, width) && b >= 1 && Wf(c, width)
    requires |pat| == b && Target(t, pat) == c
    ensures Cost(c, width) < CostWith(t, width, b)
  {
    ToBitsOfVal(pat);
    SumHasTerm(t, width, b, Val(pat), Pow2(b));
  }

  /** Packing a child never costs as much as packing its parent. */
  lemma {:induction false} ChildCheaper(t: Tree, width: nat, bit: bool)
    requires t.Node? && Wf(t, width) && t.Child(bit).Node?
    ensures Cost(t.Child(bit), width) < Cost(t, width)
  {
    InteriorBranch(t, width);
    var b := Branch(t, width);
    BestUpToIsMin(t, width, MaxBranch(t, width), b);
    ChildCheaperWith(t, width, bit, b);
  }

  lemma {:induction false} ChildCheaperWith(t: Tree, width: nat, bit: bool, b: nat)
    requires t.Node? && Wf(t, width) && t.Child(bit).Node? && 1 <= b <= MaxBranch(t, width)
    ensures Cost(t.Child(bit), width) < CostWith(t, width, b)
  {
    var c := t.Child(bit);
    assert t.path + [bit] <= c.path;
    var q := [bit] + c.path[|t.path| + 1..];
    if b <= |q| {
      StepAlong(c, |t.path| + 1, q[..b][1..]);
      SlotHoldsChild(t, width, b, q[..b], c);
    } else if c.left.Node? && c.right.Node? {
      BranchingChild(t, width, bit, c, q, b - |q|);
    } else {
      var r: Bits := seq(b - |q|, _ => c.left.Node?);
      StepPastChild(t, bit, c, q, r);
      assert !c.Child(r[0]).Node?;
      SlotHoldsChild(t, width, b, q + r, c);
    }
  }

  lemma BranchingChild(t: Tree, width: nat, bit: bool, c: Tree, q: Bits, m: nat)
    requires t.Node? && Wf(t, width) && t.Child(bit) == c && c.Node? && c.left.Node? && c.right.Node?
    requires Wf(c, width) && t.path + [bit] <= c.path && q == [bit] + c.path[|t.path| + 1..]
    requires 1 <= m <= MaxBranch(c, width)
    ensures Cost(c, width) < CostWith(t, width, |q| + m)
  {
    forall r: Bits | |r| == m
      ensures Target(t, q + r) == Target(c, r)
    {
      StepPastChild(t, bit, c, q, r);
    }
    var base := BlockOf(t, c, width, q, m);
    BlockCheaper(t, c, width, |q| + m, base, m, Pow2(|q| + m), Pow2(m));
    BestUpToIsMin(c, width, MaxBranch(c, width), m);
  }

  lemma {:induction false} StepPastChild(t: Tree, bit: bool, c: Tree, q: Bits, r: Bits)
    requires t.Node? && t.Child(bit) == c && c.Node? && t.path + [bit] <= c.path
    requires q == [bit] + c.path[|t.path| + 1..] && r != []
    ensures Target(t, q + r) == Step(c, |c.path|, r)
  {
    assert (q + r)[1..] == c.path[|t.path| + 1..] + r;
    StepAlong(c, |t.path| + 1, (q + r)[1..]);
    assert (c.path[|t.path| + 1..] + r)[|c.path| - |t.path| - 1..] == r;
  }
}
