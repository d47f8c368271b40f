/** What a walk over the packed trie finds, against one-bit descent. */
module CompressedLookup {
  // A slot of a compressed node steps through Patricia nodes without looking at their prefixes, so
  // level compression can lose a match. `LossFree` is the exact condition under which it never does.
  import opened BitStrings
  import opened Patricia
  import opened LevelCompression

  lemma {:induction false} BranchFits(t: Tree, width: nat)
    requires t.Node? && Wf(t, width) && !t.Leaf()
    ensures 1 <= Branch(t, width) <= MAX_BRANCH && |t.path| + Branch(t, width) <= width
  {
    InteriorBranch(t, width);
  }

  /** The subtree the packed walk moves to from `t`. */
  function Next(t: Tree, width: nat, a: Bits): (r: Tree)
    requires t.Node? && Wf(t, width) && !t.Leaf() && |a| == width
    ensures Wf(r, width) && r.Count() < t.Count()
  {
    BranchFits(t, width);
    SlotTarget(t, width, Branch(t, width), Val(a[|t.path|..|t.path| + Branch(t, width)]))
  }

  /** The match the packed walk records from `t` on: the deepest visited node that contains `a`.
      A target above its own depth is visited, but its wrapped skip ends the walk there. */
  function Found(t: Tree, width: nat, a: Bits): Option<Bits>
    requires Wf(t, width) && |a| == width
    decreases t.Count()
  {
    if t.Empty? then None
    else
      var below := if t.Leaf() then None else FoundBelow(t, width, a);
      if below.Some? then below else Own(t, a)
  }

  function FoundBelow(t: Tree, width: nat, a: Bits): Option<Bits>
    requires t.Node? && Wf(t, width) && !t.Leaf() && |a| == width
    decreases t.Count(), 0
  {
    var u := Next(t, width, a);
    if u.Node? && |u.path| < |t.path| + Branch(t, width) then Own(u, a) else Found(u, width, a)
  }

  // ----- Which slots lose a match -----

  /** The pattern steps through a prefix-bearing node and goes on past it. */
  predicate StepsPast(c: Tree, pos: nat, rest: Bits)
    requires c.Node?
    decreases |rest|
  {
    rest != [] &&
    if pos < |c.path| then rest[0] == c.path[pos] && StepsPast(c, pos + 1, rest[1..])
    else
      var d := c.Child(rest[0]);
      d.Node? && (c.pfx.Some? || StepsPast(d, pos + 1, rest[1..]))
  }

  predicate Skips(t: Tree, pat: Bits)
    requires t.Node? && |pat| >= 1
  {
    var c := t.Child(pat[0]);
    c.Node? && StepsPast(c, |t.path| + 1, pat[1..])
  }

  /** Every address that agrees with `c.path` on its first `pos` bits matches in `c`. */
  predicate Full(c: Tree, pos: nat) {
    c.Node? && |c.path| == pos && (c.pfx.Some? || (Full(c.left, pos + 1) && Full(c.right, pos + 1)))
  }

  /** Slot `s` of `t` hides no match: either nothing is stepped past, or the slot falls back on a
      covering node, or the subtree behind the slot matches every address of the slot. */
  predicate SlotSafe(t: Tree, width: nat, b: nat, s: nat)
    requires t.Node? && Wf(t, width) && b >= 1
  {
    var u := SlotTarget(t, width, b, s);
    Skips(t, ToBits(s, b)) ==> u.Node? && (|u.path| < |t.path| + b || Full(u, |t.path| + b))
  }

  /** A check on the built trie: no slot the walk can take hides a match. */
  predicate LossFree(t: Tree, width: nat)
    requires Wf(t, width)
    decreases t.Count(), 1
  {
    t.Empty? || t.Leaf() ||
    (BranchFits(t, width);
     var b := Branch(t, width);
     forall s: nat :: s < Pow2(b) ==> SlotLossFree(t, width, b, s))
  }

  predicate SlotLossFree(t: Tree, width: nat, b: nat, s: nat)
    requires t.Node? && Wf(t, width) && b >= 1
    decreases t.Count(), 0
  {
    var u := SlotTarget(t, width, b, s);
    SlotSafe(t, width, b, s) && (u.Node? && |u.path| >= |t.path| + b ==> LossFree(u, width))
  }

  lemma {:induction false} FullMatches(c: Tree, width: nat, pos: nat, a: Bits)
    requires Wf(c, width) && Full(c, pos) && |a| == width && c.path <= a
    ensures Best(c, a).Some?
  {
    if c.pfx.None? {
      var d := c.Child(a[pos]);
      assert d.path == c.path + [a[pos]];
      FullMatches(d, width, pos + 1, a);
    }
  }

  /** If `c` does not cover every address below its first `pos` bits, here is one it misses. */
  lemma {:induction false} NotFullMisses(c: Tree, width: nat, pos: nat) returns (a: Bits)
    requires c.Node? && Wf(c, width) && pos <= |c.path| && !Full(c, pos)
    ensures |a| == width && c.path[..pos] <= a && Best(c, a).None?
  {
    if pos < |c.path| {
      a := c.path[..pos] + [!c.path[pos]] + seq(width - pos - 1, _ => false);
      OffPath(c, width, a, pos);
    } else {
      var bit := Full(c.left, pos + 1);
      var d := c.Child(bit);
      assert c.path + [bit] <= d.path;
      a := NotFullMisses(d, width, pos + 1);
      assert d.path[..pos + 1] == c.path + [bit];
      assert a[pos] == (c.path + [bit])[pos];
    }
  }

  /** An address that leaves the path of `c` matches nothing in `c`. */
  lemma {:induction false} OffPath(c: Tree, width: nat, a: Bits, pos: nat)
    requires Wf(c, width) && c.Node? && pos < |c.path| && pos < |a| && a[pos] != c.path[pos]
    ensures Best(c, a).None?
  {
    BestIsLongest(c, width, a);
    if Best(c, a).Some? {
      HeldKeyBelow(c, width, Best(c, a).value);
    }
  }

  /** How the slot target `u` at `depth` answers for the subtree whose best match is `below`. */
  ghost predicate Answers(u: Tree, below: Option<Bits>, skips: bool, depth: nat, a: Bits) {
    if u.Empty? then below.Some? <==> skips
    else if |u.path| < depth then below == Some(u.path) == Own(u, a)
    else
      && u.path[..depth] <= a
      && if Best(u, a).Some? then below == Best(u, a) else below.Some? <==> skips
  }

  /** One slot, one address of that slot: what one-bit descent finds below `c` against the target. */
  lemma {:induction false} StepBest(c: Tree, width: nat, pos: nat, rest: Bits, a: Bits)
    requires c.Node? && Wf(c, width) && |a| == width && pos <= |c.path| && c.path[..pos] <= a
    requires pos + |rest| <= width && a[pos..pos + |rest|] == rest
    ensures Answers(Step(c, pos, rest), Best(c, a), StepsPast(c, pos, rest), pos + |rest|, a)
    decreases |rest|
  {
    if rest != [] {
      assert rest[0] == a[pos];
      assert a[pos + 1..pos + 1 + |rest[1..]|] == rest[1..];
      if pos < |c.path| {
        if rest[0] == c.path[pos] {
          assert c.path[..pos + 1] == c.path[..pos] + [a[pos]];
          StepBest(c, width, pos + 1, rest[1..], a);
        } else {
          OffPath(c, width, a, pos);
        }
      } else {
        assert c.path == c.path[..pos];
        StepBestAt(c, width, rest, a);
      }
    }
  }

  /** The step from a node into its child, whose prefix (if any) is then behind. */
  lemma {:induction false} StepBestAt(c: Tree, width: nat, rest: Bits, a: Bits)
    requires c.Node? && Wf(c, width) && |a| == width && c.path <= a && rest != []
    requires var pos := |c.path|; pos + |rest| <= width && a[pos..pos + |rest|] == rest
    ensures Answers(Step(c, |c.path|, rest), Best(c, a), StepsPast(c, |c.path|, rest), |c.path| + |rest|, a)
    decreases |rest|, 0
  {
    var pos := |c.path|;
    assert rest[0] == a[pos];
    assert a[pos + 1..pos + 1 + |rest[1..]|] == rest[1..];
    var d := c.Child(rest[0]);
    if d.Node? {
      assert d.path[..pos + 1] == c.path + [a[pos]];
      StepBest(d, width, pos + 1, rest[1..], a);
    }
  }

  lemma SliceAfter(x: Bits, y: Bits, a: Bits)
    requires x + y <= a
    ensures a[|x|..|x| + |y|] == y && x <= a
  {
    assert a[|x|..|x| + |y|] == (x + y)[|x|..];
  }

  lemma {:induction false} TargetBest(t: Tree, width: nat, pat: Bits, a: Bits)
    requires t.Node? && Wf(t, width) && |a| == width && |pat| >= 1 && t.path + pat <= a
    ensures Answers(Target(t, pat), Best(t.Child(pat[0]), a), Skips(t, pat), |t.path| + |pat|, a)
    ensures pat[0] == a[|t.path|]
  {
    var c := t.Child(pat[0]);
    SliceAfter(t.path, pat, a);
    SliceAfter(t.path + [pat[0]], pat[1..], a);
    assert t.path + [pat[0]] + pat[1..] == t.path + pat;
    if c.Node? {
      assert c.path[..|t.path| + 1] == t.path + [pat[0]];
      StepBest(c, width, |t.path| + 1, pat[1..], a);
    }
  }

  lemma {:induction false} StepPath(c: Tree, width: nat, pos: nat, rest: Bits)
    requires c.Node? && Wf(c, width) && pos <= |c.path|
    ensures var u := Step(c, pos, rest);
      u.Node? && |u.path| >= pos + |rest| ==> c.path[..pos] + rest <= u.path
    decreases |rest|
  {
    if rest == [] {
    } else if pos < |c.path| {
      StepPath(c, width, pos + 1, rest[1..]);
      if rest[0] == c.path[pos] {
        assert c.path[..pos + 1] + rest[1..] == c.path[..pos] + rest;
      }
    } else {
      var d := c.Child(rest[0]);
      if d.Node? {
        StepPath(d, width, pos + 1, rest[1..]);
        assert d.path[..pos + 1] == c.path[..pos] + [rest[0]];
        assert d.path[..pos + 1] + rest[1..] == c.path[..pos] + rest;
      }
    }
  }

  lemma {:induction false} TargetPath(t: Tree, width: nat, pat: Bits)
    requires t.Node? && Wf(t, width) && |pat| >= 1
    ensures var u := Target(t, pat);
      u.Node? && |u.path| >= |t.path| + |pat| ==> t.path + pat <= u.path
  {
    var c := t.Child(pat[0]);
    if c.Node? {
      StepPath(c, width, |t.path| + 1, pat[1..]);
      assert c.path[..|t.path| + 1] + pat[1..] == t.path + pat;
    }
  }

  lemma {:induction false} StepHeld(c: Tree, pos: nat, rest: Bits, key: Bits)
    requires c.Node?
    ensures HeldKey(Step(c, pos, rest), key) ==> HeldKey(c, key)
    decreases |rest|
  {
    if rest == [] {
    } else if pos < |c.path| {
      StepHeld(c, pos + 1, rest[1..], key);
    } else if c.Child(rest[0]).Node? {
      StepHeld(c.Child(rest[0]), pos + 1, rest[1..], key);
    }
  }

  lemma {:induction false} NextHeld(t: Tree, width: nat, a: Bits, key: Bits)
    requires t.Node? && Wf(t, width) && !t.Leaf() && |a| == width
    requires HeldKey(Next(t, width, a), key)
    ensures HeldKey(t, key)
  {
    BranchFits(t, width);
    var b := Branch(t, width);
    var pat := ToBits(Val(a[|t.path|..|t.path| + b]), b);
    StepHeld(t.Child(pat[0]), |t.path| + 1, pat[1..], key);
  }

  /** Whatever the packed walk records is a stored key that contains the address. */
  lemma {:induction false} FoundSound(t: Tree, width: nat, a: Bits)
    requires Wf(t, width) && |a| == width
    ensures Found(t, width, a).Some? ==> HeldKey(t, Found(t, width, a).value) && Found(t, width, a).value <= a
    decreases t.Count()
  {
    if t.Node? && !t.Leaf() && FoundBelow(t, width, a).Some? {
      FoundSound(Next(t, width, a), width, a);
      NextHeld(t, width, a, FoundBelow(t, width, a).value);
    }
  }

  lemma {:induction false} FoundWithinBest(t: Tree, width: nat, a: Bits)
    requires Wf(t, width) && |a| == width
    ensures Found(t, width, a).Some? ==> Best(t, a).Some?
  {
    FoundSound(t, width, a);
    BestIsLongest(t, width, a);
  }

  /** The walk takes slot `s` for the addresses of that slot. */
  lemma {:induction false} NextIsSlot(t: Tree, width: nat, s: nat, a: Bits)
    requires t.Node? && Wf(t, width) && !t.Leaf() && |a| == width
    requires s < Pow2(Branch(t, width)) && t.path + ToBits(s, Branch(t, width)) <= a
    ensures Branch(t, width) >= 1 && Next(t, width, a) == SlotTarget(t, width, Branch(t, width), s)
  {
    BranchFits(t, width);
    var b := Branch(t, width);
    SliceAfter(t.path, ToBits(s, b), a);
    ValOfToBits(s, b);
  }

  /** `TargetBest` for the slot the walk takes at `t`. */
  lemma {:induction false} WalkBest(t: Tree, width: nat, s: nat, a: Bits)
    requires t.Node? && Wf(t, width) && !t.Leaf() && |a| == width && |t.path| < width
    requires s < Pow2(Branch(t, width)) && t.path + ToBits(s, Branch(t, width)) <= a
    ensures var b := Branch(t, width);
      && b >= 1
      && Next(t, width, a) == SlotTarget(t, width, b, s)
      && Answers(Next(t, width, a), Best(t.Child(a[|t.path|]), a), Skips(t, ToBits(s, b)), |t.path| + b, a)
  {
    NextIsSlot(t, width, s, a);
    TargetBest(t, width, ToBits(s, Branch(t, width)), a);
  }

  lemma {:induction false} OffPathFinds(t: Tree, width: nat, a: Bits)
    requires t.Node? && Wf(t, width) && |a| == width && !(t.path <= a)
    ensures Found(t, width, a).None? && Best(t, a).None?
  {
    FoundSound(t, width, a);
    BestIsLongest(t, width, a);
    forall key | HeldKey(t, key)
      ensures t.path <= key
    {
      HeldKeyBelow(t, width, key);
    }
  }

  /** Without losses the packed walk is longest-prefix match. */
  lemma {:induction false} LossFreeIsExact(t: Tree, width: nat, a: Bits)
    requires Wf(t, width) && |a| == width && LossFree(t, width)
    ensures Found(t, width, a) == Best(t, a)
    decreases t.Count()
  {
    if t.Node? && !(t.path <= a) {
      OffPathFinds(t, width, a);
    } else if t.Node? && !t.Leaf() {
      var s := SafeSlot(t, width, a);
      WalkBest(t, width, s, a);
      var u, depth := Next(t, width, a), |t.path| + Branch(t, width);
      assert u == SlotTarget(t, width, Branch(t, width), s);
      assert FoundBelow(t, width, a) == if u.Node? && |u.path| < depth then Own(u, a) else Found(u, width, a);
      if u.Node? && |u.path| >= depth {
        LossFreeIsExact(u, width, a);
        if Full(u, depth) {
          FullSlotMatches(u, width, depth, a);
        }
      }
      NothingLost(u, Best(t.Child(a[|t.path|]), a), FoundBelow(t, width, a), Skips(t, ToBits(s, Branch(t, width))),
        depth, a);
    }
  }

  lemma {:induction false} FullSlotMatches(u: Tree, width: nat, depth: nat, a: Bits)
    requires Wf(u, width) && |a| == width && Full(u, depth) && u.path[..depth] <= a
    ensures Best(u, a).Some?
  {
    assert u.path == u.path[..depth];
    FullMatches(u, width, depth, a);
  }

  /** A slot target that answers for its subtree, with nothing hidden, gives the subtree's best match. */
  lemma {:induction false} NothingLost(u: Tree, below: Option<Bits>, found: Option<Bits>, skips: bool, depth: nat,
      a: Bits)
    requires Answers(u, below, skips, depth, a)
    requires skips ==> u.Node? && (|u.path| < depth || Best(u, a).Some?)
    requires found == if u.Node? && |u.path| < depth then Own(u, a) else Best(u, a)
    ensures found == below
  {
  }

  /** In a loss-free trie the slot of `a` is safe, and so is the subtree behind it. */
  lemma SafeSlot(t: Tree, width: nat, a: Bits) returns (s: nat)
    requires t.Node? && Wf(t, width) && !t.Leaf() && |a| == width && LossFree(t, width) && t.path <= a
    ensures 1 <= Branch(t, width) && |t.path| < width
    ensures s < Pow2(Branch(t, width)) && t.path + ToBits(s, Branch(t, width)) <= a
    ensures SlotSafe(t, width, Branch(t, width), s)
    ensures var u := SlotTarget(t, width, Branch(t, width), s);
      u.Node? && |u.path| >= |t.path| + Branch(t, width) ==> LossFree(u, width)
  {
    BranchFits(t, width);
    s := SlotOnPath(t.path, a, Branch(t, width));
    EverySlot(t, width, s);
  }

  lemma {:induction false} SlotOnPath(path: Bits, a: Bits, b: nat) returns (s: nat)
    requires path <= a && |path| + b <= |a|
    ensures s < Pow2(b) && path + ToBits(s, b) <= a
  {
    var pat := a[|path|..|path| + b];
    s := Val(pat);
    ToBitsOfVal(pat);
  }

  lemma {:induction false} EverySlot(t: Tree, width: nat, s: nat)
    requires t.Node? && Wf(t, width) && !t.Leaf() && LossFree(t, width) && 1 <= Branch(t, width)
    requires s < Pow2(Branch(t, width))
    ensures SlotSafe(t, width, Branch(t, width), s)
    ensures var u := SlotTarget(t, width, Branch(t, width), s);
      u.Node? && |u.path| >= |t.path| + Branch(t, width) ==> LossFree(u, width)
  {
    assert SlotLossFree(t, width, Branch(t, width), s);
  }

  // ----- One address at a time -----

  /** On the way of `a`, every slot that steps past a stored prefix falls back on a covering node or has a
      match for `a` behind it. */
  predicate WalkSafe(t: Tree, width: nat, a: Bits)
    requires Wf(t, width) && |a| == width
    decreases t.Count()
  {
    t.Empty? || t.Leaf() || !(t.path <= a) ||
    (BranchFits(t, width);
     var b, u := Branch(t, width), Next(t, width, a);
     && (Skips(t, a[|t.path|..|t.path| + b]) ==> u.Node? && (|u.path| < |t.path| + b || Best(u, a).Some?))
     && (u.Node? && |u.path| >= |t.path| + b ==> WalkSafe(u, width, a)))
  }

  /** What is found below `t` is right exactly if nothing is hidden there and the rest of the walk is right. */
  lemma {:induction false} SlotIsRight(u: Tree, below: Option<Bits>, found: Option<Bits>, rest: Option<Bits>,
      skips: bool, depth: nat, a: Bits)
    requires Answers(u, below, skips, depth, a) && (Best(u, a).None? ==> rest.None?)
    requires found == if u.Node? && |u.path| < depth then Own(u, a) else rest
    ensures found == below <==>
      && (skips ==> u.Node? && (|u.path| < depth || Best(u, a).Some?))
      && (u.Node? && |u.path| >= depth ==> rest == Best(u, a))
  {
  }

  /** The answer at `t` is right exactly if the answer below it is. */
  lemma {:induction false} RightBelow(t: Tree, width: nat, a: Bits)
    requires t.Node? && Wf(t, width) && !t.Leaf() && |a| == width && |t.path| < width && t.path <= a
    requires FoundBelow(t, width, a).Some? ==> Best(t.Child(a[|t.path|]), a).Some?
    ensures Found(t, width, a) == Best(t, a) <==> FoundBelow(t, width, a) == Best(t.Child(a[|t.path|]), a)
  {
    var c := t.Child(a[|t.path|]);
    if FoundBelow(t, width, a) != Best(c, a) {
      WrongBelow(t, width, a);
    }
  }

  /** One step of the walk, right or wrong. */
  lemma {:induction false} WalkStep(t: Tree, width: nat, a: Bits)
    requires t.Node? && Wf(t, width) && !t.Leaf() && |a| == width && t.path <= a
    ensures 1 <= Branch(t, width) && |t.path| + Branch(t, width) <= width
    ensures var b, u := Branch(t, width), Next(t, width, a);
      Found(t, width, a) == Best(t, a) <==>
        && (Skips(t, a[|t.path|..|t.path| + b]) ==> u.Node? && (|u.path| < |t.path| + b || Best(u, a).Some?))
        && (u.Node? && |u.path| >= |t.path| + b ==> Found(u, width, a) == Best(u, a))
  {
    BranchFits(t, width);
    var b, u, c := Branch(t, width), Next(t, width, a), t.Child(a[|t.path|]);
    var pat := a[|t.path|..|t.path| + b];
    WalkAnswers(t, width, a, b, pat);
    FoundWithinBest(u, width, a);
    SlotIsRight(u, Best(c, a), FoundBelow(t, width, a), Found(u, width, a), Skips(t, pat), |t.path| + b, a);
    BelowWithinBest(u, Best(c, a), FoundBelow(t, width, a), Found(u, width, a), Skips(t, pat), |t.path| + b, a);
    RightBelow(t, width, a);
  }

  /** For every trie and address: the walk finds what one-bit descent finds exactly if it loses nothing on
      its way. */
  lemma {:induction false} WalkIsRightIff(t: Tree, width: nat, a: Bits)
    requires Wf(t, width) && |a| == width
    ensures Found(t, width, a) == Best(t, a) <==> WalkSafe(t, width, a)
    decreases t.Count()
  {
    if t.Node? && !(t.path <= a) {
      OffPathFinds(t, width, a);
    } else if t.Node? && !t.Leaf() {
      WalkStep(t, width, a);
      WalkIsRightIff(Next(t, width, a), width, a);
    }
  }

  lemma {:induction false} BelowWithinBest(u: Tree, below: Option<Bits>, found: Option<Bits>, rest: Option<Bits>,
      skips: bool, depth: nat, a: Bits)
    requires Answers(u, below, skips, depth, a) && (rest.Some? ==> Best(u, a).Some?)
    requires found == if u.Node? && |u.path| < depth then Own(u, a) else rest
    ensures found.Some? ==> below.Some?
  {
  }

  lemma {:induction false} NextIsTarget(t: Tree, width: nat, a: Bits)
    requires t.Node? && Wf(t, width) && !t.Leaf() && |a| == width
    ensures 1 <= Branch(t, width) && |t.path| + Branch(t, width) <= width
    ensures Next(t, width, a) == Target(t, a[|t.path|..|t.path| + Branch(t, width)])
  {
    BranchFits(t, width);
    ToBitsOfVal(a[|t.path|..|t.path| + Branch(t, width)]);
  }

  /** How the walk's next subtree answers for the one-bit descent below `t`. */
  lemma {:induction false} WalkAnswers(t: Tree, width: nat, a: Bits, b: nat, pat: Bits)
    requires t.Node? && Wf(t, width) && !t.Leaf() && |a| == width && t.path <= a
    requires b == Branch(t, width) && 1 <= b && |t.path| + b <= width && pat == a[|t.path|..|t.path| + b]
    ensures Answers(Next(t, width, a), Best(t.Child(a[|t.path|]), a), Skips(t, pat), |t.path| + b, a)
  {
    NextIsTarget(t, width, a);
    assert a[..|t.path| + b] == t.path + pat;
    TargetBest(t, width, pat, a);
  }

  /** A wrong answer below the slot is a wrong answer at `t`. */
  lemma {:induction false} WrongBelow(t: Tree, width: nat, a: Bits)
    requires t.Node? && Wf(t, width) && !t.Leaf() && |a| == width && |t.path| < width
    requires Best(t.Child(a[|t.path|]), a).Some? && FoundBelow(t, width, a) != Best(t.Child(a[|t.path|]), a)
    ensures Found(t, width, a) != Best(t, a)
  {
    var c := t.Child(a[|t.path|]);
    BestIsLongest(c, width, a);
    HeldKeyBelow(c, width, Best(c, a).value);
  }

  /** An unsafe slot has an address whose match is lost. */
  lemma UnsafeSlot(t: Tree, width: nat, s: nat) returns (a: Bits)
    requires t.Node? && Wf(t, width) && !t.Leaf()
    requires s < Pow2(Branch(t, width)) && Branch(t, width) >= 1 && !SlotSafe(t, width, Branch(t, width), s)
    ensures |a| == width && t.path <= a && Found(t, width, a) != Best(t, a)
  {
    BranchFits(t, width);
    var b := Branch(t, width);
    var u := SlotTarget(t, width, b, s);
    var path := t.path + ToBits(s, b);
    if u.Empty? {
      a := path + seq(width - |path|, _ => false);
    } else {
      TargetPath(t, width, ToBits(s, b));
      assert path == u.path[..|path|];
      a := NotFullMisses(u, width, |path|);
      FoundWithinBest(u, width, a);
    }
    WalkBest(t, width, s, a);
    WrongBelow(t, width, a);
  }

  /** With a loss somewhere, some address is answered wrongly. */
  lemma {:induction false} LossIsObservable(t: Tree, width: nat) returns (a: Bits)
    requires Wf(t, width) && !LossFree(t, width)
    ensures |a| == width && t.path <= a && Found(t, width, a) != Best(t, a)
    decreases t.Count()
  {
    BranchFits(t, width);
    var b := Branch(t, width);
    var s: nat :| s < Pow2(b) && !SlotLossFree(t, width, b, s);
    if !SlotSafe(t, width, b, s) {
      a := UnsafeSlot(t, width, s);
    } else {
      var u := SlotTarget(t, width, b, s);
      a := LossIsObservable(u, width);
      TargetPath(t, width, ToBits(s, b));
      FoundWithinBest(u, width, a);
      WalkBest(t, width, s, a);
      WrongBelow(t, width, a);
    }
  }

  /** Exactly when lookup is longest-prefix match on a built trie. */
  lemma {:induction false} LookupIsLongestMatchIff(t: Tree, width: nat)
    requires Wf(t, width)
    ensures LossFree(t, width) <==> forall a | |a| == width :: IsLongest(t, a, Found(t, width, a))
  {
    if LossFree(t, width) {
      forall a | |a| == width
        ensures IsLongest(t, a, Found(t, width, a))
      {
        LossFreeIsExact(t, width, a);
        BestIsLongest(t, width, a);
      }
    } else {
      var a := LossIsObservable(t, width);
      BestIsLongest(t, width, a);
      if IsLongest(t, a, Found(t, width, a)) {
        LongestUnique(t, a, Found(t, width, a), Best(t, a));
      }
    }
  }

  /** No stored key lies strictly inside another one. */
  ghost predicate NoNesting(t: Tree) {
    forall k, l :: HeldKey(t, k) && HeldKey(t, l) && k <= l ==> k == l
  }

  lemma {:induction false} HeldKeySomewhere(t: Tree, width: nat) returns (key: Bits)
    requires t.Node? && Wf(t, width)
    ensures HeldKey(t, key)
  {
    if t.pfx.Some? {
      key := t.path;
    } else {
      key := HeldKeySomewhere(t.left, width);
    }
  }

  lemma {:induction false} NothingToStepPast(t: Tree, c: Tree, width: nat, pos: nat, rest: Bits)
    requires c.Node? && Wf(c, width) && NoNesting(t)
    requires forall k :: HeldKey(c, k) ==> HeldKey(t, k)
    ensures !StepsPast(c, pos, rest)
    decreases |rest|
  {
    if rest != [] {
      if pos < |c.path| {
        NothingToStepPast(t, c, width, pos + 1, rest[1..]);
      } else {
        var d := c.Child(rest[0]);
        if d.Node? {
          var key := HeldKeySomewhere(d, width);
          HeldKeyBelow(d, width, key);
          assert HeldKey(c, key) && c.path <= key && c.path != key;
          assert c.pfx.Some? ==> HeldKey(c, c.path);
          NothingToStepPast(t, d, width, pos + 1, rest[1..]);
        }
      }
    }
  }

  /** A table without nested prefixes never loses a match. */
  lemma {:induction false} NoNestingIsLossFree(root: Tree, t: Tree, width: nat)
    requires Wf(t, width) && NoNesting(root) && forall k :: HeldKey(t, k) ==> HeldKey(root, k)
    ensures LossFree(t, width)
    decreases t.Count()
  {
    if t.Node? && !t.Leaf() {
      BranchFits(t, width);
      var b := Branch(t, width);
      forall s: nat | s < Pow2(b)
        ensures SlotLossFree(t, width, b, s)
      {
        var pat := ToBits(s, b);
        var c := t.Child(pat[0]);
        if c.Node? {
          NothingToStepPast(root, c, width, |t.path| + 1, pat[1..]);
        }
        forall k | HeldKey(SlotTarget(t, width, b, s), k)
          ensures HeldKey(root, k)
        {
          StepHeld(c, |t.path| + 1, pat[1..], k);
        }
        NoNestingIsLossFree(root, SlotTarget(t, width, b, s), width);
      }
    }
  }
}
