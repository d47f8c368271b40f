/** `patricia_subtree_build`: the trie in its node arena. */
module Arena {
  import opened BitStrings
  import opened Bytes
  import opened Prefixes
  import opened Patricia

  /** `cidr_pat_node_t`; `None` stands for the UINT32_MAX sentinels. */
  datatype PatNode = PatNode(
    left: Option<nat>, right: Option<nat>, prefixIdx: Option<nat>, reprIdx: nat,
    dpCost: nat, bitPosition: nat, optimalBranch: nat)

  /** `trie_addr_bit`: one address bit, 0 past the end of the address. */
  function AddrBit(addr: seq<Byte>, pos: nat): (bit: bool)
    ensures pos < 8 * |addr| ==> bit == BitsOf(addr)[pos]
    ensures pos >= 8 * |addr| ==> !bit
  {
    if pos / 8 >= |addr| then false
    else
      BitsOfAt(addr, pos / 8, pos % 8);
      BitAt(addr[pos / 8], pos % 8)
  }

  predicate InRange(ps: seq<Prefix>, i: nat) {
    i < |ps| && ps[i].pfxlen <= 8 * |ps[i].addr|
  }

  ghost predicate InOrder(ps: seq<Prefix>, i: nat, j: nat)
    requires InRange(ps, i) && InRange(ps, j)
  {
    BitsLe(Key(ps[i]), Key(ps[j]))
  }

  /** A table ready for the build: valid prefixes in network order. */
  ghost predicate Table(ps: seq<Prefix>, len: nat) {
    && AllValid(ps, len)
    && forall i: nat, j: nat :: i < j < |ps| ==> InOrder(ps, i, j)
  }

  /** All prefixes of the range share the bits `path`. */
  ghost predicate Share(ps: seq<Prefix>, len: nat, start: nat, end: nat, path: Bits)
    requires Table(ps, len) && end <= |ps|
  {
    forall i :: start <= i < end ==> path <= Key(ps[i])
  }

  /** Index `idx` is the first of the range with this key. */
  ghost predicate FirstAt(ps: seq<Prefix>, len: nat, start: nat, end: nat, key: Bits, idx: nat)
    requires Table(ps, len) && end <= |ps|
  {
    start <= idx < end && Key(ps[idx]) == key && forall j :: start <= j < idx ==> Key(ps[j]) != key
  }

  /** `t` stores the prefixes of the range, each distinct one once, under its first index. */
  ghost predicate Stores(t: Tree, ps: seq<Prefix>, len: nat, start: nat, end: nat)
    requires Table(ps, len) && end <= |ps|
  {
    forall key: Bits, idx: nat :: Holds(t, key, idx) <==> FirstAt(ps, len, start, end, key, idx)
  }

  /** Cell `at` holds the root of `t`; its children follow in preorder. */
  ghost predicate RepNode(n: PatNode, ps: seq<Prefix>, len: nat, at: nat, t: Tree)
    requires Table(ps, len) && t.Node?
  {
    && n.bitPosition == |t.path|
    && n.prefixIdx == t.pfx
    && n.reprIdx < |ps| && t.path <= Key(ps[n.reprIdx])
    && (t.pfx.Some? ==> t.pfx.value < |ps| && Key(ps[t.pfx.value]) == t.path)
    && n.left == (if t.left.Empty? then None else Some(at + 1))
    && n.right == (if t.right.Empty? then None else Some(at + 1 + t.left.Count()))
  }

  /** The arena cells from `at` on hold the nodes of `t` in preorder. */
  ghost predicate Rep(nodes: seq<PatNode>, ps: seq<Prefix>, len: nat, at: nat, t: Tree)
    requires Table(ps, len)
    decreases t
  {
    && t.Node? && at + t.Count() <= |nodes| && RepNode(nodes[at], ps, len, at, t)
    && (t.left.Node? ==> Rep(nodes, ps, len, at + 1, t.left))
    && (t.right.Node? ==> Rep(nodes, ps, len, at + 1 + t.left.Count(), t.right))
  }

  /** The fields the DP leaves alone. */
  predicate SameLinks(m: PatNode, n: PatNode) {
    && m.left == n.left && m.right == n.right && m.prefixIdx == n.prefixIdx
    && m.reprIdx == n.reprIdx && m.bitPosition == n.bitPosition
  }

  lemma {:induction false} RepNodeFrame(m: PatNode, n: PatNode, ps: seq<Prefix>, len: nat, at: nat, t: Tree)
    requires Table(ps, len) && t.Node? && RepNode(m, ps, len, at, t) && SameLinks(n, m)
    ensures RepNode(n, ps, len, at, t)
  {
  }

  lemma {:induction false} RepFrame(m: seq<PatNode>, n: seq<PatNode>, ps: seq<Prefix>, len: nat, at: nat, t: Tree)
    requires Table(ps, len) && Rep(m, ps, len, at, t) && at + t.Count() <= |n|
    requires forall i :: at <= i < at + t.Count() ==> SameLinks(n[i], m[i])
    ensures Rep(n, ps, len, at, t)
    decreases t
  {
    RepNodeFrame(m[at], n[at], ps, len, at, t);
    if t.left.Node? { RepFrame(m, n, ps, len, at + 1, t.left); }
    if t.right.Node? { RepFrame(m, n, ps, len, at + 1 + t.left.Count(), t.right); }
  }

  // ----- The split scan -----

  /** Every prefix of the range reaches bit `p` and agrees with the first one below it. */
  ghost predicate AgreeTo(ps: seq<Prefix>, len: nat, start: nat, end: nat, p: nat)
    requires Table(ps, len) && start < end <= |ps|
  {
    forall i :: start <= i < end ==> p <= ps[i].pfxlen && Key(ps[i])[..p] == BitsOf(ps[start].addr)[..p]
  }

  /** Two prefixes of the range go on past bit `p` with different bits. */
  ghost predicate DivergeAt(ps: seq<Prefix>, len: nat, start: nat, end: nat, p: nat)
    requires Table(ps, len) && end <= |ps|
  {
    exists i, j :: start <= i < end && start <= j < end && p < ps[i].pfxlen && p < ps[j].pfxlen
      && !Key(ps[i])[p] && Key(ps[j])[p]
  }

  /** First inner scan: the lowest index of a prefix that ends at bit `p`. */
  method FindEnding(ps: seq<Prefix>, ghost len: nat, start: nat, end: nat, p: nat) returns (endIdx: Option<nat>)
    requires Table(ps, len) && start < end <= |ps|
    ensures endIdx.Some? ==> start <= endIdx.value < end && ps[endIdx.value].pfxlen == p
    ensures forall i :: start <= i < (if endIdx.Some? then endIdx.value else end) ==> ps[i].pfxlen != p
  {
    endIdx := None;
    for i := start to end
      invariant endIdx.Some? ==> start <= endIdx.value < i && ps[endIdx.value].pfxlen == p
      invariant forall k :: start <= k < (if endIdx.Some? then endIdx.value else i) ==> ps[k].pfxlen != p
    {
      if ps[i].pfxlen == p {
        if endIdx.None? || i < endIdx.value {
          endIdx := Some(i);
        }
      }
    }
  }

  /** Second inner scan: do two prefixes longer than `p` differ at bit `p`? */
  method FindDivergence(ps: seq<Prefix>, ghost len: nat, start: nat, end: nat, p: nat) returns (diverges: bool)
    requires Table(ps, len) && start < end <= |ps| && p < 8 * len
    ensures diverges <==> DivergeAt(ps, len, start, end, p)
  {
    diverges := false;
    var firstVal: Option<bool> := None;
    ghost var first := start;
    for i := start to end
      invariant !diverges
      invariant firstVal.None? ==> forall k :: start <= k < i ==> ps[k].pfxlen <= p
      invariant firstVal.Some? ==> start <= first < i && p < ps[first].pfxlen && Key(ps[first])[p] == firstVal.value
      invariant firstVal.Some? ==> forall k :: start <= k < i && p < ps[k].pfxlen ==> Key(ps[k])[p] == firstVal.value
    {
      if ps[i].pfxlen <= p {
        continue;
      }
      var bit := AddrBit(ps[i].addr, p);
      assert bit == Key(ps[i])[p];
      if firstVal.None? {
        firstVal, first := Some(bit), i;
      } else if bit != firstVal.value {
        assert if bit then !Key(ps[first])[p] && Key(ps[i])[p] else !Key(ps[i])[p] && Key(ps[first])[p];
        return true;
      }
    }
  }

  /** The outer scan: the first bit, from `bitPos` on, where a prefix ends or two diverge. */
  method FindSplit(ps: seq<Prefix>, ghost len: nat, start: nat, end: nat, bitPos: nat, keyBits: nat)
      returns (split: nat, best: Option<nat>, diverges: bool)
    requires Table(ps, len) && start < end <= |ps| && keyBits == 8 * len && bitPos <= keyBits
    requires AgreeTo(ps, len, start, end, bitPos)
    ensures best.Some? || diverges ==> bitPos <= split < keyBits && AgreeTo(ps, len, start, end, split)
    ensures best.Some? ==> start <= best.value < end && ps[best.value].pfxlen == split
    ensures best.Some? || diverges ==>
      forall i :: start <= i < (if best.Some? then best.value else end) ==> ps[i].pfxlen != split
    ensures best.Some? || diverges ==> (diverges <==> DivergeAt(ps, len, start, end, split))
    ensures best.None? && !diverges ==> split == bitPos && AgreeTo(ps, len, start, end, keyBits)
  {
    split := bitPos;
    best := None;
    diverges := false;
    for p := bitPos to keyBits
      invariant split == bitPos && best.None? && !diverges
      invariant AgreeTo(ps, len, start, end, p)
    {
      var endIdx := FindEnding(ps, len, start, end, p);
      diverges := FindDivergence(ps, len, start, end, p);
      if endIdx.Some? || diverges {
        split := p;
        best := endIdx;
        break;
      }
      AgreeStep(ps, len, start, end, p);
    }
  }

  lemma AgreeStep(ps: seq<Prefix>, len: nat, start: nat, end: nat, p: nat)
    requires Table(ps, len) && start < end <= |ps| && p < 8 * len
    requires AgreeTo(ps, len, start, end, p) && !DivergeAt(ps, len, start, end, p)
    requires forall i :: start <= i < end ==> ps[i].pfxlen != p
    ensures AgreeTo(ps, len, start, end, p + 1)
  {
    forall i | start <= i < end
      ensures p + 1 <= ps[i].pfxlen && Key(ps[i])[..p + 1] == BitsOf(ps[start].addr)[..p + 1]
    {
      assert p < ps[start].pfxlen && p < ps[i].pfxlen;
      assert Key(ps[start])[p] == BitsOf(ps[start].addr)[p];
      assert Key(ps[i])[p] == Key(ps[start])[p];
      assert Key(ps[i])[..p + 1] == Key(ps[i])[..p] + [Key(ps[i])[p]];
      assert BitsOf(ps[start].addr)[..p + 1] == BitsOf(ps[start].addr)[..p] + [BitsOf(ps[start].addr)[p]];
    }
  }

  // ----- Cutting a sorted range -----

  /** First prefix of the range longer than `split`, or the end of the range. */
  method FirstExtending(ps: seq<Prefix>, ghost len: nat, start: nat, end: nat, split: nat, ghost path: Bits)
      returns (ext: nat)
    requires Table(ps, len) && start <= end <= |ps| && Share(ps, len, start, end, path) && |path| == split
    ensures start <= ext <= end
    ensures forall i :: start <= i < ext ==> Key(ps[i]) == path
    ensures forall i :: ext <= i < end ==> split < ps[i].pfxlen
  {
    ext := start;
    while ext < end && ps[ext].pfxlen <= split
      invariant start <= ext <= end
      invariant forall i :: start <= i < ext ==> Key(ps[i]) == path
    {
      assert Key(ps[ext]) == path;
      ext := ext + 1;
    }
    LongerAfter(ps, len, start, ext, end, path);
  }

  /** After the first longer prefix of a sorted range all are longer. */
  lemma LongerAfter(ps: seq<Prefix>, len: nat, start: nat, ext: nat, end: nat, path: Bits)
    requires Table(ps, len) && start <= ext <= end <= |ps| && Share(ps, len, start, end, path)
    requires ext < end ==> |path| < ps[ext].pfxlen
    ensures forall i :: ext <= i < end ==> |path| < ps[i].pfxlen
  {
    forall i | ext < i < end
      ensures |path| < ps[i].pfxlen
    {
      assert InOrder(ps, ext, i);
      EndingFirst(ps[ext], ps[i], len, path);
    }
  }

  lemma EndingFirst(p: Prefix, q: Prefix, len: nat, path: Bits)
    requires ValidPrefix(p, len) && ValidPrefix(q, len) && BitsLe(Key(p), Key(q))
    requires path <= Key(p) && path <= Key(q) && |path| < p.pfxlen
    ensures |path| < q.pfxlen
  {
    if !(Key(p) <= Key(q)) {
      var d: nat :| DifferAt(Key(p), Key(q), d) && Key(q)[d];
      DifferBeyond(path, Key(p), Key(q), d);
    }
  }

  /** First prefix of the range with a 1 at bit `split`, or the end of the range. */
  method FirstOne(ps: seq<Prefix>, ghost len: nat, start: nat, end: nat, split: nat, ghost path: Bits)
      returns (pivot: nat)
    requires Table(ps, len) && start <= end <= |ps| && Share(ps, len, start, end, path) && |path| == split
    requires forall i :: start <= i < end ==> split < ps[i].pfxlen
    ensures start <= pivot <= end
    ensures Share(ps, len, start, pivot, path + [false]) && Share(ps, len, pivot, end, path + [true])
  {
    pivot := start;
    while pivot < end && !AddrBit(ps[pivot].addr, split)
      invariant start <= pivot <= end
      invariant Share(ps, len, start, pivot, path + [false])
    {
      assert Key(ps[pivot])[split] == BitsOf(ps[pivot].addr)[split];
      ExtendPath(path, false, Key(ps[pivot]));
      pivot := pivot + 1;
    }
    assert pivot < end ==> Key(ps[pivot])[split] == BitsOf(ps[pivot].addr)[split];
    OnesAfter(ps, len, start, pivot, end, path);
  }

  /** After the first prefix with a 1 there are only ones. */
  lemma OnesAfter(ps: seq<Prefix>, len: nat, start: nat, pivot: nat, end: nat, path: Bits)
    requires Table(ps, len) && start <= pivot <= end <= |ps| && Share(ps, len, start, end, path)
    requires forall i :: start <= i < end ==> |path| < ps[i].pfxlen
    requires pivot < end ==> Key(ps[pivot])[|path|]
    ensures Share(ps, len, pivot, end, path + [true])
  {
    forall i | pivot <= i < end
      ensures path + [true] <= Key(ps[i])
    {
      if pivot < i {
        assert InOrder(ps, pivot, i);
        OnesLast(ps[pivot], ps[i], len, path);
      }
      ExtendPath(path, true, Key(ps[i]));
    }
  }

  lemma ExtendPath(path: Bits, bit: bool, key: Bits)
    requires path <= key && |path| < |key| && key[|path|] == bit
    ensures path + [bit] <= key
  {
  }

  lemma OnesLast(p: Prefix, q: Prefix, len: nat, path: Bits)
    requires ValidPrefix(p, len) && ValidPrefix(q, len) && BitsLe(Key(p), Key(q))
    requires path <= Key(p) && path <= Key(q) && |path| < p.pfxlen && |path| < q.pfxlen && Key(p)[|path|]
    ensures Key(q)[|path|]
  {
    if !(Key(p) <= Key(q)) {
      var d: nat :| DifferAt(Key(p), Key(q), d) && Key(q)[d];
      DifferBeyond(path, Key(p), Key(q), d);
    }
  }

  // ----- Assembling a node -----

  /** The range is cut in three: prefixes equal to `path`, those going on with 0, those with 1. */
  ghost predicate Cut(ps: seq<Prefix>, len: nat, start: nat, ext: nat, pivot: nat, end: nat, path: Bits)
    requires Table(ps, len) && end <= |ps|
  {
    && start <= ext <= pivot <= end
    && (forall i :: start <= i < ext ==> Key(ps[i]) == path)
    && Share(ps, len, ext, pivot, path + [false])
    && Share(ps, len, pivot, end, path + [true])
  }

  lemma AssembleStores(t: Tree, ps: seq<Prefix>, len: nat, start: nat, ext: nat, pivot: nat, end: nat)
    requires Table(ps, len) && end <= |ps| && t.Node?
    requires Cut(ps, len, start, ext, pivot, end, t.path)
    requires t.pfx == if start < ext then Some(start) else None
    requires Stores(t.left, ps, len, ext, pivot) && Stores(t.right, ps, len, pivot, end)
    ensures Stores(t, ps, len, start, end)
  {
    forall key: Bits, idx: nat
      ensures Holds(t, key, idx) <==> FirstAt(ps, len, start, end, key, idx)
    {
      FirstInCut(ps, len, start, ext, pivot, end, t.path, key, idx);
      assert Holds(t.left, key, idx) <==> FirstAt(ps, len, ext, pivot, key, idx);
      assert Holds(t.right, key, idx) <==> FirstAt(ps, len, pivot, end, key, idx);
    }
  }

  /** Every range with common bits can be cut at their end. */
  lemma {:induction false} CutAt(ps: seq<Prefix>, len: nat, start: nat, end: nat, path: Bits) returns (ext: nat,
      pivot: nat)
    requires Table(ps, len) && start <= end <= |ps| && Share(ps, len, start, end, path)
    ensures Cut(ps, len, start, ext, pivot, end, path)
  {
    ext := start;
    while ext < end && Key(ps[ext]) == path
      invariant start <= ext <= end && forall i :: start <= i < ext ==> Key(ps[i]) == path
    {
      ext := ext + 1;
    }
    LongerAfter(ps, len, start, ext, end, path);
    pivot := ext;
    while pivot < end && !Key(ps[pivot])[|path|]
      invariant ext <= pivot <= end && Share(ps, len, ext, pivot, path + [false])
    {
      ExtendPath(path, false, Key(ps[pivot]));
      pivot := pivot + 1;
    }
    OnesAfter(ps, len, ext, pivot, end, path);
  }

  /** A node over the tries of the two longer parts. */
  lemma {:induction false} AssembleTrie(t: Tree, ps: seq<Prefix>, len: nat, start: nat, ext: nat, pivot: nat, end: nat)
    requires Table(ps, len) && end <= |ps| && t.Node? && |t.path| <= 8 * len && start < end
    requires Cut(ps, len, start, ext, pivot, end, t.path)
    requires t.pfx == (if start < ext then Some(start) else None) && (start == ext ==> ext < pivot < end)
    requires TrieFor(t.left, ps, len, ext, pivot, t.path + [false])
    requires TrieFor(t.right, ps, len, pivot, end, t.path + [true])
    ensures TrieFor(t, ps, len, start, end, t.path)
  {
    AssembleStores(t, ps, len, start, ext, pivot, end);
  }

  lemma {:induction false} NodeOver(ps: seq<Prefix>, len: nat, start: nat, ext: nat, pivot: nat, end: nat, here: Bits,
      path: Bits, tl: Tree, tr: Tree) returns (t: Tree)
    requires Table(ps, len) && start < end <= |ps| && |here| <= 8 * len && path <= here
    requires Cut(ps, len, start, ext, pivot, end, here) && (start == ext ==> ext < pivot < end)
    requires TrieFor(tl, ps, len, ext, pivot, here + [false]) && TrieFor(tr, ps, len, pivot, end, here + [true])
    ensures t == Node(here, if start < ext then Some(start) else None, tl, tr)
    ensures t.Count() == 1 + tl.Count() + tr.Count()
    ensures TrieFor(t, ps, len, start, end, path)
  {
    t := Node(here, if start < ext then Some(start) else None, tl, tr);
    AssembleTrie(t, ps, len, start, ext, pivot, end);
  }

  /** `t` is the trie of the range; its root shares at least the bits `path`. */
  ghost predicate TrieFor(t: Tree, ps: seq<Prefix>, len: nat, start: nat, end: nat, path: Bits)
    requires Table(ps, len) && end <= |ps|
  {
    && Wf(t, 8 * len) && Stores(t, ps, len, start, end)
    && (start >= end ==> t.Empty?) && (start < end ==> t.Node? && path <= t.path)
  }

  /** Every range has a trie, whether or not there is room to build it. */
  lemma {:induction false} RangeTrie(ps: seq<Prefix>, len: nat, start: nat, end: nat, path: Bits) returns (t: Tree)
    requires Table(ps, len) && start <= end <= |ps| && Share(ps, len, start, end, path) && |path| <= 8 * len
    ensures TrieFor(t, ps, len, start, end, path)
    decreases 8 * len - |path|
  {
    t := Empty;
    if start < end {
      var ext, pivot := CutAt(ps, len, start, end, path);
      if ext == end {
        t := Node(path, Some(start), Empty, Empty);
        AssembleStores(t, ps, len, start, end, end, end);
      } else {
        assert path + [ext >= pivot] <= Key(ps[ext]);
        var l := RangeTrie(ps, len, ext, pivot, path + [false]);
        var r := RangeTrie(ps, len, pivot, end, path + [true]);
        if start == ext && (ext == pivot || pivot == end) {
          t := if ext == pivot then r else l;
        } else {
          t := Node(path, if start < ext then Some(start) else None, l, r);
          AssembleTrie(t, ps, len, start, ext, pivot, end);
        }
      }
    }
  }

  lemma ShareBit(ps: seq<Prefix>, len: nat, start: nat, end: nat, path: Bits, bit: bool)
    requires Table(ps, len) && end <= |ps| && Share(ps, len, start, end, path + [bit])
    ensures forall i :: start <= i < end ==> |path| < ps[i].pfxlen && Key(ps[i])[|path|] == bit
  {
    forall i | start <= i < end
      ensures |path| < ps[i].pfxlen && Key(ps[i])[|path|] == bit
    {
      assert Key(ps[i])[|path|] == (path + [bit])[|path|];
    }
  }

  lemma FirstInCut(ps: seq<Prefix>, len: nat, start: nat, ext: nat, pivot: nat, end: nat, path: Bits, key: Bits,
      idx: nat)
    requires Table(ps, len) && end <= |ps| && Cut(ps, len, start, ext, pivot, end, path)
    ensures FirstAt(ps, len, start, end, key, idx) <==>
      || (start < ext && idx == start && key == path)
      || FirstAt(ps, len, ext, pivot, key, idx)
      || FirstAt(ps, len, pivot, end, key, idx)
  {
    ShareBit(ps, len, ext, pivot, path, false);
    ShareBit(ps, len, pivot, end, path, true);
    assert start < ext ==> Key(ps[start]) == path;
  }

  lemma ShareAgrees(ps: seq<Prefix>, len: nat, start: nat, end: nat, path: Bits)
    requires Table(ps, len) && start < end <= |ps| && Share(ps, len, start, end, path)
    ensures |path| <= 8 * len && AgreeTo(ps, len, start, end, |path|)
  {
    assert path <= Key(ps[start]);
  }

  lemma AgreeShares(ps: seq<Prefix>, len: nat, start: nat, end: nat, split: nat, path: Bits)
    requires Table(ps, len) && start < end <= |ps| && Share(ps, len, start, end, path)
    requires |path| <= split <= 8 * len && AgreeTo(ps, len, start, end, split)
    ensures Share(ps, len, start, end, BitsOf(ps[start].addr)[..split])
    ensures path <= BitsOf(ps[start].addr)[..split]
    ensures forall i :: start <= i < end && ps[i].pfxlen == split ==> Key(ps[i]) == BitsOf(ps[start].addr)[..split]
  {
    forall i | start <= i < end
      ensures BitsOf(ps[start].addr)[..split] <= Key(ps[i])
    {
      assert Key(ps[i])[..split] == BitsOf(ps[start].addr)[..split];
    }
    assert path <= Key(ps[start]);
  }

  // ----- The recursive build -----

  /** What one call has built: the trie of its range, in the arena cells it reserved. */
  ghost predicate Built(nodes: seq<PatNode>, ps: seq<Prefix>, len: nat, start: nat, end: nat, at: nat, next: nat,
      root: Option<nat>, t: Tree)
    requires Table(ps, len)
  {
    && next == at + t.Count() && (t.Empty? <==> start >= end)
    && if t.Empty? then root.None?
       else Rep(nodes, ps, len, at, t) && t.Count() <= 2 * (end - start) - 1 && root == Some(at)
  }

  /** A node over its two built children. */
  lemma {:induction false} AssembleBuilt(nodes: seq<PatNode>, ps: seq<Prefix>, len: nat, start: nat, ext: nat,
      pivot: nat, end: nat, at: nat, next1: nat, next2: nat, t: Tree)
    requires Table(ps, len) && start <= ext <= pivot <= end <= |ps| && ext < end && t.Node? && at < |nodes|
    requires t.path <= Key(ps[start]) && (start < ext ==> Key(ps[start]) == t.path)
    requires t.pfx == (if start < ext then Some(start) else None) && (start == ext ==> ext < pivot < end)
    requires Built(nodes, ps, len, ext, pivot, at + 1, next1, nodes[at].left, t.left)
    requires Built(nodes, ps, len, pivot, end, next1, next2, nodes[at].right, t.right)
    requires nodes[at].prefixIdx == t.pfx && nodes[at].reprIdx == start && nodes[at].bitPosition == |t.path|
    ensures Built(nodes, ps, len, start, end, at, next2, Some(at), t)
  {
  }

  /** A leaf: every prefix of the range is the same one. */
  lemma AssembleLeaf(nodes: seq<PatNode>, ps: seq<Prefix>, len: nat, start: nat, end: nat, at: nat, here: Bits,
      path: Bits) returns (t: Tree)
    requires Table(ps, len) && start < end <= |ps| && |here| <= 8 * len && path <= here && here <= Key(ps[start])
    requires forall i :: start <= i < end ==> Key(ps[i]) == here
    requires at < |nodes| && nodes[at]
      == PatNode(None, None, Some(start), start, nodes[at].dpCost, |here|, nodes[at].optimalBranch)
    ensures TrieFor(t, ps, len, start, end, path) && t.Count() == 1
    ensures Built(nodes, ps, len, start, end, at, at + 1, Some(at), t)
  {
    t := Node(here, Some(start), Empty, Empty);
    AssembleStores(t, ps, len, start, end, end, end);
  }

  /** `patricia_subtree_build`. The arena holds `2n - 1` cells for the range or reaches the node
      limit, so no write is out of bounds; the build gives up exactly when the nodes of the range's
      trie pass the limit. */
  method SubtreeBuild(ps: seq<Prefix>, ghost len: nat, start: nat, end: nat, bitPos: nat, keyBits: nat,
      nodes: array<PatNode>, nextFree: nat, nodeLimit: nat, ghost path: Bits) returns (root: Option<nat>, next: nat,
      overflowed: bool, ghost t: Tree)
    requires Table(ps, len) && start <= end <= |ps| && keyBits == 8 * len
    requires |path| == bitPos <= keyBits && Share(ps, len, start, end, path)
    requires start < end ==> nextFree + 2 * (end - start) - 1 <= nodes.Length || nodeLimit <= nodes.Length
    modifies nodes
    ensures nextFree <= next
    ensures forall i :: 0 <= i < nodes.Length && !(nextFree <= i < next) ==> nodes[i] == old(nodes[i])
    ensures TrieFor(t, ps, len, start, end, path)
    ensures overflowed <==> start < end && nodeLimit < nextFree + t.Count()
    ensures !overflowed ==> Built(nodes[..], ps, len, start, end, nextFree, next, root, t)
    decreases end - start, 1
  {
    root, next, overflowed, t := None, nextFree, false, Empty;
    if start == end {
      return;
    }
    if nextFree >= nodeLimit {
      overflowed := true;
      t := RangeTrie(ps, len, start, end, path);
      return;
    }
    var nodeIdx := nextFree;
    next := nextFree + 1;
    nodes[nodeIdx] := PatNode(None, None, None, start, 0, bitPos, 0);
    ShareAgrees(ps, len, start, end, path);
    var split, best, diverges := FindSplit(ps, len, start, end, bitPos, keyBits);

    if split == bitPos && best.None? && !diverges {
      root := Some(nodeIdx);
      t := BuildLeaf(ps, len, start, end, bitPos, keyBits, nodes, nodeIdx, path);
      return;
    }

    ghost var here := BitsOf(ps[start].addr)[..split];
    AgreeShares(ps, len, start, end, split, path);
    nodes[nodeIdx] := nodes[nodeIdx].(bitPosition := split, prefixIdx := best);
    var ext := FirstExtending(ps, len, start, end, split, here);
    root := Some(nodeIdx);
    if ext == end {
      t := AssembleLeaf(nodes[..], ps, len, start, end, nodeIdx, here, path);
      return;
    }
    next, overflowed, t := BuildChildren(ps, len, start, ext, end, split, keyBits, nodes, nodeIdx, next, nodeLimit,
      here, path);
    if overflowed {
      root := None;
    }
  }

  /** The leaf of a range whose prefixes agree on every address bit. */
  method BuildLeaf(ps: seq<Prefix>, ghost len: nat, start: nat, end: nat, ghost bitPos: nat, keyBits: nat,
      nodes: array<PatNode>, nodeIdx: nat, ghost path: Bits) returns (ghost t: Tree)
    requires Table(ps, len) && start < end <= |ps| && keyBits == 8 * len && |path| == bitPos <= keyBits
    requires Share(ps, len, start, end, path) && AgreeTo(ps, len, start, end, keyBits)
    requires nodeIdx < nodes.Length && nodes[nodeIdx] == PatNode(None, None, None, start, 0, bitPos, 0)
    modifies nodes
    ensures forall i :: 0 <= i < nodes.Length && i != nodeIdx ==> nodes[i] == old(nodes[i])
    ensures TrieFor(t, ps, len, start, end, path) && t.Count() == 1
    ensures Built(nodes[..], ps, len, start, end, nodeIdx, nodeIdx + 1, Some(nodeIdx), t)
  {
    var minIdx := start;
    for i := start + 1 to end
      invariant minIdx == start
    {
      if i < minIdx {
        minIdx := i;
      }
    }
    nodes[nodeIdx] := nodes[nodeIdx].(bitPosition := keyBits, prefixIdx := Some(minIdx), reprIdx := minIdx);
    AgreeShares(ps, len, start, end, keyBits, path);
    t := AssembleLeaf(nodes[..], ps, len, start, end, nodeIdx, BitsOf(ps[start].addr)[..keyBits], path);
  }

  /** The second half of the build: cut the longer prefixes at the pivot and build both sides. */
  method BuildChildren(ps: seq<Prefix>, ghost len: nat, ghost start: nat, ext: nat, end: nat, split: nat, keyBits: nat,
      nodes: array<PatNode>, nodeIdx: nat, nextFree: nat, nodeLimit: nat, ghost here: Bits, ghost path: Bits)
      returns (next: nat, overflowed: bool, ghost t: Tree)
    requires Table(ps, len) && start <= ext < end <= |ps| && keyBits == 8 * len
    requires |here| == split < keyBits && path <= here && Share(ps, len, start, end, here)
    requires forall i :: start <= i < ext ==> Key(ps[i]) == here
    requires forall i :: ext <= i < end ==> split < ps[i].pfxlen
    requires start == ext ==> DivergeAt(ps, len, start, end, split)
    requires nextFree == nodeIdx + 1 <= nodes.Length && nextFree <= nodeLimit
    requires nodes[nodeIdx] == PatNode(None, None, if start < ext then Some(start) else None, start, 0, split, 0)
    requires nodeIdx + 2 * (end - start) - 1 <= nodes.Length || nodeLimit <= nodes.Length
    modifies nodes
    ensures nextFree <= next
    ensures forall i :: 0 <= i < nodes.Length && !(nodeIdx <= i < next) ==> nodes[i] == old(nodes[i])
    ensures TrieFor(t, ps, len, start, end, path)
    ensures overflowed <==> nodeLimit < nodeIdx + t.Count()
    ensures !overflowed ==> Built(nodes[..], ps, len, start, end, nodeIdx, next, Some(nodeIdx), t)
    decreases end - start, 0
  {
    var pivot := FirstOne(ps, len, ext, end, split, here);
    if start == ext {
      BothSides(ps, len, ext, pivot, end, here);
    }
    var left, right;
    ghost var tl, tr;
    left, next, overflowed, tl := SubtreeBuild(ps, len, ext, pivot, split + 1, keyBits, nodes, nextFree, nodeLimit,
      here + [false]);
    ghost var mid, next1 := nodes[..], next;
    nodes[nodeIdx] := nodes[nodeIdx].(left := left);
    if overflowed {
      tr := RangeTrie(ps, len, pivot, end, here + [true]);
      t := NodeOver(ps, len, start, ext, pivot, end, here, path, tl, tr);
      return;
    }
    right, next, overflowed, tr := SubtreeBuild(ps, len, pivot, end, split + 1, keyBits, nodes, next, nodeLimit,
      here + [true]);
    ghost var both := nodes[..];
    nodes[nodeIdx] := nodes[nodeIdx].(right := right);
    t := NodeOver(ps, len, start, ext, pivot, end, here, path, tl, tr);
    if !overflowed {
      ghost var root := PatNode(left, right, t.pfx, start, 0, split, 0);
      assert nodes[..] == both[nodeIdx := root];
      BuiltBoth(mid, both, nodes[..], ps, len, start, ext, pivot, end, nodeIdx, next1, next, root, t);
    }
  }

  lemma {:induction false} BuiltBoth(mid: seq<PatNode>, both: seq<PatNode>, nodes: seq<PatNode>, ps: seq<Prefix>,
      len: nat, start: nat, ext: nat, pivot: nat, end: nat, at: nat, next1: nat, next2: nat, root: PatNode, t: Tree)
    requires Table(ps, len) && start <= ext <= pivot <= end <= |ps| && ext < end && t.Node?
    requires t.path <= Key(ps[start]) && (start < ext ==> Key(ps[start]) == t.path)
    requires t.pfx == (if start < ext then Some(start) else None) && (start == ext ==> ext < pivot < end)
    requires at < |nodes| == |mid| == |both| && nodes == both[at := root]
    requires root.prefixIdx == t.pfx && root.reprIdx == start && root.bitPosition == |t.path|
    requires Built(mid, ps, len, ext, pivot, at + 1, next1, root.left, t.left)
    requires Built(both, ps, len, pivot, end, next1, next2, root.right, t.right)
    requires forall i :: at < i < next1 && i < |mid| ==> both[i] == mid[i]
    ensures Built(nodes, ps, len, start, end, at, next2, Some(at), t)
  {
    BuiltFrame(both, nodes, ps, len, pivot, end, next1, next2, root.right, t.right);
    BuiltFrame(mid, nodes, ps, len, ext, pivot, at + 1, next1, root.left, t.left);
    AssembleBuilt(nodes, ps, len, start, ext, pivot, end, at, next1, next2, t);
  }

  lemma BothSides(ps: seq<Prefix>, len: nat, start: nat, pivot: nat, end: nat, here: Bits)
    requires Table(ps, len) && start <= pivot <= end <= |ps| && DivergeAt(ps, len, start, end, |here|)
    requires Share(ps, len, start, pivot, here + [false]) && Share(ps, len, pivot, end, here + [true])
    ensures start < pivot < end
  {
    var i, j :| start <= i < end && start <= j < end && |here| < ps[i].pfxlen && |here| < ps[j].pfxlen
      && !Key(ps[i])[|here|] && Key(ps[j])[|here|];
    ShareBit(ps, len, start, pivot, here, false);
    ShareBit(ps, len, pivot, end, here, true);
  }

  lemma {:induction false} BuiltFrame(mid: seq<PatNode>, nodes: seq<PatNode>, ps: seq<Prefix>, len: nat, start: nat,
      end: nat, at: nat, next: nat, root: Option<nat>, t: Tree)
    requires Table(ps, len) && Built(mid, ps, len, start, end, at, next, root, t)
    requires |mid| == |nodes| && forall i :: at <= i < next && i < |nodes| ==> nodes[i] == mid[i]
    ensures Built(nodes, ps, len, start, end, at, next, root, t)
  {
    if t.Node? {
      RepFrame(mid, nodes, ps, len, at, t);
    }
  }
}
