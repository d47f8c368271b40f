/** The path-compressed binary trie as a value: the abstract state of the node arena. */
module Patricia {
  // A node carries the bits tested from the root down to it (`path`, so `bit_position` is its length)
  // and, when a prefix ends there, the sorted index of that prefix.
  import opened BitStrings

  datatype Tree =
    | Empty
    | Node(path: Bits, pfx: Option<nat>, left: Tree, right: Tree)
  {
    predicate Leaf() { Node? && left.Empty? && right.Empty? }

    /** The child on the side of one bit. */
    function Child(bit: bool): Tree
      requires Node?
    {
      if bit then right else left
    }

    /** Number of live nodes. */
    function Count(): nat {
      if Empty? then 0 else 1 + left.Count() + right.Count()
    }
  }

  /** Patricia shape: a child extends its parent's path by the branching bit, a node without a
      prefix branches both ways, and no path is longer than an address. */
  predicate Wf(t: Tree, width: nat) {
    t.Node? ==>
      && |t.path| <= width
      && (t.left.Node? ==> t.path + [false] <= t.left.path)
      && (t.right.Node? ==> t.path + [true] <= t.right.path)
      && (t.pfx.None? ==> t.left.Node? && t.right.Node?)
      && Wf(t.left, width)
      && Wf(t.right, width)
  }

  /** Some node of `t` stores prefix number `idx` under the bits `key`. */
  predicate Holds(t: Tree, key: Bits, idx: nat) {
    t.Node? && ((t.path == key && t.pfx == Some(idx)) || Holds(t.left, key, idx) || Holds(t.right, key, idx))
  }

  lemma {:induction false} HeldBelow(t: Tree, width: nat, key: Bits, idx: nat)
    requires Wf(t, width) && Holds(t, key, idx)
    ensures t.path <= key && |key| <= width
    ensures |key| > |t.path| ==> Holds(t.Child(key[|t.path|]), key, idx)
    ensures |key| == |t.path| ==> t.path == key && t.pfx == Some(idx)
  {
    if Holds(t.left, key, idx) {
      HeldBelow(t.left, width, key, idx);
      assert t.path + [false] <= key;
      assert key[|t.path|] == (t.path + [false])[|t.path|];
    } else if Holds(t.right, key, idx) {
      HeldBelow(t.right, width, key, idx);
      assert t.path + [true] <= key;
      assert key[|t.path|] == (t.path + [true])[|t.path|];
    }
  }

  /** Each stored key sits at exactly one node, hence under exactly one index. */
  lemma {:induction false} HeldOnce(t: Tree, width: nat, key: Bits, i: nat, j: nat)
    requires Wf(t, width) && Holds(t, key, i) && Holds(t, key, j)
    ensures i == j
  {
    HeldBelow(t, width, key, i);
    HeldBelow(t, width, key, j);
    if |key| > |t.path| {
      HeldOnce(t.Child(key[|t.path|]), width, key, i, j);
    }
  }

  /** Every subtree of a well-formed trie stores something. */
  lemma {:induction false} SomethingHeld(t: Tree, width: nat) returns (key: Bits, idx: nat)
    requires t.Node? && Wf(t, width)
    ensures Holds(t, key, idx)
  {
    if t.pfx.Some? {
      key, idx := t.path, t.pfx.value;
    } else {
      key, idx := SomethingHeld(t.left, width);
    }
  }

  /** The tries `t` and `u` store the same keys under the same indices. */
  ghost predicate SameStore(t: Tree, u: Tree) {
    forall key, idx: nat :: Holds(t, key, idx) <==> Holds(u, key, idx)
  }

  /** The Patricia trie of a table is canonical: the stored entries determine every node. */
  lemma {:induction false} Canonical(t: Tree, u: Tree, width: nat)
    requires Wf(t, width) && Wf(u, width) && SameStore(t, u)
    ensures t == u
    decreases t
  {
    if t.Empty? {
      if u.Node? {
        var key, idx := SomethingHeld(u, width);
      }
    } else {
      var k0, i0 := SomethingHeld(t, width);
      assert Holds(u, k0, i0);
      RootNotAbove(t, u, width);
      RootNotAbove(u, t, width);
      HeldBelow(t, width, k0, i0);
      HeldBelow(u, width, k0, i0);
      assert t.path == k0[..|t.path|] == u.path;
      SamePfx(t, u, width);
      forall bit: bool
        ensures t.Child(bit) == u.Child(bit)
      {
        forall key, idx: nat
          ensures Holds(t.Child(bit), key, idx) <==> Holds(u.Child(bit), key, idx)
        {
          SideHeld(t, u, width, bit, key, idx);
          SideHeld(u, t, width, bit, key, idx);
        }
        Canonical(t.Child(bit), u.Child(bit), width);
      }
      assert t.left == t.Child(false) == u.Child(false) == u.left;
      assert t.right == t.Child(true) == u.Child(true) == u.right;
    }
  }

  lemma {:induction false} SideHeld(t: Tree, u: Tree, width: nat, bit: bool, key: Bits, idx: nat)
    requires t.Node? && u.Node? && Wf(t, width) && Wf(u, width) && SameStore(t, u) && t.path == u.path
    ensures Holds(t.Child(bit), key, idx) ==> Holds(u.Child(bit), key, idx)
  {
    if Holds(t.Child(bit), key, idx) {
      HeldBelow(t.Child(bit), width, key, idx);
      assert key[|t.path|] == (t.path + [bit])[|t.path|];
      assert Holds(t, key, idx) && Holds(u, key, idx);
      HeldBelow(u, width, key, idx);
    }
  }

  lemma {:induction false} SamePfx(t: Tree, u: Tree, width: nat)
    requires t.Node? && u.Node? && Wf(t, width) && Wf(u, width) && SameStore(t, u) && t.path == u.path
    ensures t.pfx == u.pfx
  {
    if t.pfx.Some? {
      assert Holds(u, t.path, t.pfx.value);
      HeldBelow(u, width, t.path, t.pfx.value);
    } else if u.pfx.Some? {
      assert Holds(t, u.path, u.pfx.value);
      HeldBelow(t, width, u.path, u.pfx.value);
    }
  }

  lemma {:induction false} RootNotAbove(t: Tree, u: Tree, width: nat)
    requires t.Node? && u.Node? && Wf(t, width) && Wf(u, width) && SameStore(t, u)
    ensures |u.path| <= |t.path|
  {
    if t.pfx.Some? {
      assert Holds(u, t.path, t.pfx.value);
      HeldBelow(u, width, t.path, t.pfx.value);
    } else {
      var k0, i0 := SomethingHeld(t.left, width);
      var k1, i1 := SomethingHeld(t.right, width);
      assert Holds(t, k0, i0) && Holds(t, k1, i1);
      assert Holds(u, k0, i0) && Holds(u, k1, i1);
      HeldBelow(t.left, width, k0, i0);
      HeldBelow(t.right, width, k1, i1);
      HeldBelow(u, width, k0, i0);
      HeldBelow(u, width, k1, i1);
      assert k0[|t.path|] == (t.path + [false])[|t.path|];
      assert k1[|t.path|] == (t.path + [true])[|t.path|];
    }
  }

  /** A Patricia trie with `n` storing nodes has at most `2n - 1` nodes. */
  function Stored(t: Tree): nat {
    if t.Empty? then 0 else (if t.pfx.Some? then 1 else 0) + Stored(t.left) + Stored(t.right)
  }

  lemma {:induction false} NodeBound(t: Tree, width: nat)
    requires t.Node? && Wf(t, width)
    ensures t.Count() <= 2 * Stored(t) - 1
  {
    if t.left.Node? { NodeBound(t.left, width); }
    if t.right.Node? { NodeBound(t.right, width); }
  }

  // ----- One-bit descent -----

  /** The path of the deepest storing node on the one-bit descent of `a` whose prefix contains `a`. */
  function Best(t: Tree, a: Bits): Option<Bits> {
    if t.Empty? then None
    else
      var below := if |t.path| < |a| then Best(t.Child(a[|t.path|]), a) else None;
      if below.Some? then below else Own(t, a)
  }

  /** The match contributed by one node: its own prefix, when that contains `a`. */
  function Own(t: Tree, a: Bits): Option<Bits> {
    if t.Node? && t.pfx.Some? && t.path <= a then Some(t.path) else None
  }

  predicate HeldKey(t: Tree, key: Bits) {
    t.Node? && ((t.path == key && t.pfx.Some?) || HeldKey(t.left, key) || HeldKey(t.right, key))
  }

  lemma {:induction false} HeldKeyBelow(t: Tree, width: nat, key: Bits)
    requires Wf(t, width) && HeldKey(t, key)
    ensures t.path <= key && |key| <= width
    ensures |key| > |t.path| ==> HeldKey(t.Child(key[|t.path|]), key)
    ensures |key| == |t.path| ==> t.path == key && t.pfx.Some?
  {
    if HeldKey(t.left, key) {
      HeldKeyBelow(t.left, width, key);
      assert t.path + [false] <= key;
      assert key[|t.path|] == (t.path + [false])[|t.path|];
    } else if HeldKey(t.right, key) {
      HeldKeyBelow(t.right, width, key);
      assert t.path + [true] <= key;
      assert key[|t.path|] == (t.path + [true])[|t.path|];
    }
  }

  /** The stored keys. */
  ghost function HeldKeys(t: Tree): set<Bits> {
    if t.Empty? then {}
    else (if t.pfx.Some? then {t.path} else {}) + HeldKeys(t.left) + HeldKeys(t.right)
  }

  lemma {:induction false} InHeldKeys(t: Tree, key: Bits)
    ensures key in HeldKeys(t) <==> HeldKey(t, key)
  {
    if t.Node? {
      InHeldKeys(t.left, key);
      InHeldKeys(t.right, key);
    }
  }

  /** The root's own key and the keys below it on either side are all different. */
  lemma {:induction false} SidesApart(t: Tree, width: nat, key: Bits)
    requires t.Node? && Wf(t, width)
    ensures key in HeldKeys(t.left) ==> t.path + [false] <= key
    ensures key in HeldKeys(t.right) ==> t.path + [true] <= key
    ensures !(t.path + [false] <= key && t.path + [true] <= key)
  {
    InHeldKeys(t.left, key);
    InHeldKeys(t.right, key);
    if HeldKey(t.left, key) { HeldKeyBelow(t.left, width, key); }
    if HeldKey(t.right, key) { HeldKeyBelow(t.right, width, key); }
    assert (t.path + [false])[|t.path|] != (t.path + [true])[|t.path|];
  }

  /** A trie has one storing node for each stored key. */
  lemma {:induction false} StoredIsKeys(t: Tree, width: nat)
    requires Wf(t, width)
    ensures |HeldKeys(t)| == Stored(t)
  {
    if t.Node? {
      StoredIsKeys(t.left, width);
      StoredIsKeys(t.right, width);
      var own: set<Bits>, l, r := if t.pfx.Some? then {t.path} else {}, HeldKeys(t.left), HeldKeys(t.right);
      forall key: Bits
        ensures !(key in l && key in r) && !(key in own && key in l + r)
      {
        SidesApart(t, width, key);
      }
      UnionSize(own, l, r);
    }
  }

  lemma UnionSize<T>(a: set<T>, b: set<T>, c: set<T>)
    requires forall x :: !(x in b && x in c) && !(x in a && x in b + c)
    ensures |a + b + c| == |a| + |b| + |c|
  {
    assert b !! c && a !! (b + c);
    assert a + b + c == a + (b + c);
  }

  /** `r` is the longest stored key that is a prefix of `a`, or `None` when there is none. */
  ghost predicate IsLongest(t: Tree, a: Bits, r: Option<Bits>) {
    && (r.Some? ==> HeldKey(t, r.value) && r.value <= a)
    && (forall key :: HeldKey(t, key) && key <= a ==> r.Some? && |key| <= |r.value|)
  }

  /** One-bit descent is longest-prefix match, for every address. */
  lemma {:induction false} BestIsLongest(t: Tree, width: nat, a: Bits)
    requires Wf(t, width)
    ensures IsLongest(t, a, Best(t, a))
  {
    if t.Node? {
      if |t.path| < |a| {
        BestIsLongest(t.Child(a[|t.path|]), width, a);
      }
      forall key | HeldKey(t, key) && key <= a
        ensures Best(t, a).Some? && |key| <= |Best(t, a).value|
      {
        HeldKeyBelow(t, width, key);
        if |key| > |t.path| {
          assert key[|t.path|] == a[|t.path|];
        } else {
          var below := if |t.path| < |a| then Best(t.Child(a[|t.path|]), a) else None;
          if below.Some? {
            HeldKeyBelow(t.Child(a[|t.path|]), width, below.value);
          }
        }
      }
    }
  }

  /** The longest match is unique. */
  lemma LongestUnique(t: Tree, a: Bits, r: Option<Bits>, s: Option<Bits>)
    requires IsLongest(t, a, r) && IsLongest(t, a, s)
    ensures r == s
  {
    if r.Some? && s.Some? {
      assert r.value == a[..|r.value|] && s.value == a[..|s.value|];
    }
  }
}
