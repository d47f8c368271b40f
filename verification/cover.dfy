/** What a list of prefixes covers, and the normal form that aggregation reaches. */
module Cover {
  // All keys are bit strings of at most `width` bits; an address is a bit string of exactly `width`.
  import opened BitStrings

  ghost predicate Short(s: seq<Bits>, width: nat) {
    forall i :: 0 <= i < |s| ==> |s[i]| <= width
  }

  /** Some prefix of the list contains `a`. */
  ghost predicate Covers(s: seq<Bits>, a: Bits) {
    exists i :: 0 <= i < |s| && s[i] <= a
  }

  /** The two lists cover the same addresses. */
  ghost predicate SameCover(s: seq<Bits>, t: seq<Bits>, width: nat) {
    forall a: Bits | |a| == width :: Covers(s, a) <==> Covers(t, a)
  }

  ghost predicate Before(s: seq<Bits>, i: nat, j: nat)
    requires i < |s| && j < |s|
  {
    BitsLe(s[i], s[j]) && s[i] != s[j]
  }

  /** Strictly ascending. */
  ghost predicate Ascending(s: seq<Bits>) {
    forall i: nat, j: nat :: i < j < |s| ==> Before(s, i, j)
  }

  predicate Apart(k: Bits, l: Bits) {
    !(k <= l) && !(l <= k)
  }

  ghost predicate ApartAt(s: seq<Bits>, i: nat, j: nat)
    requires i < |s| && j < |s|
  {
    Apart(s[i], s[j])
  }

  /** No prefix of the list contains another. */
  ghost predicate Disjoint(s: seq<Bits>) {
    forall i: nat, j: nat :: i < j < |s| ==> ApartAt(s, i, j)
  }

  /** The two halves of one parent. */
  predicate Siblings(k: Bits, l: Bits) {
    |k| == |l| > 0 && k[..|k| - 1] == l[..|l| - 1] && !k[|k| - 1] && l[|l| - 1]
  }

  ghost predicate SiblingsAt(s: seq<Bits>, i: nat, j: nat)
    requires i < |s| && j < |s|
  {
    Siblings(s[i], s[j])
  }

  ghost predicate SiblingFree(s: seq<Bits>) {
    forall i: nat, j: nat :: i < |s| && j < |s| ==> !SiblingsAt(s, i, j)
  }

  ghost predicate NormalForm(s: seq<Bits>, width: nat) {
    Short(s, width) && Ascending(s) && Disjoint(s) && SiblingFree(s)
  }

  /** Every address below `q` is covered. */
  ghost predicate CoversAll(s: seq<Bits>, q: Bits, width: nat) {
    forall a: Bits | |a| == width && q <= a :: Covers(s, a)
  }

  /** In a normal form, a fully covered prefix lies inside a single entry. */
  lemma {:induction false} AncestorOf(s: seq<Bits>, q: Bits, width: nat) returns (i: nat)
    requires NormalForm(s, width) && |q| <= width && CoversAll(s, q, width)
    ensures i < |s| && s[i] <= q
    decreases width - |q|
  {
    if |q| == width {
      assert Covers(s, q);
      i :| 0 <= i < |s| && s[i] <= q;
    } else {
      var l, r := q + [false], q + [true];
      assert CoversAll(s, l, width) && CoversAll(s, r, width);
      i := AncestorOf(s, l, width);
      var j := AncestorOf(s, r, width);
      assert Siblings(l, r) && !SiblingsAt(s, i, j);
      if s[i] == l {
        i := j;
      }
    }
  }

  /** An entry of one list lies inside an entry of any normal form with the same cover. */
  lemma AncestorIn(s: seq<Bits>, t: seq<Bits>, j: nat, width: nat) returns (i: nat)
    requires NormalForm(s, width) && Short(t, width) && SameCover(s, t, width) && j < |t|
    ensures i < |s| && s[i] <= t[j]
  {
    assert CoversAll(s, t[j], width);
    i := AncestorOf(s, t[j], width);
  }

  lemma Comparable(x: Bits, y: Bits, a: Bits)
    requires x <= a && y <= a
    ensures x <= y || y <= x
  {
    assert x == a[..|x|] && y == a[..|y|];
  }

  lemma DisjointComparable(s: seq<Bits>, i: nat, j: nat, a: Bits)
    requires Disjoint(s) && i < |s| && j < |s| && s[i] <= a && s[j] <= a
    ensures i == j
  {
    if i < j {
      assert ApartAt(s, i, j);
      Comparable(s[i], s[j], a);
    } else if j < i {
      assert ApartAt(s, j, i);
      Comparable(s[i], s[j], a);
    }
  }

  /** Every entry of a normal form has an entry of `t` inside it, and that entry is in no other. */
  lemma EntryInside(s: seq<Bits>, t: seq<Bits>, i: nat, width: nat) returns (j: nat)
    requires NormalForm(s, width) && Short(t, width) && SameCover(s, t, width) && i < |s|
    ensures j < |t| && s[i] <= t[j]
  {
    var a := s[i] + Repeat(false, width - |s[i]|);
    assert s[i] <= a && Covers(s, a) && Covers(t, a);
    j :| 0 <= j < |t| && t[j] <= a;
    var k := AncestorIn(s, t, j, width);
    assert s[k] <= a;
    DisjointComparable(s, k, i, a);
  }

  // ----- Minimality -----

  /** Entry `j` of `t` lies in entry `f[j]` of `s`, and every entry of `s` is hit. */
  ghost predicate Onto(f: seq<nat>, n: nat) {
    (forall j :: 0 <= j < |f| ==> f[j] < n) && forall i: nat :: i < n ==> i in f
  }

  lemma {:induction false} OntoIsLonger(f: seq<nat>, n: nat)
    requires Onto(f, n)
    ensures n <= |f|
    decreases n
  {
    if n > 0 {
      var g := Without(f, n - 1);
      assert n - 1 in f;
      WithoutShorter(f, n - 1);
      forall i: nat | i < n - 1
        ensures i in g
      {
        assert i in f;
        WithoutKeeps(f, n - 1, i);
      }
      forall j | 0 <= j < |g|
        ensures g[j] < n - 1
      {
        WithoutFrom(f, n - 1, j);
      }
      OntoIsLonger(g, n - 1);
    }
  }

  ghost function Without(f: seq<nat>, x: nat): seq<nat> {
    if f == [] then [] else (if f[0] == x then [] else [f[0]]) + Without(f[1..], x)
  }

  lemma {:induction false} WithoutShorter(f: seq<nat>, x: nat)
    ensures |Without(f, x)| <= |f| && (x in f ==> |Without(f, x)| < |f|)
  {
    if f != [] { WithoutShorter(f[1..], x); }
  }

  lemma {:induction false} WithoutKeeps(f: seq<nat>, x: nat, y: nat)
    requires y in f && y != x
    ensures y in Without(f, x)
  {
    if f[0] != y { WithoutKeeps(f[1..], x, y); }
  }

  lemma {:induction false} WithoutFrom(f: seq<nat>, x: nat, j: nat)
    requires j < |Without(f, x)|
    ensures Without(f, x)[j] in f && Without(f, x)[j] != x
  {
    if f[0] == x {
      WithoutFrom(f[1..], x, j);
    } else if j > 0 {
      WithoutFrom(f[1..], x, j - 1);
    }
  }

  lemma {:induction false} ChooseAncestors(s: seq<Bits>, t: seq<Bits>, width: nat, n: nat) returns (f: seq<nat>)
    requires NormalForm(s, width) && Short(t, width) && SameCover(s, t, width) && n <= |t|
    ensures |f| == n && forall j :: 0 <= j < n ==> f[j] < |s| && s[f[j]] <= t[j]
  {
    f := [];
    if n > 0 {
      f := ChooseAncestors(s, t, width, n - 1);
      var i := AncestorIn(s, t, n - 1, width);
      f := f + [i];
    }
  }

  /** No list of prefixes with the same cover is shorter than a normal form. */
  lemma NormalFormIsMinimal(s: seq<Bits>, t: seq<Bits>, width: nat)
    requires NormalForm(s, width) && Short(t, width) && SameCover(s, t, width)
    ensures |s| <= |t|
  {
    var f := ChooseAncestors(s, t, width, |t|);
    forall i: nat | i < |s|
      ensures i in f
    {
      var j := EntryInside(s, t, i, width);
      DisjointComparable(s, i, f[j], t[j]);
      assert f[j] == i;
    }
    OntoIsLonger(f, |s|);
  }

  // ----- Uniqueness -----

  lemma SameEntries(s: seq<Bits>, t: seq<Bits>, i: nat, width: nat) returns (j: nat)
    requires NormalForm(s, width) && NormalForm(t, width) && SameCover(s, t, width) && i < |s|
    ensures j < |t| && t[j] == s[i]
  {
    j := EntryInside(s, t, i, width);
    var k := AncestorIn(t, s, i, width);
    assert t[k] <= t[j];
    DisjointComparable(t, k, j, t[j]);
  }

  /** The normal form is determined by the covered set. */
  lemma NormalFormIsUnique(s: seq<Bits>, t: seq<Bits>, width: nat)
    requires NormalForm(s, width) && NormalForm(t, width) && SameCover(s, t, width)
    ensures s == t
  {
    NormalFormIsMinimal(s, t, width);
    NormalFormIsMinimal(t, s, width);
    var d := Compare(s, t);
    if DifferAt(s, t, d) {
      AscendsPast(s, t, d, width);
      AscendsPast(t, s, d, width);
      BitsLeAntisymmetric(s[d], t[d]);
    }
  }

  lemma AscendsPast(s: seq<Bits>, t: seq<Bits>, d: nat, width: nat)
    requires NormalForm(s, width) && NormalForm(t, width) && SameCover(s, t, width) && DifferAt(s, t, d)
    ensures BitsLe(s[d], t[d])
  {
    var j := SameEntries(t, s, d, width);
    assert forall i | 0 <= i < d :: s[i] == s[..d][i] == t[..d][i] == t[i];
    forall i: nat | i < d
      ensures s[i] != t[d]
    {
      assert Before(t, i, d);
    }
    if d < j {
      assert Before(s, d, j);
    }
  }
}
