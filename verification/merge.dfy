/** What one merge pass does to the covered set, on key lists.

The pass itself runs over the array in `aggregate.dfy`; here a pair of siblings becomes its parent. */
module SiblingMerge {
  import opened BitStrings
  import opened Cover

  /** Strictly ascending and pairwise disjoint: what the merge passes keep. */
  ghost predicate Tidy(s: seq<Bits>, width: nat) {
    Short(s, width) && Ascending(s) && Disjoint(s)
  }

  function Parent(k: Bits): Bits
    requires |k| > 0
  {
    k[..|k| - 1]
  }

  lemma SiblingsOfParent(k: Bits, l: Bits)
    requires Siblings(k, l)
    ensures k == Parent(k) + [false] && l == Parent(k) + [true]
  {
  }

  /** Two disjoint keys in order differ first where the later one has a 1. */
  lemma OrderedDiffer(x: Bits, y: Bits) returns (d: nat)
    requires BitsLe(x, y) && !(x <= y)
    ensures DifferAt(x, y, d) && y[d] && !x[d]
  {
    d :| DifferAt(x, y, d) && y[d];
  }

  /** A key before the left sibling is before their parent and disjoint from it. */
  lemma BeforeParent(x: Bits, k: Bits, l: Bits)
    requires Siblings(k, l) && BitsLe(x, k) && Apart(x, k)
    ensures BitsLe(x, Parent(k)) && Apart(x, Parent(k))
  {
    SiblingsOfParent(k, l);
    var d := OrderedDiffer(x, k);
    DifferCut(x, k, Parent(k), d);
    DifferNotPrefix(x, Parent(k), d);
  }

  /** A key after the right sibling is after their parent and disjoint from it. */
  lemma AfterParent(k: Bits, l: Bits, y: Bits)
    requires Siblings(k, l) && BitsLe(l, y) && Apart(l, y)
    ensures BitsLe(Parent(k), y) && Apart(Parent(k), y)
  {
    SiblingsOfParent(k, l);
    var d := OrderedDiffer(l, y);
    assert d < |l| - 1;
    assert Parent(k)[..d] == l[..d];
    assert DifferAt(Parent(k), y, d);
    DifferNotPrefix(Parent(k), y, d);
  }

  /** Replacing two adjacent siblings by their parent. */
  lemma MergeKeepsTidy(pre: seq<Bits>, k: Bits, l: Bits, post: seq<Bits>, width: nat)
    requires Siblings(k, l) && Tidy(pre + [k, l] + post, width)
    ensures Tidy(pre + [Parent(k)] + post, width)
  {
    var s, t, n := pre + [k, l] + post, pre + [Parent(k)] + post, |pre|;
    assert s[n] == k && s[n + 1] == l;
    assert forall i | 0 <= i < n :: t[i] == s[i];
    assert forall i | n < i < |t| :: t[i] == s[i + 1];
    forall i: nat, j: nat | i < j < |t|
      ensures Before(t, i, j) && ApartAt(t, i, j)
    {
      var a, b := if i <= n then i else i + 1, if j < n then j else j + 1;
      assert Before(s, a, b) && ApartAt(s, a, b);
      if j == n {
        assert Before(s, i, n) && ApartAt(s, i, n);
        BeforeParent(s[i], k, l);
      } else if i == n {
        assert Before(s, n + 1, b) && ApartAt(s, n + 1, b);
        AfterParent(k, l, s[b]);
      }
    }
  }

  lemma MergeKeepsCover(pre: seq<Bits>, k: Bits, l: Bits, post: seq<Bits>, width: nat)
    requires Siblings(k, l) && |l| <= width
    ensures SameCover(pre + [k, l] + post, pre + [Parent(k)] + post, width)
  {
    var s, t, n := pre + [k, l] + post, pre + [Parent(k)] + post, |pre|;
    SiblingsOfParent(k, l);
    forall a: Bits | |a| == width
      ensures Covers(s, a) <==> Covers(t, a)
    {
      CoversSplit(pre, [k, l] + post, a);
      CoversSplit([k, l], post, a);
      CoversSplit(pre, [Parent(k)] + post, a);
      CoversSplit([Parent(k)], post, a);
      assert s == pre + ([k, l] + post) && t == pre + ([Parent(k)] + post);
      assert Covers([k, l], a) <==> k <= a || l <= a by {
        assert [k, l][0] == k && [k, l][1] == l;
      }
      assert Covers([Parent(k)], a) <==> Parent(k) <= a by {
        assert [Parent(k)][0] == Parent(k);
      }
      if Parent(k) <= a {
        assert if a[|k| - 1] then l <= a else k <= a;
      }
    }
  }

  lemma CoversSplit(s: seq<Bits>, t: seq<Bits>, a: Bits)
    ensures Covers(s + t, a) <==> Covers(s, a) || Covers(t, a)
  {
    if i :| 0 <= i < |s + t| && (s + t)[i] <= a {
      assert if i < |s| then s[i] <= a else t[i - |s|] <= a;
    }
    if i :| 0 <= i < |s| && s[i] <= a { assert (s + t)[i] <= a; }
    if i :| 0 <= i < |t| && t[i] <= a { assert (s + t)[|s| + i] <= a; }
  }

  // ----- Siblings in a tidy list are neighbours -----

  lemma BetweenSiblings(k: Bits, x: Bits, l: Bits)
    requires Siblings(k, l) && BitsLe(k, x) && BitsLe(x, l)
    ensures k <= x || x <= l || l <= x
  {
    SiblingsOfParent(k, l);
    if !(k <= x) {
      var d := OrderedDiffer(k, x);
      if d == |k| - 1 {
        assert l == x[..d + 1];
      } else if !(x <= l) {
        assert k[..d] == l[..d] && k[d] == l[d];
        assert DifferAt(x, l, d);
        var e := OrderedDiffer(x, l);
        DifferOnce(x, l, d, e);
      }
    }
  }

  lemma SiblingsAdjacent(s: seq<Bits>, width: nat, i: nat, j: nat)
    requires Tidy(s, width) && i < |s| && j < |s| && Siblings(s[i], s[j])
    ensures j == i + 1
  {
    if j < i {
      assert Before(s, j, i);
      SiblingsOrdered(s[i], s[j]);
      BitsLeAntisymmetric(s[i], s[j]);
    } else if i + 1 < j {
      assert Before(s, i, i + 1) && Before(s, i + 1, j) && ApartAt(s, i, i + 1) && ApartAt(s, i + 1, j);
      BetweenSiblings(s[i], s[i + 1], s[j]);
    }
  }

  lemma SiblingsOrdered(k: Bits, l: Bits)
    requires Siblings(k, l)
    ensures BitsLe(k, l)
  {
    assert DifferAt(k, l, |k| - 1);
  }

  // ----- How long the siblings left can be -----

  /** Every sibling pair has length at most `m`. */
  ghost predicate SiblingsAtMost(s: seq<Bits>, m: int) {
    forall i: nat, j: nat :: i < |s| && j < |s| && SiblingsAt(s, i, j) ==> |s[i]| <= m
  }

  /** Halfway through a pass over `s`: `out` is what has been written, `s[i..]` what is still to come. */
  ghost predicate MidPass(s: seq<Bits>, out: seq<Bits>, i: nat, width: nat, m: int) {
    && i <= |s|
    && Tidy(out + s[i..], width) && SameCover(out + s[i..], s, width)
    && SiblingsAtMost(out, m - 1)
    && (forall k :: 0 <= k < |out| ==> |out[k]| <= m - 1 || out[k] in s)
  }

  /** The pass copies the next entry when it is no sibling of the last one written. */
  lemma PassCopies(s: seq<Bits>, out: seq<Bits>, i: nat, width: nat, m: int)
    requires MidPass(s, out, i, width, m) && i < |s|
    requires out != [] ==> !Siblings(out[|out| - 1], s[i])
    ensures MidPass(s, out + [s[i]], i + 1, width, m)
  {
    var now, all := out + [s[i]], out + s[i..];
    assert all == now + s[i + 1..];
    forall j: nat, k: nat | j < |now| && k < |now| && SiblingsAt(now, j, k)
      ensures |now[j]| <= m - 1
    {
      assert all[j] == now[j] && all[k] == now[k];
      SiblingsAdjacent(all, width, j, k);
      assert out[j] == now[j];
      assert k < |out| ==> SiblingsAt(out, j, k);
    }
  }

  /** The pass merges: the parent replaces the last entry written. */
  lemma PassMerges(s: seq<Bits>, out: seq<Bits>, i: nat, width: nat, m: int)
    requires MidPass(s, out, i, width, m) && i < |s| && SiblingsAtMost(s, m)
    requires out != [] && Siblings(out[|out| - 1], s[i])
    ensures m >= 1
    ensures MidPass(s, out[..|out| - 1] + [Parent(s[i])], i + 1, width, m)
  {
    var n := |out| - 1;
    var pre, k, l, post := out[..n], out[n], s[i], s[i + 1..];
    SiblingsOfParent(k, l);
    assert out + s[i..] == pre + [k, l] + post;
    assert (out + s[i..])[|out|] == l;
    if k in s {
      var j :| 0 <= j < |s| && s[j] == k;
      assert SiblingsAt(s, j, i);
    }
    assert |k| <= m;
    MergeKeepsTidy(pre, k, l, post, width);
    MergeKeepsCover(pre, k, l, post, width);
    assert Parent(k) == Parent(l);
    var now := pre + [Parent(l)];
    assert now + post == pre + [Parent(k)] + post;
    forall a: nat, b: nat | a < |now| && b < |now| && SiblingsAt(now, a, b)
      ensures |now[a]| <= m - 1
    {
      if a < n && b < n {
        assert SiblingsAt(out, a, b);
      }
    }
  }

  /** Entries `i` and `i + 1` are siblings. */
  ghost predicate MergeableAt(s: seq<Bits>, i: nat)
    requires i + 1 < |s|
  {
    Siblings(s[i], s[i + 1])
  }

  /** A list without mergeable neighbours is in normal form. */
  lemma NothingMerged(s: seq<Bits>, width: nat)
    requires Tidy(s, width) && forall i: nat :: i + 1 < |s| ==> !MergeableAt(s, i)
    ensures NormalForm(s, width)
  {
    forall i: nat, j: nat | i < |s| && j < |s|
      ensures !SiblingsAt(s, i, j)
    {
      assert i + 1 < |s| ==> !MergeableAt(s, i);
      if Siblings(s[i], s[j]) {
        SiblingsAdjacent(s, width, i, j);
      }
    }
  }
}
