/** `cidr_bulk_aggregate`: sort, drop duplicates, drop covered prefixes, merge siblings, in place. */
module Aggregation {
  import opened BitStrings
  import opened Bytes
  import opened Prefixes
  import opened Masking
  import opened BulkSort
  import opened BulkContains
  import opened Cover
  import opened SiblingMerge

  ghost function KeysOf(ps: seq<Prefix>, len: nat): (ks: seq<Bits>)
    requires AllValid(ps, len)
    ensures |ks| == |ps| && Short(ks, 8 * len) && forall i :: 0 <= i < |ps| ==> ks[i] == Key(ps[i])
  {
    seq(|ps|, i requires 0 <= i < |ps| => Key(ps[i]))
  }

  /** Order by key, repeats allowed. */
  ghost predicate Sorted(ks: seq<Bits>) {
    forall i: nat, j: nat :: i < j < |ks| ==> NoLater(ks, i, j)
  }

  ghost predicate NoLater(ks: seq<Bits>, i: nat, j: nat)
    requires i < |ks| && j < |ks|
  {
    BitsLe(ks[i], ks[j])
  }

  /** A filter pass halfway: `out` has been kept from the first `i` entries of `s`. */
  ghost predicate Kept(out: seq<Bits>, s: seq<Bits>, i: nat, width: nat) {
    && 1 <= i <= |s| && 1 <= |out| <= i
    && Ascending(out) && SameCover(out, s[..i], width)
    && BitsLe(out[|out| - 1], s[i - 1])
  }

  lemma KeptFirst(s: seq<Bits>, width: nat)
    requires |s| >= 1
    ensures Kept([s[0]], s, 1, width)
  {
    assert s[..1] == [s[0]];
  }

  /** The next entry lies inside the last one kept: skip it. */
  lemma KeptSkips(out: seq<Bits>, s: seq<Bits>, i: nat, width: nat)
    requires Kept(out, s, i, width) && i < |s| && out[|out| - 1] <= s[i]
    ensures Kept(out, s, i + 1, width)
  {
    assert s[..i + 1] == s[..i] + [s[i]];
    forall a: Bits | |a| == width
      ensures Covers(out, a) <==> Covers(s[..i + 1], a)
    {
      CoversSplit(s[..i], [s[i]], a);
      if Covers([s[i]], a) {
        assert [s[i]][0] == s[i] && out[|out| - 1] <= a;
      }
    }
  }

  /** The next entry is new: keep it. */
  lemma KeptAppends(out: seq<Bits>, s: seq<Bits>, i: nat, width: nat)
    requires Kept(out, s, i, width) && i < |s| && Sorted(s) && out[|out| - 1] != s[i]
    ensures Kept(out + [s[i]], s, i + 1, width)
  {
    var now, last := out + [s[i]], out[|out| - 1];
    assert s[..i + 1] == s[..i] + [s[i]];
    LastBefore(out, s, i, width);
    forall j: nat, k: nat | j < k < |now|
      ensures Before(now, j, k)
    {
      if k < |out| {
        assert Before(out, j, k);
      } else if j < |out| - 1 {
        assert Before(out, j, |out| - 1);
        BitsLeTransitive(out[j], last, s[i]);
        if out[j] == s[i] {
          BitsLeAntisymmetric(last, s[i]);
        }
      }
    }
    forall a: Bits | |a| == width
      ensures Covers(now, a) <==> Covers(s[..i + 1], a)
    {
      CoversSplit(s[..i], [s[i]], a);
      CoversSplit(out, [s[i]], a);
    }
  }

  lemma LastBefore(out: seq<Bits>, s: seq<Bits>, i: nat, width: nat)
    requires Kept(out, s, i, width) && i < |s| && Sorted(s)
    ensures BitsLe(out[|out| - 1], s[i])
  {
    assert NoLater(s, i - 1, i);
    BitsLeTransitive(out[|out| - 1], s[i - 1], s[i]);
  }

  /** Keys between a prefix and something inside it are inside it too. */
  lemma InsideConvex(x: Bits, y: Bits, z: Bits)
    requires BitsLe(x, y) && BitsLe(y, z) && x <= z
    ensures x <= y
  {
    if !(x <= y) {
      var d := OrderedDiffer(x, y);
      if y <= z {
        DifferExtends(x, y, z, d);
        DifferNotPrefix(x, z, d);
      } else {
        var e := OrderedDiffer(y, z);
        DifferTransitive(x, y, z, d, e);
        DifferNotPrefix(x, z, if d < e then d else e);
      }
    }
  }

  lemma AppendDisjoint(out: seq<Bits>, k: Bits)
    requires Ascending(out) && Disjoint(out) && |out| >= 1
    requires BitsLe(out[|out| - 1], k) && out[|out| - 1] != k && !(out[|out| - 1] <= k)
    ensures Disjoint(out + [k])
  {
    var last, now := out[|out| - 1], out + [k];
    forall i: nat, j: nat | i < j < |now|
      ensures ApartAt(now, i, j)
    {
      if j < |out| {
        assert ApartAt(out, i, j);
      } else if i < |out| - 1 {
        assert Before(out, i, |out| - 1) && ApartAt(out, i, |out| - 1);
        ApartFromLater(out[i], last, k);
      } else {
        NotInsideEarlier(last, k);
      }
    }
  }

  lemma NotInsideEarlier(x: Bits, k: Bits)
    requires BitsLe(x, k) && x != k
    ensures !(k <= x)
  {
    if k <= x {
      BitsLeAntisymmetric(k, x);
    }
  }

  lemma ApartFromLater(x: Bits, last: Bits, k: Bits)
    requires BitsLe(x, last) && BitsLe(last, k) && Apart(x, last)
    ensures Apart(x, k)
  {
    BitsLeTransitive(x, last, k);
    if x <= k {
      InsideConvex(x, last, k);
    } else if k <= x {
      BitsLeAntisymmetric(k, x);
    }
  }

  /** Entry `i` is valid and has the key `ks[i]`. */
  ghost predicate EntryOk(a: seq<Prefix>, len: nat, fam: nat, ks: seq<Bits>, i: nat)
    requires i < |a| && i < |ks|
  {
    ValidPrefix(a[i], len) && a[i].family == fam && Key(a[i]) == ks[i]
  }

  /** The first `n` entries are valid and have the keys `ks`. */
  ghost predicate Holding(a: seq<Prefix>, n: nat, len: nat, fam: nat, ks: seq<Bits>) {
    n <= |a| && |ks| == n && forall i: nat :: i < n ==> EntryOk(a, len, fam, ks, i)
  }

  /** The filter loops at entry `i`: `writeIdx` is the last place written, the rest is untouched. */
  ghost predicate Filtering(s: seq<Prefix>, a: seq<Prefix>, count: nat, writeIdx: nat, i: nat, len: nat, fam: nat,
      ks: seq<Bits>, kept: seq<Bits>)
  {
    && writeIdx < i <= count <= |s| == |a| && a[i..] == s[i..]
    && Holding(s, count, len, fam, ks) && Holding(a, writeIdx + 1, len, fam, kept) && Kept(kept, ks, i, 8 * len)
  }

  lemma FilteringStarts(s: seq<Prefix>, count: nat, len: nat, fam: nat, ks: seq<Bits>)
    requires 1 <= count && Holding(s, count, len, fam, ks)
    ensures Filtering(s, s, count, 0, 1, len, fam, ks, [ks[0]])
  {
    assert EntryOk(s, len, fam, ks, 0);
    KeptFirst(ks, 8 * len);
  }

  lemma FilteringAt(s: seq<Prefix>, a: seq<Prefix>, count: nat, writeIdx: nat, i: nat, len: nat, fam: nat,
      ks: seq<Bits>, kept: seq<Bits>)
    requires Filtering(s, a, count, writeIdx, i, len, fam, ks, kept) && i < count && Sorted(ks)
    ensures |ks| == count && |kept| == writeIdx + 1
    ensures ValidPrefix(a[writeIdx], len) && Key(a[writeIdx]) == kept[writeIdx]
    ensures ValidPrefix(a[i], len) && a[i].family == fam && Key(a[i]) == ks[i]
    ensures BitsLe(kept[writeIdx], ks[i])
  {
    assert EntryOk(a, len, fam, kept, writeIdx) && EntryOk(s, len, fam, ks, i);
    assert a[i..][0] == s[i..][0];
    LastBefore(kept, ks, i, 8 * len);
  }

  lemma FilteringSkips(s: seq<Prefix>, a: seq<Prefix>, count: nat, writeIdx: nat, i: nat, len: nat, fam: nat,
      ks: seq<Bits>, kept: seq<Bits>)
    requires Filtering(s, a, count, writeIdx, i, len, fam, ks, kept) && i < count
    requires |ks| == count && kept[|kept| - 1] <= ks[i]
    ensures Filtering(s, a, count, writeIdx, i + 1, len, fam, ks, kept)
  {
    KeptSkips(kept, ks, i, 8 * len);
    assert a[i + 1..] == a[i..][1..] && s[i + 1..] == s[i..][1..];
  }

  /** The write of the filter loops: the next entry joins the kept ones. */
  method KeepEntry(prefixes: array<Prefix>, count: nat, writeIdx: nat, i: nat, len: nat, ghost fam: nat,
      ghost s: seq<Prefix>, ghost ks: seq<Bits>, ghost kept: seq<Bits>)
    requires Filtering(s, prefixes[..], count, writeIdx, i, len, fam, ks, kept) && i < count && Sorted(ks)
    requires kept[|kept| - 1] != ks[i]
    modifies prefixes
    ensures Filtering(s, prefixes[..], count, writeIdx + 1, i + 1, len, fam, ks, kept + [ks[i]])
  {
    ghost var a := prefixes[..];
    FilteringAt(s, a, count, writeIdx, i, len, fam, ks, kept);
    KeptAppends(kept, ks, i, 8 * len);
    if writeIdx + 1 != i {
      prefixes[writeIdx + 1] := prefixes[i];
    }
    assert prefixes[..] == a[writeIdx + 1 := a[i]];
    AppendHolding(a, writeIdx + 1, len, fam, kept, a[i]);
    assert prefixes[..][i + 1..] == a[i..][1..] && s[i + 1..] == s[i..][1..];
  }

  /** Writing `q` as the next entry. */
  lemma AppendHolding(a: seq<Prefix>, n: nat, len: nat, fam: nat, ks: seq<Bits>, q: Prefix)
    requires Holding(a, n, len, fam, ks) && n < |a| && ValidPrefix(q, len) && q.family == fam
    ensures Holding(a[n := q], n + 1, len, fam, ks + [Key(q)])
  {
    var b, ls := a[n := q], ks + [Key(q)];
    forall i: nat | i <= n
      ensures EntryOk(b, len, fam, ls, i)
    {
      if i < n {
        assert EntryOk(a, len, fam, ks, i);
      }
    }
  }

  /** Step 2: drop exact duplicates. */
  method DropDuplicates(prefixes: array<Prefix>, count: nat, len: nat, ghost fam: nat, ghost ks: seq<Bits>)
      returns (count': nat, ghost kept: seq<Bits>)
    requires 1 <= count <= prefixes.Length && Holding(prefixes[..], count, len, fam, ks) && Sorted(ks)
    modifies prefixes
    ensures 1 <= count' <= count && Holding(prefixes[..], count', len, fam, kept)
    ensures Ascending(kept) && SameCover(kept, ks, 8 * len)
  {
    ghost var s := prefixes[..];
    var writeIdx := 0;
    kept := [ks[0]];
    FilteringStarts(s, count, len, fam, ks);
    for i := 1 to count
      invariant 0 <= writeIdx < i && Filtering(s, prefixes[..], count, writeIdx, i, len, fam, ks, kept)
    {
      writeIdx, kept := KeepDistinct(prefixes, count, writeIdx, i, len, fam, s, ks, kept);
    }
    count' := writeIdx + 1;
    assert ks[..count] == ks;
  }

  /** One entry of the duplicate filter. */
  method KeepDistinct(prefixes: array<Prefix>, count: nat, writeIdx: nat, i: nat, len: nat, ghost fam: nat,
      ghost s: seq<Prefix>, ghost ks: seq<Bits>, ghost kept: seq<Bits>) returns (writeIdx': nat,
      ghost kept': seq<Bits>)
    requires Filtering(s, prefixes[..], count, writeIdx, i, len, fam, ks, kept) && i < count && Sorted(ks)
    modifies prefixes
    ensures Filtering(s, prefixes[..], count, writeIdx', i + 1, len, fam, ks, kept')
  {
    FilteringAt(s, prefixes[..], count, writeIdx, i, len, fam, ks, kept);
    SameKeyEqual(prefixes[writeIdx], prefixes[i], len);
    writeIdx', kept' := writeIdx, kept;
    if !SamePrefix(prefixes[writeIdx], prefixes[i]) {
      KeepEntry(prefixes, count, writeIdx, i, len, fam, s, ks, kept);
      writeIdx' := writeIdx + 1;
      kept' := kept + [ks[i]];
    } else {
      FilteringSkips(s, prefixes[..], count, writeIdx, i, len, fam, ks, kept);
    }
  }

  lemma SameKeyEqual(p: Prefix, q: Prefix, len: nat)
    requires ValidPrefix(p, len) && ValidPrefix(q, len)
    ensures SamePrefix(p, q) <==> Key(p) == Key(q)
  {
    if Key(p) == Key(q) { KeyInjective(p, q, len); }
  }

  /** Step 3: drop prefixes covered by a shorter one. */
  method DropCovered(prefixes: array<Prefix>, count: nat, len: nat, ghost fam: nat, ghost ks: seq<Bits>)
      returns (count': nat, ghost kept: seq<Bits>)
    requires 1 <= count <= prefixes.Length && Holding(prefixes[..], count, len, fam, ks) && Ascending(ks)
    modifies prefixes
    ensures 1 <= count' <= count && Holding(prefixes[..], count', len, fam, kept)
    ensures Tidy(kept, 8 * len) && SameCover(kept, ks, 8 * len)
  {
    ghost var s := prefixes[..];
    var writeIdx := 0;
    kept := [ks[0]];
    FilteringStarts(s, count, len, fam, ks);
    AscendingSorted(ks);
    for i := 1 to count
      invariant 0 <= writeIdx < i && Filtering(s, prefixes[..], count, writeIdx, i, len, fam, ks, kept)
      invariant Disjoint(kept)
    {
      FilteringAt(s, prefixes[..], count, writeIdx, i, len, fam, ks, kept);
      LastStrictlyBefore(kept, ks, i, 8 * len);
      if BulkPrefixContains(prefixes[writeIdx], prefixes[i].addr) {
        InsideByAddress(prefixes[writeIdx], prefixes[i]);
        FilteringSkips(s, prefixes[..], count, writeIdx, i, len, fam, ks, kept);
      } else {
        assert Key(prefixes[i]) <= BitsOf(prefixes[i].addr);
        AppendDisjoint(kept, ks[i]);
        KeepEntry(prefixes, count, writeIdx, i, len, fam, s, ks, kept);
        writeIdx := writeIdx + 1;
        kept := kept + [ks[i]];
      }
    }
    count' := writeIdx + 1;
    assert ks[..count] == ks;
    HoldingShort(prefixes[..], count', len, fam, kept);
  }

  lemma HoldingShort(a: seq<Prefix>, n: nat, len: nat, fam: nat, ks: seq<Bits>)
    requires Holding(a, n, len, fam, ks)
    ensures Short(ks, 8 * len)
  {
    forall i | 0 <= i < |ks|
      ensures |ks[i]| <= 8 * len
    {
      assert EntryOk(a, len, fam, ks, i);
    }
  }

  lemma AscendingSorted(ks: seq<Bits>)
    requires Ascending(ks)
    ensures Sorted(ks)
  {
    forall i: nat, j: nat | i < j < |ks|
      ensures NoLater(ks, i, j)
    {
      assert Before(ks, i, j);
    }
  }

  lemma LastStrictlyBefore(out: seq<Bits>, s: seq<Bits>, i: nat, width: nat)
    requires Kept(out, s, i, width) && i < |s| && Ascending(s)
    ensures out[|out| - 1] != s[i]
  {
    assert Before(s, i - 1, i);
    if out[|out| - 1] == s[i] {
      BitsLeAntisymmetric(s[i], s[i - 1]);
    }
  }

  /** A prefix that contains the network address of a later, different one contains all of it. */
  lemma InsideByAddress(p: Prefix, q: Prefix)
    requires p.pfxlen <= 8 * |p.addr| && q.pfxlen <= 8 * |q.addr| && |p.addr| == |q.addr|
    requires Contains(p, q.addr) && BitsLe(Key(p), Key(q))
    ensures Key(p) <= Key(q)
  {
    Comparable(Key(p), Key(q), BitsOf(q.addr));
    if Key(q) <= Key(p) {
      BitsLeAntisymmetric(Key(p), Key(q));
    }
  }

  // ----- Step 4: the merge passes -----

  /** `prefixes_are_siblings`: equal length above zero and the same bits but the last. */
  predicate PrefixesAreSiblings(p: Prefix, q: Prefix)
    requires |p.addr| == |q.addr| && p.pfxlen <= 8 * |p.addr|
  {
    p.pfxlen == q.pfxlen && p.pfxlen != 0 && p.family == q.family &&
    var full, rem := (p.pfxlen - 1) / 8, (p.pfxlen - 1) % 8;
    p.addr[..full] == q.addr[..full] &&
    (rem > 0 ==> HighBits(p.addr[full], rem) == HighBits(q.addr[full], rem))
  }

  lemma SiblingsTest(p: Prefix, q: Prefix, len: nat)
    requires ValidPrefix(p, len) && ValidPrefix(q, len) && p.family == q.family
    requires BitsLe(Key(p), Key(q)) && Key(p) != Key(q)
    ensures PrefixesAreSiblings(p, q) <==> Siblings(Key(p), Key(q))
  {
    if p.pfxlen == q.pfxlen && p.pfxlen > 0 {
      var n := p.pfxlen - 1;
      AgreeByBytes(p.addr, q.addr, n / 8, n % 8);
      assert Key(p)[..n] == BitsOf(p.addr)[..n] && Key(q)[..n] == BitsOf(q.addr)[..n];
      if Key(p)[..n] == Key(q)[..n] {
        SameParentDiffers(Key(p), Key(q));
      }
    }
  }

  lemma SameParentDiffers(k: Bits, l: Bits)
    requires |k| == |l| > 0 && k[..|k| - 1] == l[..|l| - 1] && BitsLe(k, l) && k != l
    ensures Siblings(k, l)
  {
    var n := |k| - 1;
    assert k == k[..n] + [k[n]] && l == l[..n] + [l[n]];
    var d := OrderedDiffer(k, l);
    assert DifferAt(k, l, n);
    DifferOnce(k, l, d, n);
  }

  /** A merge pass at entry `i`: the first `n` places hold `out`, the rest is untouched. */
  ghost predicate Merging(s: seq<Prefix>, a: seq<Prefix>, count: nat, n: nat, i: nat, len: nat, fam: nat,
      ks: seq<Bits>, out: seq<Bits>, m: int, merged: bool)
  {
    && n <= i <= count <= |s| == |a| && a[i..] == s[i..]
    && Holding(s, count, len, fam, ks) && Holding(a, n, len, fam, out)
    && MidPass(ks, out, i, 8 * len, m) && SiblingsAtMost(ks, m)
    && (!merged ==> n == i && out == ks[..i] && forall j: nat :: j + 1 < i ==> !MergeableAt(ks, j))
    && (merged ==> m >= 1 && n < i)
  }

  lemma MergingStarts(s: seq<Prefix>, count: nat, len: nat, fam: nat, ks: seq<Bits>, m: int)
    requires Holding(s, count, len, fam, ks) && Tidy(ks, 8 * len) && SiblingsAtMost(ks, m)
    ensures Merging(s, s, count, 0, 0, len, fam, ks, [], m, false)
  {
    assert [] + ks[0..] == ks;
  }

  /** Entries around the pass's position. */
  lemma MergingAt(s: seq<Prefix>, a: seq<Prefix>, count: nat, n: nat, i: nat, len: nat, fam: nat, ks: seq<Bits>,
      out: seq<Bits>, m: int, merged: bool)
    requires Merging(s, a, count, n, i, len, fam, ks, out, m, merged) && i < count
    ensures |ks| == count && |out| == n && ValidPrefix(a[i], len) && a[i].family == fam && Key(a[i]) == ks[i]
    ensures n > 0 ==> ValidPrefix(a[n - 1], len) && a[n - 1].family == fam && Key(a[n - 1]) == out[n - 1]
    ensures n > 0 ==> BitsLe(out[n - 1], ks[i]) && out[n - 1] != ks[i]
  {
    assert EntryOk(s, len, fam, ks, i) && a[i..][0] == s[i..][0];
    if n > 0 {
      assert EntryOk(a, len, fam, out, n - 1);
      var all := out + ks[i..];
      assert Before(all, n - 1, n);
    }
  }

  lemma {:induction false} Copied(s: seq<Prefix>, a: seq<Prefix>, b: seq<Prefix>, count: nat, n: nat, i: nat, len: nat,
      fam: nat, ks: seq<Bits>, out: seq<Bits>, m: int, merged: bool)
    requires Merging(s, a, count, n, i, len, fam, ks, out, m, merged) && i < count && |ks| == count && |out| == n
    requires b == a[n := a[i]] && (n > 0 ==> !Siblings(out[n - 1], ks[i]))
    ensures Merging(s, b, count, n + 1, i + 1, len, fam, ks, out + [ks[i]], m, merged)
  {
    MergingAt(s, a, count, n, i, len, fam, ks, out, m, merged);
    PassCopies(ks, out, i, 8 * len, m);
    AppendHolding(a, n, len, fam, out, a[i]);
    assert b[i + 1..] == a[i..][1..] && s[i + 1..] == s[i..][1..];
    if !merged {
      assert ks[..i + 1] == ks[..i] + [ks[i]];
      assert i > 0 ==> !MergeableAt(ks, i - 1);
    }
  }

  /** The copying branch of a merge pass. */
  method CopyEntry(prefixes: array<Prefix>, count: nat, n: nat, i: nat, len: nat, ghost fam: nat, ghost s: seq<Prefix>,
      ghost ks: seq<Bits>, ghost out: seq<Bits>, ghost m: int, ghost merged: bool)
    requires Merging(s, prefixes[..], count, n, i, len, fam, ks, out, m, merged) && i < count
    requires |ks| == count && |out| == n && (n > 0 ==> !Siblings(out[n - 1], ks[i]))
    modifies prefixes
    ensures Merging(s, prefixes[..], count, n + 1, i + 1, len, fam, ks, out + [ks[i]], m, merged)
  {
    ghost var a := prefixes[..];
    if n != i {
      prefixes[n] := prefixes[i];
    }
    ghost var b := prefixes[..];
    assert b == a[n := a[i]];
    Copied(s, a, b, count, n, i, len, fam, ks, out, m, merged);
  }

  lemma {:induction false} Merged(s: seq<Prefix>, a: seq<Prefix>, b: seq<Prefix>, count: nat, n: nat, i: nat, len: nat,
      fam: nat, ks: seq<Bits>, out: seq<Bits>, m: int, merged: bool, super: Prefix)
    requires Merging(s, a, count, n, i, len, fam, ks, out, m, merged) && i < count && |ks| == count && |out| == n
    requires n > 0 && Siblings(out[n - 1], ks[i]) && b == a[n - 1 := super]
    requires ValidPrefix(super, len) && super.family == fam && Key(super) == Parent(ks[i])
    ensures Merging(s, b, count, n, i + 1, len, fam, ks, out[..n - 1] + [Parent(ks[i])], m, true)
  {
    PassMerges(ks, out, i, 8 * len, m);
    DropLast(a, n, len, fam, out);
    AppendHolding(a, n - 1, len, fam, out[..n - 1], super);
    assert b[i + 1..] == a[i..][1..] && s[i + 1..] == s[i..][1..];
  }

  /** The merging branch of a merge pass. */
  method MergeEntry(prefixes: array<Prefix>, count: nat, n: nat, i: nat, len: nat, ghost fam: nat,
      ghost s: seq<Prefix>, ghost ks: seq<Bits>, ghost out: seq<Bits>, ghost m: int, ghost merged: bool)
    requires Merging(s, prefixes[..], count, n, i, len, fam, ks, out, m, merged) && i < count
    requires |ks| == count && |out| == n && n > 0 && Siblings(out[n - 1], ks[i])
    modifies prefixes
    ensures Merging(s, prefixes[..], count, n, i + 1, len, fam, ks, out[..n - 1] + [Parent(ks[i])], m, true)
  {
    ghost var a := prefixes[..];
    MergingAt(s, a, count, n, i, len, fam, ks, out, m, merged);
    var super := SupernetInto(prefixes[i]);
    prefixes[n - 1] := super;
    ghost var b := prefixes[..];
    assert b == a[n - 1 := super];
    Merged(s, a, b, count, n, i, len, fam, ks, out, m, merged, super);
  }

  lemma DropLast(a: seq<Prefix>, n: nat, len: nat, fam: nat, ks: seq<Bits>)
    requires Holding(a, n, len, fam, ks) && n > 0
    ensures Holding(a, n - 1, len, fam, ks[..n - 1])
  {
    var ls := ks[..n - 1];
    forall i: nat | i < n - 1
      ensures EntryOk(a, len, fam, ls, i)
    {
      assert EntryOk(a, len, fam, ks, i);
    }
  }

  /** One pass: merges every sibling pair present at its start, so the longest one gets shorter. */
  method MergePass(prefixes: array<Prefix>, count: nat, len: nat, ghost fam: nat, ghost ks: seq<Bits>, ghost m: int)
      returns (count': nat, merged: bool, ghost out: seq<Bits>)
    requires count <= prefixes.Length && Holding(prefixes[..], count, len, fam, ks)
    requires Tidy(ks, 8 * len) && SiblingsAtMost(ks, m)
    modifies prefixes
    ensures count' <= count && Holding(prefixes[..], count', len, fam, out)
    ensures Tidy(out, 8 * len) && SameCover(out, ks, 8 * len) && SiblingsAtMost(out, m - 1)
    ensures merged ==> m >= 1 && count' < count
    ensures !merged ==> NormalForm(out, 8 * len)
  {
    ghost var s := prefixes[..];
    merged := false;
    var writeIdx := 0;
    out := [];
    MergingStarts(s, count, len, fam, ks, m);
    for i := 0 to count
      invariant writeIdx >= 0 && Merging(s, prefixes[..], count, writeIdx, i, len, fam, ks, out, m, merged)
    {
      writeIdx, merged, out := MergeStep(prefixes, count, writeIdx, i, len, fam, merged, s, ks, out, m);
    }
    count' := writeIdx;
    MergingEnds(s, prefixes[..], count, writeIdx, len, fam, ks, out, m, merged);
  }

  lemma MergingEnds(s: seq<Prefix>, a: seq<Prefix>, count: nat, n: nat, len: nat, fam: nat, ks: seq<Bits>,
      out: seq<Bits>, m: int, merged: bool)
    requires Merging(s, a, count, n, count, len, fam, ks, out, m, merged) && Tidy(ks, 8 * len)
    ensures Tidy(out, 8 * len) && SameCover(out, ks, 8 * len) && SiblingsAtMost(out, m - 1)
    ensures !merged ==> NormalForm(out, 8 * len)
  {
    assert out + ks[count..] == out;
    if !merged {
      assert ks[..count] == ks;
      NothingMerged(ks, 8 * len);
    }
  }

  /** The body of the pass: merge into the last entry written, or copy. */
  method MergeStep(prefixes: array<Prefix>, count: nat, writeIdx: nat, i: nat, len: nat, ghost fam: nat, merged: bool,
      ghost s: seq<Prefix>, ghost ks: seq<Bits>, ghost out: seq<Bits>, ghost m: int) returns (writeIdx': nat,
      merged': bool, ghost out': seq<Bits>)
    requires Merging(s, prefixes[..], count, writeIdx, i, len, fam, ks, out, m, merged) && i < count
    modifies prefixes
    ensures Merging(s, prefixes[..], count, writeIdx', i + 1, len, fam, ks, out', m, merged')
  {
    MergingAt(s, prefixes[..], count, writeIdx, i, len, fam, ks, out, m, merged);
    if writeIdx > 0 {
      SiblingsTest(prefixes[writeIdx - 1], prefixes[i], len);
    }
    if writeIdx > 0 && PrefixesAreSiblings(prefixes[writeIdx - 1], prefixes[i]) {
      MergeEntry(prefixes, count, writeIdx, i, len, fam, s, ks, out, m, merged);
      writeIdx', merged', out' := writeIdx, true, out[..writeIdx - 1] + [Parent(ks[i])];
    } else {
      CopyEntry(prefixes, count, writeIdx, i, len, fam, s, ks, out, m, merged);
      writeIdx', merged', out' := writeIdx + 1, merged, out + [ks[i]];
    }
  }

  // ----- The whole aggregation -----

  /** The merge loop: at most one pass per prefix length, plus the pass that finds nothing. */
  method MergeAll(prefixes: array<Prefix>, count: nat, len: nat, ghost fam: nat, ghost ks: seq<Bits>)
      returns (count': nat, ghost out: seq<Bits>, ghost passes: nat)
    requires count <= prefixes.Length && Holding(prefixes[..], count, len, fam, ks) && Tidy(ks, 8 * len)
    modifies prefixes
    ensures count' <= count && Holding(prefixes[..], count', len, fam, out)
    ensures NormalForm(out, 8 * len) && SameCover(out, ks, 8 * len)
    ensures 1 <= passes <= 8 * len + 1
  {
    count', out, passes := count, ks, 0;
    ghost var width := 8 * len;
    ShortSiblings(ks, width);
    var merged := true;
    while merged
      invariant count' <= count && Holding(prefixes[..], count', len, fam, out)
      invariant Tidy(out, width) && SameCover(out, ks, width)
      invariant SiblingsAtMost(out, width - passes) && passes <= width + 1
      invariant merged ==> passes <= width
      invariant !merged ==> passes >= 1 && NormalForm(out, width)
      decreases merged, count'
    {
      ghost var was := out;
      count', merged, out := MergePass(prefixes, count', len, fam, out, width - passes);
      SameCoverChain(out, was, ks, width);
      passes := passes + 1;
    }
  }

  lemma ShortSiblings(ks: seq<Bits>, width: nat)
    requires Short(ks, width)
    ensures SiblingsAtMost(ks, width)
  {
  }

  lemma SameCoverChain(s: seq<Bits>, t: seq<Bits>, u: seq<Bits>, width: nat)
    requires SameCover(s, t, width) && SameCover(t, u, width)
    ensures SameCover(s, u, width)
  {
  }

  /** `out` is the aggregate of `src`: valid prefixes of the family, in normal form, that cover the same
      addresses. */
  ghost predicate IsAggregate(src: seq<Prefix>, out: seq<Prefix>, len: nat, fam: nat)
    requires AllValid(src, len)
  {
    && AllValid(out, len) && SameFamily(out, fam)
    && NormalForm(KeysOf(out, len), 8 * len)
    && SameCover(KeysOf(out, len), KeysOf(src, len), 8 * len)
  }

  ghost predicate SameFamily(ps: seq<Prefix>, fam: nat) {
    forall i :: 0 <= i < |ps| ==> ps[i].family == fam
  }

  lemma HoldingKeys(a: seq<Prefix>, n: nat, len: nat, fam: nat, ks: seq<Bits>)
    requires Holding(a, n, len, fam, ks)
    ensures AllValid(a[..n], len) && SameFamily(a[..n], fam) && KeysOf(a[..n], len) == ks
  {
    forall i | 0 <= i < n
      ensures ValidPrefix(a[..n][i], len) && a[..n][i].family == fam && Key(a[..n][i]) == ks[i]
    {
      assert EntryOk(a, len, fam, ks, i);
    }
    assert |KeysOf(a[..n], len)| == |ks|;
  }

  /** Sorting keeps validity and the covered set, and puts the keys in order. */
  lemma SortedHolds(s: seq<Prefix>, t: seq<Prefix>, len: nat, fam: nat)
    requires multiset(s) == multiset(t) && AllValid(s, len) && SameFamily(s, fam) && NetworkSorted(t)
    ensures AllValid(t, len) && Holding(t, |t|, len, fam, KeysOf(t, len)) && Sorted(KeysOf(t, len))
    ensures SameCover(KeysOf(t, len), KeysOf(s, len), 8 * len)
  {
    forall i: nat | i < |t|
      ensures ValidPrefix(t[i], len) && t[i].family == fam
    {
      var j := FindIn(t, s, i);
    }
    var ks := KeysOf(t, len);
    assert forall i: nat | i < |t| :: EntryOk(t, len, fam, ks, i);
    forall i: nat, j: nat | i < j < |t|
      ensures NoLater(ks, i, j)
    {
      NetworkOrder(t[i], t[j], len);
    }
    forall a: Bits | |a| == 8 * len
      ensures Covers(ks, a) <==> Covers(KeysOf(s, len), a)
    {
      PermutedCovers(s, t, len, a);
      PermutedCovers(t, s, len, a);
    }
  }

  lemma FindIn<T>(t: seq<T>, s: seq<T>, i: nat) returns (j: nat)
    requires multiset(s) == multiset(t) && i < |t|
    ensures j < |s| && s[j] == t[i]
  {
    assert t[i] in multiset(t);
    assert t[i] in s;
    j :| 0 <= j < |s| && s[j] == t[i];
  }

  lemma PermutedCovers(s: seq<Prefix>, t: seq<Prefix>, len: nat, a: Bits)
    requires multiset(s) == multiset(t) && AllValid(s, len) && AllValid(t, len)
    ensures Covers(KeysOf(s, len), a) ==> Covers(KeysOf(t, len), a)
  {
    if Covers(KeysOf(s, len), a) {
      var i :| 0 <= i < |s| && KeysOf(s, len)[i] <= a;
      var j := FindIn(s, t, i);
      assert KeysOf(t, len)[j] <= a;
    }
  }

  /** `cidr_bulk_aggregate`. */
  method Aggregate(prefixes: array<Prefix>, len: nat, ghost fam: nat) returns (outCount: nat, ghost passes: nat)
    requires AllValid(prefixes[..], len) && SameFamily(prefixes[..], fam)
    modifies prefixes
    ensures outCount <= prefixes.Length && IsAggregate(old(prefixes[..]), prefixes[..outCount], len, fam)
    ensures passes <= 8 * len + 1
  {
    ghost var src := prefixes[..];
    if prefixes.Length == 0 {
      assert src == [];
      return 0, 0;
    }
    SortNetwork(prefixes, len);
    SortedHolds(src, prefixes[..], len, fam);
    ghost var sorted := KeysOf(prefixes[..], len);
    var count;
    ghost var ks1, ks2, ks3;
    count, ks1 := DropDuplicates(prefixes, prefixes.Length, len, fam, sorted);
    count, ks2 := DropCovered(prefixes, count, len, fam, ks1);
    outCount, ks3, passes := MergeAll(prefixes, count, len, fam, ks2);
    HoldingKeys(prefixes[..], outCount, len, fam, ks3);
    SameCoverChain(ks3, ks2, ks1, 8 * len);
    SameCoverChain(ks3, ks1, sorted, 8 * len);
    SameCoverChain(ks3, sorted, KeysOf(src, len), 8 * len);
    assert prefixes[..][..outCount] == prefixes[..outCount];
  }

  /** The aggregate depends only on the covered set. */
  lemma AggregateUnique(s: seq<Prefix>, t: seq<Prefix>, out: seq<Prefix>, out': seq<Prefix>, len: nat, fam: nat)
    requires AllValid(s, len) && AllValid(t, len) && IsAggregate(s, out, len, fam) && IsAggregate(t, out', len, fam)
    requires SameCover(KeysOf(s, len), KeysOf(t, len), 8 * len)
    ensures out == out'
  {
    SameCoverChain(KeysOf(out, len), KeysOf(s, len), KeysOf(t, len), 8 * len);
    SameCoverChain(KeysOf(out, len), KeysOf(t, len), KeysOf(out', len), 8 * len);
    NormalFormIsUnique(KeysOf(out, len), KeysOf(out', len), 8 * len);
    forall i | 0 <= i < |out|
      ensures out[i] == out'[i]
    {
      assert KeysOf(out, len)[i] == KeysOf(out', len)[i];
      KeyInjective(out[i], out'[i], len);
    }
  }

  /** Aggregating an aggregate changes nothing. */
  lemma AggregateIdempotent(s: seq<Prefix>, out: seq<Prefix>, out': seq<Prefix>, len: nat, fam: nat)
    requires AllValid(s, len) && IsAggregate(s, out, len, fam) && IsAggregate(out, out', len, fam)
    ensures out == out'
  {
    AggregateUnique(s, out, out, out', len, fam);
  }

  /** No valid list of prefixes covers the same addresses with fewer entries. */
  lemma AggregateMinimal(s: seq<Prefix>, out: seq<Prefix>, other: seq<Prefix>, len: nat, fam: nat)
    requires AllValid(s, len) && IsAggregate(s, out, len, fam) && AllValid(other, len)
    requires SameCover(KeysOf(other, len), KeysOf(s, len), 8 * len)
    ensures |out| <= |other|
  {
    SameCoverChain(KeysOf(out, len), KeysOf(s, len), KeysOf(other, len), 8 * len);
    NormalFormIsMinimal(KeysOf(out, len), KeysOf(other, len), 8 * len);
  }
}
