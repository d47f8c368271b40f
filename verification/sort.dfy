/** `cidr_bulk_sort` and `cidr_bulk_contains`. */
module BulkSort {
  import opened BitStrings
  import opened Bytes
  import opened Prefixes
  import opened RadixSort
  import opened SortLaws

  const TAG_BYTES := 4
  const TAG_LIMIT: nat := 0x1_0000_0000

  /** `radix_key_byte` for CIDR_SORT_NETWORK_ASC: address bytes, then the length. */
  function NetworkDigit(p: Prefix, pos: nat): Byte {
    if pos < |p.addr| then p.addr[pos] else p.pfxlen
  }

  /** `radix_key_byte` for CIDR_SORT_PFXLEN_DESC: the complemented length, then address bytes. */
  function DescDigit(p: Prefix, pos: nat): Byte {
    if pos == 0 then 255 - p.pfxlen
    else if pos - 1 < |p.addr| then p.addr[pos - 1]
    else 0
  }

  /** `radix_u32_byte` of the tag stored in the family field, most significant byte first. */
  function TagDigit(p: Prefix, pos: nat): Byte {
    if pos < TAG_BYTES then Shr(p.family, 8 * (TAG_BYTES - 1 - pos)) % 256 else 0
  }

  /** Sort key of CIDR_SORT_PFXLEN_DESC. */
  function DescKey(p: Prefix): seq<int> {
    [255 - p.pfxlen] + p.addr
  }

  lemma {:induction false} KeyLeIsLex<T>(x: T, y: T, pos: nat, keyLen: nat, digit: (T, nat) -> Byte, kx: seq<int>,
      ky: seq<int>)
    requires pos <= keyLen == |kx| == |ky| && kx[..pos] == ky[..pos]
    requires forall k: nat :: k < keyLen ==> digit(x, k) == kx[k] && digit(y, k) == ky[k]
    ensures KeyLe(x, y, pos, keyLen, digit) <==> LexLe(kx, ky)
    decreases keyLen - pos
  {
    if pos == keyLen {
      assert kx == kx[..pos] && ky == ky[..pos];
    } else if kx[pos] == ky[pos] {
      assert kx[..pos + 1] == kx[..pos] + [kx[pos]] && ky[..pos + 1] == ky[..pos] + [ky[pos]];
      KeyLeIsLex(x, y, pos + 1, keyLen, digit, kx, ky);
    } else {
      assert DifferAt(kx, ky, pos);
      DifferNotPrefix(kx, ky, pos);
      forall d: nat | DifferAt(kx, ky, d)
        ensures d == pos
      {
        DifferOnce(kx, ky, d, pos);
      }
    }
  }

  lemma NetworkKeyLe(p: Prefix, q: Prefix, len: nat)
    requires |p.addr| == |q.addr| == len
    ensures KeyLe(p, q, 0, len + 1, NetworkDigit) <==> LexLe(NetworkKey(p), NetworkKey(q))
  {
    KeyLeIsLex(p, q, 0, len + 1, NetworkDigit, NetworkKey(p), NetworkKey(q));
  }

  lemma DescKeyLe(p: Prefix, q: Prefix, len: nat)
    requires |p.addr| == |q.addr| == len
    ensures KeyLe(p, q, 0, len + 1, DescDigit) <==> LexLe(DescKey(p), DescKey(q))
  {
    KeyLeIsLex(p, q, 0, len + 1, DescDigit, DescKey(p), DescKey(q));
  }

  /** Equal-length prefix arrays in one of the two orders. */
  ghost predicate SameWidth(ps: seq<Prefix>, len: nat) {
    forall i :: 0 <= i < |ps| ==> |ps[i].addr| == len
  }

  ghost predicate NetworkSorted(ps: seq<Prefix>) {
    forall i, j :: 0 <= i < j < |ps| ==> LexLe(NetworkKey(ps[i]), NetworkKey(ps[j]))
  }

  /** `radix_sort_prefixes` in CIDR_SORT_NETWORK_ASC order. */
  method SortNetwork(prefixes: array<Prefix>, len: nat)
    requires SameWidth(prefixes[..], len)
    modifies prefixes
    ensures multiset(prefixes[..]) == multiset(old(prefixes[..]))
    ensures SameWidth(prefixes[..], len) && NetworkSorted(prefixes[..])
    ensures prefixes[..] == SortResult(old(prefixes[..]), 0, prefixes.Length, 0, len + 1, NetworkDigit)
  {
    ghost var was := prefixes[..];
    SortSegment(prefixes, 0, prefixes.Length, 0, len + 1, NetworkDigit);
    ghost var now := prefixes[..];
    WholeRearranged(was, now);
    WidthKept(was, now, len);
    forall i, j | 0 <= i < j < |now|
      ensures LexLe(NetworkKey(now[i]), NetworkKey(now[j]))
    {
      NetworkKeyLe(now[i], now[j], len);
    }
  }

  lemma WholeRearranged<T>(s: seq<T>, t: seq<T>)
    requires Rearranged(s, t, 0, |s|)
    ensures multiset(s) == multiset(t)
  {
    assert s[0..|s|] == s && t[0..|s|] == t;
  }

  lemma WidthKept(s: seq<Prefix>, t: seq<Prefix>, len: nat)
    requires multiset(s) == multiset(t) && SameWidth(s, len)
    ensures SameWidth(t, len)
  {
    forall i | 0 <= i < |t|
      ensures |t[i].addr| == len
    {
      assert t[i] in multiset(t);
      assert t[i] in s;
    }
  }

  // ----- CIDR_SORT_PFXLEN_DESC: stable -----

  /** `p` of input index `i` precedes `q` of input index `j`: longer first, then lower address, and
      among exact duplicates the earlier input. */
  ghost predicate DescBefore(p: Prefix, i: nat, q: Prefix, j: nat) {
    LexLe(DescKey(p), DescKey(q)) && (DescKey(p) == DescKey(q) ==> i < j)
  }

  /** `r` is the stable descending sort of `s`; `order[k]` is the input index of `r[k]`. */
  ghost predicate StableDesc(s: seq<Prefix>, r: seq<Prefix>, order: seq<nat>) {
    && |s| == |r| == |order|
    && (forall k :: 0 <= k < |r| ==> order[k] < |s| && r[k] == s[order[k]])
    && (forall m: nat :: m < |s| ==> m in order)
    && (forall k, l :: 0 <= k < l < |r| ==> DescBefore(r[k], order[k], r[l], order[l]))
  }

  /** The input with every index stashed in the family field. */
  ghost function TagAll(s: seq<Prefix>): (t: seq<Prefix>)
    ensures |t| == |s| && forall i :: 0 <= i < |s| ==> t[i] == s[i].(family := i)
  {
    seq(|s|, i requires 0 <= i < |s| => s[i].(family := i))
  }

  ghost predicate Tagged(s: seq<Prefix>, t: seq<Prefix>) {
    multiset(t) == multiset(TagAll(s))
  }

  lemma TaggedAt(s: seq<Prefix>, t: seq<Prefix>, k: nat)
    requires Tagged(s, t) && k < |t|
    ensures t[k].family < |s| && t[k] == s[t[k].family].(family := t[k].family)
  {
    assert t[k] in multiset(t);
    assert t[k] in TagAll(s);
  }

  lemma TaggedOnto(s: seq<Prefix>, t: seq<Prefix>, m: nat) returns (k: nat)
    requires Tagged(s, t) && m < |s|
    ensures k < |t| && t[k].family == m
  {
    assert TagAll(s)[m] in multiset(TagAll(s));
    assert TagAll(s)[m] in t;
    k :| 0 <= k < |t| && t[k] == TagAll(s)[m];
  }

  lemma TaggedDistinct(s: seq<Prefix>, t: seq<Prefix>, i: nat, j: nat)
    requires Tagged(s, t) && i < j < |t|
    ensures t[i].family != t[j].family
  {
    TaggedAt(s, t, i);
    TaggedAt(s, t, j);
    OnceInMultiset(TagAll(s), t[i]);
    if t[i] == t[j] {
      TwiceInMultiset(t, i, j);
    }
  }

  ghost predicate DescSorted(t: seq<Prefix>) {
    forall i, j :: 0 <= i < j < |t| ==> LexLe(DescKey(t[i]), DescKey(t[j]))
  }

  /** Positions below `n` are in final order, tags included, and no run crosses `n`. */
  ghost predicate RunsDone(t: seq<Prefix>, n: nat) {
    && n <= |t|
    && (forall i, j :: 0 <= i < j < n ==> DescBefore(t[i], t[i].family, t[j], t[j].family))
    && (forall i, j :: 0 <= i < n <= j < |t| ==> DescKey(t[i]) != DescKey(t[j]))
  }

  lemma SamePrefixIsDescKey(p: Prefix, q: Prefix)
    ensures SamePrefix(p, q) <==> DescKey(p) == DescKey(q)
  {
    assert DescKey(p)[0] == 255 - p.pfxlen && DescKey(p)[1..] == p.addr;
    assert DescKey(q)[0] == 255 - q.pfxlen && DescKey(q)[1..] == q.addr;
  }

  /** Rearranging a run of equal keys keeps the keys in place. */
  lemma RunKeepsKeys(t: seq<Prefix>, u: seq<Prefix>, lo: nat, hi: nat, k: nat)
    requires Rearranged(t, u, lo, hi) && lo < hi && k < |t|
    requires forall i :: lo <= i < hi ==> DescKey(t[i]) == DescKey(t[lo])
    ensures DescKey(u[k]) == DescKey(t[k])
  {
    var j := RearrangedAt(t, u, lo, hi, k);
  }

  /** One run sorted by tag: everything up to its end is done. */
  lemma RunSorted(t: seq<Prefix>, u: seq<Prefix>, lo: nat, hi: nat)
    requires DescSorted(t) && RunsDone(t, lo) && lo < hi <= |t| && Rearranged(t, u, lo, hi)
    requires forall i :: lo <= i < hi ==> DescKey(t[i]) == DescKey(t[lo])
    requires hi < |t| ==> DescKey(t[hi]) != DescKey(t[lo])
    requires forall i, j :: lo <= i < j < hi ==> u[i].family < u[j].family
    ensures DescSorted(u) && RunsDone(u, hi)
  {
    forall k: nat | k < |t|
      ensures DescKey(u[k]) == DescKey(t[k]) && (!(lo <= k < hi) ==> u[k] == t[k])
    {
      RunKeepsKeys(t, u, lo, hi, k);
      var j := RearrangedAt(t, u, lo, hi, k);
    }
    forall j | hi <= j < |t|
      ensures DescKey(t[j]) != DescKey(t[lo])
    {
      if DescKey(t[j]) == DescKey(t[lo]) && hi < j {
        assert LexLe(DescKey(t[lo]), DescKey(t[hi])) && LexLe(DescKey(t[hi]), DescKey(t[j]));
        LexLeAntisymmetric(DescKey(t[lo]), DescKey(t[hi]));
      }
    }
  }

  lemma {:induction false} ShrByte(n: nat)
    ensures Shr(n, 8) == n / 256
  {
    var h := n / 2;
    assert Shr(n, 8) == Shr(h, 7);
    assert h / 2 == n / 4 && n / 4 / 2 == n / 8 && n / 8 / 2 == n / 16 && n / 16 / 2 == n / 32;
    assert n / 32 / 2 == n / 64 && n / 64 / 2 == n / 128 && n / 128 / 2 == n / 256;
    assert Shr(h, 7) == Shr(n / 4, 6) == Shr(n / 8, 5) == Shr(n / 16, 4) == Shr(n / 32, 3);
    assert Shr(n / 32, 3) == Shr(n / 64, 2) == Shr(n / 128, 1) == Shr(n / 256, 0);
  }

  lemma {:induction false} ShrMonotone(x: nat, y: nat, s: nat)
    requires x <= y
    ensures Shr(x, s) <= Shr(y, s)
  {
    if s > 0 { ShrMonotone(x / 2, y / 2, s - 1); }
  }

  /** One byte of two numbers whose higher bytes agree. */
  lemma {:induction false} ByteDecides(a: nat, b: nat, shift: nat)
    requires Shr(a, shift + 8) == Shr(b, shift + 8)
    ensures Shr(a, shift) % 256 < Shr(b, shift) % 256 ==> a <= b
    ensures Shr(a, shift) % 256 == Shr(b, shift) % 256 ==> Shr(a, shift) == Shr(b, shift)
  {
    var x, y := Shr(a, shift), Shr(b, shift);
    ShrTwice(a, shift, 8);
    ShrTwice(b, shift, 8);
    ShrByte(x);
    ShrByte(y);
    assert x == 256 * (x / 256) + x % 256 && y == 256 * (y / 256) + y % 256;
    if b < a {
      ShrMonotone(b, a, shift);
    }
  }

  /** With equal leading tag bytes, the remaining tag digits order the tags. */
  lemma {:induction false} TagsAscendFrom(p: Prefix, q: Prefix, pos: nat, shift: nat)
    requires pos <= TAG_BYTES && shift == 8 * (TAG_BYTES - pos)
    requires Shr(p.family, shift) == Shr(q.family, shift) && KeyLe(p, q, pos, TAG_BYTES, TagDigit)
    ensures p.family <= q.family
    decreases shift
  {
    if pos < TAG_BYTES {
      ByteDecides(p.family, q.family, shift - 8);
      if TagDigit(p, pos) == TagDigit(q, pos) {
        TagsAscendFrom(p, q, pos + 1, shift - 8);
      }
    }
  }

  lemma {:induction false} TagsAscend(p: Prefix, q: Prefix)
    requires p.family < TAG_LIMIT && q.family < TAG_LIMIT && KeyLe(p, q, 0, TAG_BYTES, TagDigit)
    ensures p.family <= q.family
  {
    ShrBig(p.family);
    ShrBig(q.family);
    TagsAscendFrom(p, q, 0, 32);
  }

  lemma {:induction false} ShrBig(n: nat)
    requires n < TAG_LIMIT
    ensures Shr(n, 32) == 0
  {
    ShrTwice(n, 8, 24);
    ShrTwice(n / 256, 8, 16);
    ShrTwice(n / 256 / 256, 8, 8);
    ShrByte(n);
    ShrByte(n / 256);
    ShrByte(n / 256 / 256);
    ShrByte(n / 256 / 256 / 256);
  }

  // ----- The two passes -----

  /** `prefixes_prepare_order_tags`. */
  method PrepareTags(prefixes: array<Prefix>)
    requires prefixes.Length < TAG_LIMIT
    modifies prefixes
    ensures prefixes[..] == TagAll(old(prefixes[..]))
  {
    for i := 0 to prefixes.Length
      invariant forall k :: 0 <= k < i ==> prefixes[k] == old(prefixes[k]).(family := k)
      invariant forall k :: i <= k < prefixes.Length ==> prefixes[k] == old(prefixes[k])
    {
      prefixes[i] := prefixes[i].(family := i % TAG_LIMIT);
    }
  }

  /** `prefixes_restore_family`. */
  method RestoreFamily(prefixes: array<Prefix>, family: nat)
    modifies prefixes
    ensures forall k :: 0 <= k < prefixes.Length ==> prefixes[k] == old(prefixes[k]).(family := family)
  {
    for i := 0 to prefixes.Length
      invariant forall k :: 0 <= k < i ==> prefixes[k] == old(prefixes[k]).(family := family)
      invariant forall k :: i <= k < prefixes.Length ==> prefixes[k] == old(prefixes[k])
    {
      prefixes[i] := prefixes[i].(family := family);
    }
  }

  /** The end of the run of equal keys that starts at `runStart`. */
  method FindRun(prefixes: array<Prefix>, runStart: nat) returns (runEnd: nat)
    requires runStart < prefixes.Length
    ensures runStart < runEnd <= prefixes.Length
    ensures forall i :: runStart <= i < runEnd ==> DescKey(prefixes[i]) == DescKey(prefixes[runStart])
    ensures runEnd < prefixes.Length ==> DescKey(prefixes[runEnd]) != DescKey(prefixes[runStart])
  {
    runEnd := runStart + 1;
    while runEnd < prefixes.Length && SamePrefix(prefixes[runStart], prefixes[runEnd])
      invariant runStart < runEnd <= prefixes.Length
      invariant forall i :: runStart <= i < runEnd ==> DescKey(prefixes[i]) == DescKey(prefixes[runStart])
    {
      SamePrefixIsDescKey(prefixes[runStart], prefixes[runEnd]);
      runEnd := runEnd + 1;
    }
    if runEnd < prefixes.Length {
      SamePrefixIsDescKey(prefixes[runStart], prefixes[runEnd]);
    }
  }

  /** The run loop of `prefixes_restore_desc_duplicate_order`: every run is sorted by its tags. */
  method RepairRuns(prefixes: array<Prefix>, ghost s: seq<Prefix>)
    requires Tagged(s, prefixes[..]) && |s| < TAG_LIMIT && DescSorted(prefixes[..])
    modifies prefixes
    ensures Tagged(s, prefixes[..]) && RunsDone(prefixes[..], prefixes.Length)
  {
    var runStart := 0;
    while runStart < prefixes.Length
      invariant Tagged(s, prefixes[..]) && DescSorted(prefixes[..]) && RunsDone(prefixes[..], runStart)
    {
      ghost var t := prefixes[..];
      var runEnd := FindRun(prefixes, runStart);
      if runEnd - runStart > 1 {
        SortSegment(prefixes, runStart, runEnd, 0, TAG_BYTES, TagDigit);
      }
      RunTagsAscend(s, t, prefixes[..], runStart, runEnd);
      RunSorted(t, prefixes[..], runStart, runEnd);
      runStart := runEnd;
    }
  }

  lemma RunTagsAscend(s: seq<Prefix>, t: seq<Prefix>, u: seq<Prefix>, lo: nat, hi: nat)
    requires Tagged(s, t) && |s| < TAG_LIMIT && Rearranged(t, u, lo, hi)
    requires hi - lo <= 1 || SortedRange(u, lo, hi, 0, TAG_BYTES, TagDigit)
    ensures Tagged(s, u) && forall i, j :: lo <= i < j < hi ==> u[i].family < u[j].family
  {
    RearrangedWider(t, u, lo, hi, 0, |t|);
    WholeRearranged(t, u);
    forall i, j | lo <= i < j < hi
      ensures u[i].family < u[j].family
    {
      TaggedAt(s, u, i);
      TaggedAt(s, u, j);
      TaggedDistinct(s, u, i, j);
      TagsAscend(u[i], u[j]);
    }
  }

  /** `cidr_bulk_sort` with CIDR_SORT_PFXLEN_DESC: a stable sort, the family restored everywhere. */
  method SortPfxlenDesc(prefixes: array<Prefix>, len: nat, family: nat) returns (ghost order: seq<nat>)
    requires SameWidth(prefixes[..], len) && prefixes.Length < TAG_LIMIT
    requires forall i :: 0 <= i < prefixes.Length ==> prefixes[i].family == family
    modifies prefixes
    ensures StableDesc(old(prefixes[..]), prefixes[..], order)
  {
    ghost var s := prefixes[..];
    PrepareTags(prefixes);
    ghost var tagged := prefixes[..];
    SortSegment(prefixes, 0, prefixes.Length, 0, len + 1, DescDigit);
    WholeRearranged(tagged, prefixes[..]);
    WidthKept(tagged, prefixes[..], len);
    forall i, j | 0 <= i < j < prefixes.Length
      ensures LexLe(DescKey(prefixes[i]), DescKey(prefixes[j]))
    {
      DescKeyLe(prefixes[i], prefixes[j], len);
    }
    RepairRuns(prefixes, s);
    ghost var t := prefixes[..];
    RestoreFamily(prefixes, family);
    order := seq(|t|, i requires 0 <= i < |t| => t[i].family);
    TagsAreOrder(s, t, prefixes[..], order, family);
  }

  lemma TagsAreOrder(s: seq<Prefix>, t: seq<Prefix>, r: seq<Prefix>, order: seq<nat>, family: nat)
    requires Tagged(s, t) && RunsDone(t, |t|) && |r| == |t| == |order|
    requires forall i :: 0 <= i < |s| ==> s[i].family == family
    requires forall i :: 0 <= i < |t| ==> order[i] == t[i].family && r[i] == t[i].(family := family)
    ensures StableDesc(s, r, order)
  {
    assert |t| == |multiset(t)| == |s|;
    forall k: nat | k < |r|
      ensures order[k] < |s| && r[k] == s[order[k]]
    {
      TaggedAt(s, t, k);
    }
    forall k, l | 0 <= k < l < |r|
      ensures DescBefore(r[k], order[k], r[l], order[l])
    {
      assert DescBefore(t[k], t[k].family, t[l], t[l].family);
      assert DescKey(r[k]) == DescKey(t[k]) && DescKey(r[l]) == DescKey(t[l]);
    }
    forall m: nat | m < |s|
      ensures m in order
    {
      var k := TaggedOnto(s, t, m);
      assert order[k] == m;
    }
  }

  // ----- The stable order is the only one -----

  ghost predicate Enumerates(o: seq<nat>, n: nat) {
    |o| == n && (forall k :: 0 <= k < n ==> o[k] < n) && (forall m: nat :: m < n ==> m in o)
  }

  ghost predicate Ascends(o: seq<nat>, before: (nat, nat) -> bool) {
    forall k, l :: 0 <= k < l < |o| ==> before(o[k], o[l])
  }

  ghost predicate Asymmetric(n: nat, before: (nat, nat) -> bool) {
    forall i: nat, j: nat :: i < n && j < n && before(i, j) ==> !before(j, i)
  }

  /** Where two enumerations first differ, the one's entry comes before the other's. */
  lemma ComesBefore(o: seq<nat>, p: seq<nat>, n: nat, before: (nat, nat) -> bool, d: nat)
    requires Enumerates(o, n) && Enumerates(p, n) && Ascends(o, before) && Ascends(p, before) && Asymmetric(n, before)
    requires DifferAt(o, p, d)
    ensures before(o[d], p[d])
  {
    assert p[d] in o;
    var j :| 0 <= j < n && o[j] == p[d];
    assert forall i | 0 <= i < d :: o[i] == o[..d][i] == p[..d][i] == p[i];
    assert forall i | 0 <= i < d :: before(p[i], p[d]);
  }

  /** An asymmetric relation orders an index range in at most one way. */
  lemma OneEnumeration(o: seq<nat>, p: seq<nat>, n: nat, before: (nat, nat) -> bool)
    requires Enumerates(o, n) && Enumerates(p, n) && Ascends(o, before) && Ascends(p, before) && Asymmetric(n, before)
    ensures o == p
  {
    var d := Compare(o, p);
    if DifferAt(o, p, d) {
      ComesBefore(o, p, n, before, d);
      ComesBefore(p, o, n, before, d);
    }
  }

  /** The result of the stable descending sort is determined by the input. */
  lemma StableDescUnique(s: seq<Prefix>, r: seq<Prefix>, r': seq<Prefix>, o: seq<nat>, o': seq<nat>)
    requires StableDesc(s, r, o) && StableDesc(s, r', o')
    ensures o == o' && r == r'
  {
    var before := (i: nat, j: nat) => i < |s| && j < |s| && DescBefore(s[i], i, s[j], j);
    forall i: nat, j: nat | i < |s| && j < |s| && before(i, j)
      ensures !before(j, i)
    {
      if before(j, i) {
        LexLeAntisymmetric(DescKey(s[i]), DescKey(s[j]));
      }
    }
    OneEnumeration(o, o', |s|, before);
  }
}
