/** Which tables get the lowest index of every duplicated prefix recorded, and which do not. */
module LowestIndex {
  import opened BitStrings
  import opened Bytes
  import opened Prefixes
  import opened RadixSort
  import opened SortLaws
  import opened BulkSort
  import opened PrefixIndex

  // ----- The sorted tags -----

  lemma {:induction false} SameIsTwins(p: Prefix, q: Prefix, len: nat)
    requires |p.addr| == |q.addr| == len
    ensures SamePrefix(p, q) <==> SameDigits(p, q, 0, len + 1, NetworkDigit)
    ensures SamePrefix(p, q) <==> NetworkKey(p) == NetworkKey(q)
  {
    assert p.addr == NetworkKey(p)[..len] && q.addr == NetworkKey(q)[..len];
    if SameDigits(p, q, 0, len + 1, NetworkDigit) {
      assert NetworkDigit(p, len) == NetworkDigit(q, len);
      forall i | 0 <= i < len
        ensures p.addr[i] == q.addr[i]
      {
        assert NetworkDigit(p, i) == NetworkDigit(q, i);
      }
    }
  }

  lemma {:induction false} TagsSorted(source: seq<Prefix>, len: nat)
    requires AllValid(source, len)
    ensures Tagged(source, SortedTags(source, len)) && NetworkSorted(SortedTags(source, len))
    ensures SameWidth(SortedTags(source, len), len)
  {
    var s, t := TagAll(source), SortedTags(source, len);
    ResultSorted(s, 0, |s|, 0, len + 1, NetworkDigit);
    WholeRearranged(s, t);
    WidthKept(s, t, len);
    forall i, j | 0 <= i < j < |t|
      ensures LexLe(NetworkKey(t[i]), NetworkKey(t[j]))
    {
      NetworkKeyLe(t[i], t[j], len);
    }
  }

  /** A run of equal prefixes is the only place of its prefix. */
  lemma {:induction false} RunIsFirst(t: seq<Prefix>, len: nat, j: nat, k: nat, l: nat)
    requires NetworkSorted(t) && SameWidth(t, len) && RunStart(t, j, k) && l < |t| && SamePrefix(t[l], t[k])
    ensures j <= l
  {
    if l < j {
      SameIsTwins(t[l], t[j], len);
      SameIsTwins(t[j - 1], t[j], len);
      assert LexLe(NetworkKey(t[j - 1]), NetworkKey(t[j]));
      assert l < j - 1 ==> LexLe(NetworkKey(t[l]), NetworkKey(t[j - 1]));
      LexLeAntisymmetric(NetworkKey(t[j - 1]), NetworkKey(t[j]));
    }
  }

  // ----- Disorder away from duplicates is harmless -----

  /** Entries that are out of order in the caller's table share the key bytes up to that point with no
      two equal prefixes. A table in network order and a table without duplicates are like that. */
  ghost predicate OrderlyDuplicates(source: seq<Prefix>, len: nat) {
    OrderlyTwins(source, 0, |source|, 0, len + 1, NetworkDigit)
  }

  lemma {:induction false} TagsOrderly(source: seq<Prefix>, len: nat)
    requires OrderlyDuplicates(source, len)
    ensures OrderlyTwins(TagAll(source), 0, |source|, 0, len + 1, NetworkDigit)
  {
    var s, keyLen := TagAll(source), len + 1;
    forall i, j, p: nat | 0 <= i < j < |s| && Inverted(s[i], s[j], 0, p, keyLen, NetworkDigit)
      ensures NoTwinsNear(s, 0, |s|, s[i], 0, p, keyLen, NetworkDigit)
    {
      TagKeepsDigits(source, i, j, p);
      assert Inverted(source[i], source[j], 0, p, keyLen, NetworkDigit);
      assert NoTwinsNear(source, 0, |s|, source[i], 0, p, keyLen, NetworkDigit);
      forall x, y | 0 <= x < y < |s| && SameDigits(s[i], s[x], 0, p, NetworkDigit)
        ensures !SameDigits(s[x], s[y], 0, keyLen, NetworkDigit)
      {
        TagKeepsDigits(source, i, x, p);
        TagKeepsDigits(source, x, y, keyLen);
      }
    }
  }

  lemma {:induction false} TagKeepsDigits(source: seq<Prefix>, i: nat, j: nat, p: nat)
    requires i < |source| && j < |source|
    ensures SameDigits(TagAll(source)[i], TagAll(source)[j], 0, p, NetworkDigit) <==>
      SameDigits(source[i], source[j], 0, p, NetworkDigit)
    ensures forall q: nat :: NetworkDigit(TagAll(source)[i], q) == NetworkDigit(source[i], q)
    ensures forall q: nat :: NetworkDigit(TagAll(source)[j], q) == NetworkDigit(source[j], q)
  {
    var s := TagAll(source);
    assert forall q: nat :: NetworkDigit(s[i], q) == NetworkDigit(source[i], q);
    assert forall q: nat :: NetworkDigit(s[j], q) == NetworkDigit(source[j], q);
    if SameDigits(source[i], source[j], 0, p, NetworkDigit) {
      forall q: nat | q < p
        ensures NetworkDigit(s[i], q) == NetworkDigit(s[j], q)
      {
        assert NetworkDigit(source[i], q) == NetworkDigit(source[j], q);
      }
    }
    if SameDigits(s[i], s[j], 0, p, NetworkDigit) {
      forall q: nat | q < p
        ensures NetworkDigit(source[i], q) == NetworkDigit(source[j], q)
      {
        assert NetworkDigit(s[i], q) == NetworkDigit(s[j], q);
      }
    }
  }

  /** On such a table every prefix is recorded under its lowest index. */
  lemma {:induction false} OrderlyIsLowest(source: seq<Prefix>, sorted: seq<Prefix>, orig: seq<nat>, len: nat)
    requires AllValid(source, len) && RunTags(source, sorted, orig, len) && OrderlyDuplicates(source, len)
    ensures RecordsLowest(source, sorted, orig)
  {
    var s, t := TagAll(source), SortedTags(source, len);
    TagsSorted(source, len);
    TagsOrderly(source, len);
    TwinsKeepOrder(s, 0, |s|, 0, len + 1, NetworkDigit);
    forall k: nat, m: nat | k < |sorted| && m < |source| && SamePrefix(source[m], sorted[k])
      ensures orig[k] <= m
    {
      assert RunTagAt(t, sorted, orig, k);
      var j: nat :| RunStart(t, j, k) && orig[k] == t[j].family;
      StableRunFirst(source, t, len, j, k, m);
    }
  }

  lemma {:induction false} StableRunFirst(source: seq<Prefix>, t: seq<Prefix>, len: nat, j: nat, k: nat, m: nat)
    requires AllValid(source, len) && Tagged(source, t) && NetworkSorted(t) && SameWidth(t, len) && |t| == |source|
    requires StableOnTwins(TagAll(source), t, 0, |t|, 0, len + 1, NetworkDigit)
    requires RunStart(t, j, k) && m < |source| && SamePrefix(source[m], t[k])
    ensures t[j].family <= m
  {
    var s := TagAll(source);
    var l := TaggedOnto(source, t, m);
    TaggedAt(source, t, l);
    RunIsFirst(t, len, j, k, l);
    if j < l {
      SameIsTwins(t[j], t[l], len);
      assert Before(s, 0, |t|, t[j], t[l]);
      var a: nat, b: nat :| a < b < |t| && s[a] == t[j] && s[b] == t[l];
      assert s[a].family == a && s[b].family == b;
    }
  }

  /** A table in network order, duplicates included. */
  lemma {:induction false} SortedIsLowest(source: seq<Prefix>, sorted: seq<Prefix>, orig: seq<nat>, len: nat)
    requires AllValid(source, len) && RunTags(source, sorted, orig, len) && NetworkSorted(source)
    ensures RecordsLowest(source, sorted, orig)
  {
    var keyLen := len + 1;
    forall i, j, p: nat | 0 <= i < j < |source|
      ensures !Inverted(source[i], source[j], 0, p, keyLen, NetworkDigit)
    {
      NetworkKeyLe(source[i], source[j], len);
      InOrderNotInverted(source[i], source[j], 0, p, keyLen, NetworkDigit);
    }
    OrderlyIsLowest(source, sorted, orig, len);
  }

  lemma {:induction false} InOrderNotInverted<T>(e: T, f: T, pos: nat, p: nat, keyLen: nat, digit: (T, nat) -> Byte)
    requires KeyLe(e, f, pos, keyLen, digit)
    ensures !Inverted(e, f, pos, p, keyLen, digit)
    decreases p - pos
  {
    if Inverted(e, f, pos, p, keyLen, digit) && pos < p {
      LongerSame(e, f, pos, p, digit);
      InOrderNotInverted(e, f, pos + 1, p, keyLen, digit);
    }
  }

  /** A table in network order is left as it is by the sort. */
  lemma {:induction false} SortedStays(source: seq<Prefix>, len: nat)
    requires AllValid(source, len) && NetworkSorted(source)
    ensures SortedTags(source, len) == TagAll(source)
  {
    var s := TagAll(source);
    forall i, j | 0 <= i < j < |s|
      ensures KeyLe(s[i], s[j], 0, len + 1, NetworkDigit)
    {
      assert LexLe(NetworkKey(source[i]), NetworkKey(source[j]));
      NetworkKeyLe(s[i], s[j], len);
    }
    OrderedStays(s, 0, |s|, 0, len + 1, NetworkDigit);
  }

  /** Without duplicates the recorded index is the only one, hence the lowest. */
  lemma DistinctIsLowest(source: seq<Prefix>, sorted: seq<Prefix>, orig: seq<nat>, k: nat, j: nat)
    requires MapsBack(source, sorted, orig) && k < |sorted| && j < |source| && SamePrefix(source[j], sorted[k])
    requires forall x: nat, y: nat :: x < y < |source| ==> !SamePrefix(source[x], source[y])
    ensures orig[k] == j
  {
    assert MapsBackAt(source, sorted, orig, k);
  }

  // ----- Duplicates of all but the last prefix can go wrong -----

  /** `o` is in network order, its entries `r..q` are all the copies of one prefix and entry `q` is a
      later one. */
  ghost predicate RunBefore(o: seq<Prefix>, r: nat, q: nat) {
    && r < q < |o| && NetworkSorted(o)
    && (forall k :: r <= k < q ==> SamePrefix(o[k], o[r])) && !SamePrefix(o[q], o[r])
    && (r > 0 ==> !SamePrefix(o[r - 1], o[r]))
  }

  lemma {:induction false} SwappedTags(o: seq<Prefix>, s: seq<Prefix>, t: seq<Prefix>, r: nat, q: nat)
    requires r < q < |o| && s == TagAll(Swapped(o, r, q)) && t == Swapped(s, r, q)
    ensures forall k: nat :: k < |o| ==> SamePrefix(t[k], o[k])
  {
  }

  lemma {:induction false} TagsExchanged(o: seq<Prefix>, source: seq<Prefix>, len: nat, r: nat, q: nat)
    requires AllValid(o, len) && RunBefore(o, r, q) && source == Swapped(o, r, q)
    ensures SortedTags(source, len) == Swapped(TagAll(source), r, q)
  {
    var s := TagAll(source);
    var t := Swapped(s, r, q);
    SwappedTags(o, s, t, r, q);
    StillRunBefore(o, t, len, r, q);
    assert s == Swapped(t, r, q);
    SwappedBack(t, s, 0, |s|, r, q, 0, len + 1, NetworkDigit);
  }

  lemma {:induction false} StillRunBefore(o: seq<Prefix>, t: seq<Prefix>, len: nat, r: nat, q: nat)
    requires AllValid(o, len) && RunBefore(o, r, q) && |t| == |o| && forall k: nat :: k < |o| ==> SamePrefix(t[k], o[k])
    ensures SortedRange(t, 0, |t|, 0, len + 1, NetworkDigit)
    ensures forall k :: r <= k < q ==> SameDigits(t[r], t[k], 0, len + 1, NetworkDigit)
    ensures !SameDigits(t[r], t[q], 0, len + 1, NetworkDigit)
  {
    forall i: nat, j: nat | i < j < |t|
      ensures KeyLe(t[i], t[j], 0, len + 1, NetworkDigit)
    {
      assert LexLe(NetworkKey(o[i]), NetworkKey(o[j]));
      NetworkKeyLe(t[i], t[j], len);
    }
    forall k: nat | r <= k < q
      ensures SameDigits(t[r], t[k], 0, len + 1, NetworkDigit)
    {
      SameIsTwins(t[r], t[k], len);
    }
    SameIsTwins(t[r], t[q], len);
  }

  /** In every table in network order, exchanging the first of several copies of a prefix with the next
      later prefix gives a table on which that prefix is not recorded under its lowest index. */
  lemma {:induction false} ExchangedIsNotLowest(o: seq<Prefix>, source: seq<Prefix>, sorted: seq<Prefix>,
      orig: seq<nat>, len: nat, r: nat, q: nat)
    requires AllValid(o, len) && RunBefore(o, r, q) && r + 1 < q && source == Swapped(o, r, q)
    requires RunTags(source, sorted, orig, len)
    ensures SamePrefix(source[r + 1], sorted[r]) && orig[r] == q && !RecordsLowest(source, sorted, orig)
  {
    TagsExchanged(o, source, len, r, q);
    var t := SortedTags(source, len);
    assert RunTagAt(t, sorted, orig, r);
    var j: nat :| RunStart(t, j, r) && orig[r] == t[j].family;
    assert SamePrefix(t[r], o[r]) && (r > 0 ==> SamePrefix(t[r - 1], o[r - 1]));
    assert j == r;
    assert SamePrefix(source[r + 1], o[r]);
  }

  // ----- Tables of two prefixes: exactly when -----

  function Copies(s: seq<Prefix>, p: Prefix): nat {
    if s == [] then 0
    else Copies(s[..|s| - 1], p) + if s[|s| - 1].addr == p.addr && s[|s| - 1].pfxlen == p.pfxlen then 1 else 0
  }

  /** Every entry is `p` or `q`, and `p` comes first in network order. */
  ghost predicate TwoPrefixes(source: seq<Prefix>, p: Prefix, q: Prefix, len: nat) {
    && ValidPrefix(p, len) && ValidPrefix(q, len) && !SamePrefix(p, q) && LexLe(NetworkKey(p), NetworkKey(q))
    && forall k :: 0 <= k < |source| ==> SamePrefix(source[k], p) || SamePrefix(source[k], q)
  }

  /** The key byte that tells the two prefixes apart. */
  ghost predicate TellsApart(p: Prefix, q: Prefix, len: nat, d: nat) {
    d <= len && SameDigits(p, q, 0, d, NetworkDigit) && NetworkDigit(p, d) < NetworkDigit(q, d)
  }

  lemma {:induction false} ByteThatTells(p: Prefix, q: Prefix, len: nat) returns (d: nat)
    requires |p.addr| == |q.addr| == len && !SamePrefix(p, q) && LexLe(NetworkKey(p), NetworkKey(q))
    ensures TellsApart(p, q, len, d)
  {
    var x, y := NetworkKey(p), NetworkKey(q);
    assert x <= y ==> x == y;
    SameIsTwins(p, q, len);
    d :| DifferAt(x, y, d) && x[d] < y[d];
    forall i: nat | i < d
      ensures NetworkDigit(p, i) == NetworkDigit(q, i)
    {
      assert x[..d][i] == y[..d][i];
    }
  }

  lemma {:induction false} TwoDecided(source: seq<Prefix>, p: Prefix, q: Prefix, len: nat, d: nat)
    requires TwoPrefixes(source, p, q, len) && TellsApart(p, q, len, d)
    ensures DecidedAt(TagAll(source), 0, |source|, 0, d, len + 1, NetworkDigit)
  {
    var s, n := TagAll(source), |source|;
    assert s[0..n] == s;
    forall e, f | e in s && f in s
      ensures SameDigits(e, f, 0, d, NetworkDigit)
      ensures NetworkDigit(e, d) == NetworkDigit(f, d) ==> SameDigits(e, f, d, len + 1, NetworkDigit)
    {
      EntryOfTwo(source, p, q, len, e);
      EntryOfTwo(source, p, q, len, f);
      PairDecided(p, q, len, d, e, f);
    }
  }

  lemma {:induction false} EntryOfTwo(source: seq<Prefix>, p: Prefix, q: Prefix, len: nat, e: Prefix)
    requires TwoPrefixes(source, p, q, len) && e in TagAll(source)
    ensures SamePrefix(e, p) || SamePrefix(e, q)
  {
    var k :| 0 <= k < |source| && TagAll(source)[k] == e;
    assert SamePrefix(e, source[k]);
  }

  lemma {:induction false} PairDecided(p: Prefix, q: Prefix, len: nat, d: nat, e: Prefix, f: Prefix)
    requires TellsApart(p, q, len, d) && (SamePrefix(e, p) || SamePrefix(e, q))
      && (SamePrefix(f, p) || SamePrefix(f, q))
    ensures SameDigits(e, f, 0, d, NetworkDigit)
    ensures NetworkDigit(e, d) == NetworkDigit(f, d) ==> SameDigits(e, f, d, len + 1, NetworkDigit)
  {
    var a, b := if SamePrefix(e, p) then p else q, if SamePrefix(f, p) then p else q;
    assert forall i: nat :: NetworkDigit(e, i) == NetworkDigit(a, i);
    assert forall i: nat :: NetworkDigit(f, i) == NetworkDigit(b, i);
    forall i: nat | i < d
      ensures NetworkDigit(e, i) == NetworkDigit(f, i)
    {
      assert NetworkDigit(p, i) == NetworkDigit(q, i);
    }
  }

  lemma {:induction false} CopiesTally(source: seq<Prefix>, s: seq<Prefix>, p: Prefix, q: Prefix, len: nat, d: nat)
    requires TwoPrefixes(source, p, q, len) && TellsApart(p, q, len, d) && |s| == |source|
    requires forall k :: 0 <= k < |s| ==> SamePrefix(s[k], source[k])
    ensures Tally(s, d, NetworkDigit(p, d), NetworkDigit) == Copies(source, p)
  {
    if s != [] {
      var n := |s| - 1;
      CopiesTally(source[..n], s[..n], p, q, len, d);
      assert SamePrefix(s[n], source[n]);
    }
  }

  /** The sorted tags of such a table: the copies of `p`, then those of `q`, and which come first. */
  lemma {:induction false} TwoSorted(source: seq<Prefix>, p: Prefix, q: Prefix, len: nat, d: nat)
    requires AllValid(source, len) && TwoPrefixes(source, p, q, len) && TellsApart(p, q, len, d)
    ensures var s, t, mid := TagAll(source), SortedTags(source, len), Copies(source, p);
      var x: nat, y: nat := NetworkDigit(p, d), NetworkDigit(q, d);
      && mid <= |t| && (forall k :: 0 <= k < |t| ==> SamePrefix(t[k], if k < mid then p else q))
      && (mid < |t| ==> IsFirst(s, 0, |s|, y, t[mid], d, NetworkDigit))
      && (0 < mid ==> if NetworkDigit(s[0], d) == x then t[0] == s[0]
        else IsFirst(s, mid, |s|, x, t[0], d, NetworkDigit))
  {
    var s, n, mid := TagAll(source), |source|, Copies(source, p);
    var x: nat, y: nat := NetworkDigit(p, d), NetworkDigit(q, d);
    TwoPartedTags(source, p, q, len, d);
    var starts := StartsOf(s, 0, n, d, NetworkDigit);
    TwoDigitsParted(s, 0, mid, n, starts, x, y, d, NetworkDigit);
    PartedSettled(s, 0, n, d, NetworkDigit);
    TwoBlocks(source, Parted(s, 0, n, d, NetworkDigit), p, q, len, d, starts, mid);
  }

  /** The sort of such a table is one partition into two buckets. */
  lemma {:induction false} TwoPartedTags(source: seq<Prefix>, p: Prefix, q: Prefix, len: nat, d: nat)
    requires AllValid(source, len) && TwoPrefixes(source, p, q, len) && TellsApart(p, q, len, d)
    ensures SortedTags(source, len) == Parted(TagAll(source), 0, |source|, d, NetworkDigit)
    ensures var s, n := TagAll(source), |source|;
      TwoBuckets(s, 0, Copies(source, p), n, StartsOf(s, 0, n, d, NetworkDigit), NetworkDigit(p, d), NetworkDigit(q, d),
        d, NetworkDigit)
  {
    var s, n := TagAll(source), |source|;
    var x: nat, y: nat := NetworkDigit(p, d), NetworkDigit(q, d);
    TwoDecided(source, p, q, len, d);
    SortIsPartition(s, 0, n, 0, d, len + 1, NetworkDigit);
    var starts := StartsOf(s, 0, n, d, NetworkDigit);
    forall k | 0 <= k < n
      ensures NetworkDigit(s[k], d) == x || NetworkDigit(s[k], d) == y
    {
      EntryOfTwo(source, p, q, len, s[k]);
    }
    var mid := TwoBucketStarts(s, 0, n, starts, x, y, d, NetworkDigit);
    BucketOfP(source, p, q, len, d, starts, mid);
  }

  lemma {:induction false} TwoBlocks(source: seq<Prefix>, t: seq<Prefix>, p: Prefix, q: Prefix, len: nat, d: nat,
      starts: seq<nat>, mid: nat)
    requires TwoPrefixes(source, p, q, len) && TellsApart(p, q, len, d)
    requires TwoBuckets(TagAll(source), 0, mid, |source|, starts, NetworkDigit(p, d), NetworkDigit(q, d),
      d, NetworkDigit)
    requires Rearranged(TagAll(source), t, 0, |source|) && Settled(t, 0, |source|, starts, |source|, d, NetworkDigit)
    ensures forall k :: 0 <= k < |t| ==> SamePrefix(t[k], if k < mid then p else q)
  {
    forall k: nat | k < |t|
      ensures SamePrefix(t[k], if k < mid then p else q)
    {
      var l := RearrangedAt(TagAll(source), t, 0, |source|, k);
      EntryOfTwo(source, p, q, len, TagAll(source)[l]);
      assert Placed(t, k, starts, |source|, d, NetworkDigit);
    }
  }

  lemma {:induction false} BucketOfP(source: seq<Prefix>, p: Prefix, q: Prefix, len: nat, d: nat, starts: seq<nat>,
      mid: nat)
    requires TwoPrefixes(source, p, q, len) && TellsApart(p, q, len, d)
    requires TwoBuckets(TagAll(source), 0, mid, |source|, starts, NetworkDigit(p, d), NetworkDigit(q, d),
      d, NetworkDigit)
    ensures mid == Copies(source, p)
  {
    var s := TagAll(source);
    assert Fits(s, 0, starts, |s|, NetworkDigit(p, d), d, NetworkDigit) && s[0..|s|] == s;
    CopiesTally(source, s, p, q, len, d);
  }

  /** The table starts with a copy of `p`, or its first entries, as many as `p` has copies, are all `q`. */
  ghost predicate GoodStart(source: seq<Prefix>, p: Prefix, q: Prefix) {
    source == [] || SamePrefix(source[0], p)
    || forall k :: 0 <= k < Copies(source, p) && k < |source| ==> SamePrefix(source[k], q)
  }

  /** On a table of two prefixes the lowest indices are recorded exactly when it has a good start. */
  lemma {:induction false} TwoPrefixesIff(source: seq<Prefix>, sorted: seq<Prefix>, orig: seq<nat>, len: nat,
      p: Prefix, q: Prefix)
    requires AllValid(source, len) && RunTags(source, sorted, orig, len) && TwoPrefixes(source, p, q, len)
    ensures RecordsLowest(source, sorted, orig) <==> GoodStart(source, p, q)
  {
    var d := ByteThatTells(p, q, len);
    var s, t, mid := TagAll(source), SortedTags(source, len), Copies(source, p);
    TwoSorted(source, p, q, len, d);
    forall k: nat | k < |t|
      ensures SamePrefix(sorted[k], if k < mid then p else q) && orig[k] == t[if k < mid then 0 else mid].family
    {
      RunOfTwo(source, sorted, orig, len, p, q, k);
    }
    if RecordsLowest(source, sorted, orig) {
      WrongStart(source, sorted, orig, len, p, q, d);
    }
    if GoodStart(source, p, q) {
      RightStart(source, sorted, orig, len, p, q, d);
    }
  }

  lemma {:induction false} RunOfTwo(source: seq<Prefix>, sorted: seq<Prefix>, orig: seq<nat>, len: nat, p: Prefix,
      q: Prefix, k: nat)
    requires RunTags(source, sorted, orig, len) && !SamePrefix(p, q) && k < |source| && Copies(source, p) <= |source|
    requires forall i :: 0 <= i < |source| ==>
      SamePrefix(SortedTags(source, len)[i], if i < Copies(source, p) then p else q)
    ensures var mid := Copies(source, p);
      SamePrefix(sorted[k], if k < mid then p else q)
      && orig[k] == SortedTags(source, len)[if k < mid then 0 else mid].family
  {
    var t, mid := SortedTags(source, len), Copies(source, p);
    assert RunTagAt(t, sorted, orig, k);
    var j: nat :| RunStart(t, j, k) && orig[k] == t[j].family;
    assert j == if k < mid then 0 else mid;
  }

  /** What the two lemmas below share: the runs of the table and their tags. */
  ghost predicate TwoRuns(source: seq<Prefix>, sorted: seq<Prefix>, orig: seq<nat>, len: nat, p: Prefix, q: Prefix,
      d: nat) {
    var s, t, mid := TagAll(source), SortedTags(source, len), Copies(source, p);
    var x: nat, y: nat := NetworkDigit(p, d), NetworkDigit(q, d);
    && TwoPrefixes(source, p, q, len) && TellsApart(p, q, len, d)
    && |sorted| == |orig| == |source| && mid <= |source|
    && (mid < |t| ==> IsFirst(s, 0, |s|, y, t[mid], d, NetworkDigit))
    && (0 < mid ==> if NetworkDigit(s[0], d) == x then t[0] == s[0] else IsFirst(s, mid, |s|, x, t[0], d, NetworkDigit))
    && forall k :: 0 <= k < |source| ==>
         SamePrefix(sorted[k], if k < mid then p else q) && orig[k] == t[if k < mid then 0 else mid].family
  }

  /** A table with lowest indices has a good start. */
  lemma {:induction false} WrongStart(source: seq<Prefix>, sorted: seq<Prefix>, orig: seq<nat>, len: nat, p: Prefix,
      q: Prefix, d: nat)
    requires TwoRuns(source, sorted, orig, len, p, q, d) && RecordsLowest(source, sorted, orig)
    ensures GoodStart(source, p, q)
  {
    var s, t, mid := TagAll(source), SortedTags(source, len), Copies(source, p);
    if source != [] && !SamePrefix(source[0], p) && 0 < mid {
      assert SamePrefix(s[0], q);
      var f: nat :| FirstWith(s, mid, |s|, NetworkDigit(p, d), f, t[0], d, NetworkDigit);
      assert orig[0] == f && SamePrefix(sorted[0], p);
      assert forall k: nat | k < mid :: !SamePrefix(source[k], sorted[0]);
    }
  }

  /** A good start gives lowest indices. */
  lemma {:induction false} RightStart(source: seq<Prefix>, sorted: seq<Prefix>, orig: seq<nat>, len: nat, p: Prefix,
      q: Prefix, d: nat)
    requires TwoRuns(source, sorted, orig, len, p, q, d) && GoodStart(source, p, q)
    ensures RecordsLowest(source, sorted, orig)
  {
    var s, t, mid := TagAll(source), SortedTags(source, len), Copies(source, p);
    forall k: nat, m: nat | k < |sorted| && m < |source| && SamePrefix(source[m], sorted[k])
      ensures orig[k] <= m
    {
      assert SamePrefix(s[m], source[m]);
      if k >= mid {
        var f: nat :| FirstWith(s, 0, |s|, NetworkDigit(q, d), f, t[mid], d, NetworkDigit);
        assert NetworkDigit(s[m], d) == NetworkDigit(q, d);
      } else if !SamePrefix(source[0], p) {
        assert SamePrefix(s[0], q);
        var f: nat :| FirstWith(s, mid, |s|, NetworkDigit(p, d), f, t[0], d, NetworkDigit);
        assert NetworkDigit(s[m], d) == NetworkDigit(p, d);
      } else {
        assert SamePrefix(s[0], p) && t[0] == s[0];
      }
    }
  }
}
