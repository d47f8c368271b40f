/** What the radix sort does to elements with equal keys: the partition is not stable, but not arbitrary either. */
module SortLaws {
  import opened Bytes
  import opened RadixSort

  ghost predicate SameDigits<T>(e: T, f: T, pos: nat, keyLen: nat, digit: (T, nat) -> Byte) {
    forall p: nat :: pos <= p < keyLen ==> digit(e, p) == digit(f, p)
  }

  // ----- A segment in order stays as it is -----

  ghost predicate InDigitOrder<T>(s: seq<T>, start: nat, end: nat, pos: nat, digit: (T, nat) -> Byte)
    requires start <= end <= |s|
  {
    forall i, j :: start <= i < j < end ==> digit(s[i], pos) <= digit(s[j], pos)
  }

  lemma {:induction false} TallyNone<T>(s: seq<T>, pos: nat, d: int, digit: (T, nat) -> Byte)
    requires forall k :: 0 <= k < |s| ==> digit(s[k], pos) != d
    ensures Tally(s, pos, d, digit) == 0
  {
    if s != [] {
      TallyNone(s[..|s| - 1], pos, d, digit);
    }
  }

  /** The elements of digit `d` are those from `lo` to `hi`. */
  lemma {:induction false} TallyBlock<T>(s: seq<T>, lo: nat, hi: nat, pos: nat, d: int, digit: (T, nat) -> Byte)
    requires lo <= hi <= |s|
    requires forall k :: 0 <= k < |s| ==> (digit(s[k], pos) == d <==> lo <= k < hi)
    ensures Tally(s, pos, d, digit) == hi - lo
  {
    assert s == s[..lo] + (s[lo..hi] + s[hi..]);
    TallyConcat(s[..lo], s[lo..hi] + s[hi..], pos, d, digit);
    TallyConcat(s[lo..hi], s[hi..], pos, d, digit);
    TallyNone(s[..lo], pos, d, digit);
    TallyFull(s[lo..hi], pos, d, digit);
    TallyNone(s[hi..], pos, d, digit);
  }

  /** In a segment in digit order the bucket of `d` starts where the digits below `d` end. */
  lemma {:induction false} OrderedStarts<T>(s: seq<T>, start: nat, end: nat, starts: seq<nat>, d: nat, pos: nat,
      digit: (T, nat) -> Byte)
    requires StartsFor(s, start, end, starts, pos, digit) && InDigitOrder(s, start, end, pos, digit) && d < BUCKETS
    ensures forall k :: start <= k < end ==> (k < starts[d] <==> digit(s[k], pos) < d)
  {
    if d > 0 {
      var e := d - 1;
      OrderedStarts(s, start, end, starts, e, pos, digit);
      BucketBounds(starts, start, end, e);
      var lo, hi := starts[e], starts[e];
      while hi < end && digit(s[hi], pos) == e
        invariant lo <= hi <= end && forall k :: lo <= k < hi ==> digit(s[k], pos) == e
      {
        hi := hi + 1;
      }
      forall k | 0 <= k < end - start
        ensures digit(s[start..end][k], pos) == e <==> lo - start <= k < hi - start
      {
        assert s[start..end][k] == s[start + k];
        assert start + k >= lo ==> digit(s[start + k], pos) >= e;
        assert start + k > hi ==> digit(s[hi], pos) <= digit(s[start + k], pos);
      }
      TallyBlock(s[start..end], lo - start, hi - start, pos, e, digit);
      assert Fits(s, start, starts, end, e, pos, digit);
    }
  }

  lemma {:induction false} OrderedSettled<T>(s: seq<T>, start: nat, end: nat, starts: seq<nat>, pos: nat,
      digit: (T, nat) -> Byte)
    requires StartsFor(s, start, end, starts, pos, digit) && InDigitOrder(s, start, end, pos, digit)
    ensures Settled(s, start, end, starts, end, pos, digit)
  {
    forall k: nat | start <= k < end
      ensures Placed(s, k, starts, end, pos, digit)
    {
      var d: nat := digit(s[k], pos);
      OrderedStarts(s, start, end, starts, d, pos, digit);
      if d < BUCKETS - 1 {
        OrderedStarts(s, start, end, starts, d + 1, pos, digit);
      }
    }
  }

  /** Some number of turns of the swap loop leads from `from` to `st`. */
  ghost predicate Reaches<T>(from: SwapState<T>, st: SwapState<T>, starts: seq<nat>, end: nat, pos: nat,
      digit: (T, nat) -> Byte)
    requires |starts| == |from.next| == BUCKETS
  {
    exists k: nat :: Turns(from, k, starts, end, pos, digit) == st
  }

  lemma {:induction false} ReachesItself<T>(from: SwapState<T>, starts: seq<nat>, end: nat, pos: nat,
      digit: (T, nat) -> Byte)
    requires |starts| == |from.next| == BUCKETS
    ensures Reaches(from, from, starts, end, pos, digit)
  {
    assert Turns(from, 0, starts, end, pos, digit) == from;
  }

  lemma {:induction false} ReachesNext<T>(from: SwapState<T>, st: SwapState<T>, u: SwapState<T>, starts: seq<nat>,
      end: nat, pos: nat, digit: (T, nat) -> Byte)
    requires |starts| == |from.next| == |st.next| == BUCKETS && Reaches(from, st, starts, end, pos, digit)
    requires Turn(st, starts, end, pos, digit) == u
    ensures Reaches(from, u, starts, end, pos, digit)
  {
    var k: nat :| Turns(from, k, starts, end, pos, digit) == st;
    OneMoreTurn(from, k, st, u, starts, end, pos, digit);
    assert Turns(from, k + 1, starts, end, pos, digit) == u;
  }

  /** A run that has come to the end is the partition. */
  lemma {:induction false} ReachesEnd<T>(s: seq<T>, t: seq<T>, next: seq<nat>, start: nat, end: nat, starts: seq<nat>,
      pos: nat, digit: (T, nat) -> Byte)
    requires StartsFor(s, start, end, starts, pos, digit)
    requires Reaches(SwapState(s, start, starts), SwapState(t, end, next), starts, end, pos, digit)
    ensures Parted(s, start, end, pos, digit) == t
  {
    var k: nat :| Turns(SwapState(s, start, starts), k, starts, end, pos, digit) == SwapState(t, end, next);
    PartitionUnique(s, start, end, starts, k, pos, digit);
  }

  /** The swap loop steps over elements that are in their buckets. */
  lemma {:induction false} StepsOver<T>(from: SwapState<T>, s: seq<T>, i: nat, j: nat, next: seq<nat>,
      starts: seq<nat>, end: nat, pos: nat, digit: (T, nat) -> Byte)
    requires |starts| == |from.next| == |next| == BUCKETS && i <= j <= end <= |s|
    requires Reaches(from, SwapState(s, i, next), starts, end, pos, digit)
    requires forall k: nat :: i <= k < j ==> Placed(s, k, starts, end, pos, digit)
    ensures Reaches(from, SwapState(s, j, next), starts, end, pos, digit)
  {
    if i < j {
      StepsOver(from, s, i, j - 1, next, starts, end, pos, digit);
      TurnPlaced(s, j - 1, next, starts, end, pos, digit);
      ReachesNext(from, SwapState(s, j - 1, next), SwapState(s, j, next), starts, end, pos, digit);
    }
  }

  /** A segment in digit order is left alone by its partition. */
  lemma {:induction false} OrderedParted<T>(s: seq<T>, start: nat, end: nat, pos: nat, digit: (T, nat) -> Byte)
    requires start <= end <= |s| && InDigitOrder(s, start, end, pos, digit)
    ensures Parted(s, start, end, pos, digit) == s
  {
    var starts := StartsOf(s, start, end, pos, digit);
    OrderedSettled(s, start, end, starts, pos, digit);
    ReachesItself(SwapState(s, start, starts), starts, end, pos, digit);
    StepsOver(SwapState(s, start, starts), s, start, end, starts, starts, end, pos, digit);
    ReachesEnd(s, s, starts, start, end, starts, pos, digit);
  }

  lemma {:induction false} KeyOrderIsDigitOrder<T>(s: seq<T>, start: nat, end: nat, pos: nat, keyLen: nat,
      digit: (T, nat) -> Byte)
    requires start <= end <= |s| && pos < keyLen && SortedRange(s, start, end, pos, keyLen, digit)
    ensures InDigitOrder(s, start, end, pos, digit)
  {
    forall i, j | start <= i < j < end
      ensures digit(s[i], pos) <= digit(s[j], pos)
    {
      assert KeyLe(s[i], s[j], pos, keyLen, digit);
    }
  }

  /** A segment in key order is left alone by the sort. */
  lemma {:induction false} OrderedStays<T>(s: seq<T>, start: nat, end: nat, pos: nat, keyLen: nat,
      digit: (T, nat) -> Byte)
    requires start <= end <= |s| && SortedRange(s, start, end, pos, keyLen, digit)
    ensures SortResult(s, start, end, pos, keyLen, digit) == s
    decreases Left(pos, keyLen), 0, 0
  {
    if end - start > 1 && pos < keyLen {
      KeyOrderIsDigitOrder(s, start, end, pos, keyLen, digit);
      OrderedParted(s, start, end, pos, digit);
      var starts := StartsOf(s, start, end, pos, digit);
      OrderedSettled(s, start, end, starts, pos, digit);
      BucketsStay(s, start, end, starts, BUCKETS, pos, keyLen, digit);
    }
  }

  /** A bucket of a segment in key order is in order by the later digits. */
  lemma {:induction false} BucketInOrder<T>(s: seq<T>, start: nat, end: nat, starts: seq<nat>, d: nat, pos: nat,
      keyLen: nat, digit: (T, nat) -> Byte)
    requires start <= end <= |s| && Buckets(starts, start, end) && d < BUCKETS && pos < keyLen
    requires Settled(s, start, end, starts, end, pos, digit) && SortedRange(s, start, end, pos, keyLen, digit)
    ensures EndOf(starts, end, d) <= end && SortedRange(s, starts[d], EndOf(starts, end, d), pos + 1, keyLen, digit)
  {
    BucketBounds(starts, start, end, d);
    forall i: nat, j: nat | starts[d] <= i < j < EndOf(starts, end, d)
      ensures KeyLe(s[i], s[j], pos + 1, keyLen, digit)
    {
      assert Placed(s, i, starts, end, pos, digit) && Placed(s, j, starts, end, pos, digit);
      SettledDigit(s, start, end, starts, d, i, pos, digit);
      SettledDigit(s, start, end, starts, d, j, pos, digit);
      assert KeyLe(s[i], s[j], pos, keyLen, digit);
    }
  }

  lemma {:induction false} BucketsStay<T>(s: seq<T>, start: nat, end: nat, starts: seq<nat>, n: nat, pos: nat,
      keyLen: nat, digit: (T, nat) -> Byte)
    requires start <= end <= |s| && Buckets(starts, start, end) && n <= BUCKETS && pos < keyLen
    requires Settled(s, start, end, starts, end, pos, digit) && SortedRange(s, start, end, pos, keyLen, digit)
    ensures BucketsResult(s, start, end, starts, n, pos + 1, keyLen, digit) == s
    decreases Left(pos + 1, keyLen), 1, n
  {
    if n > 0 {
      BucketsStay(s, start, end, starts, n - 1, pos, keyLen, digit);
      BucketInOrder(s, start, end, starts, n - 1, pos, keyLen, digit);
      OrderedStays(s, starts[n - 1], EndOf(starts, end, n - 1), pos + 1, keyLen, digit);
    }
  }

  // ----- Where elements with equal keys keep their order -----

  /** No two elements of the segment have the same digits from `pos` on. */
  ghost predicate NoTwins<T>(s: seq<T>, start: nat, end: nat, pos: nat, keyLen: nat, digit: (T, nat) -> Byte)
    requires start <= end <= |s|
  {
    forall i, j :: start <= i < j < end ==> !SameDigits(s[i], s[j], pos, keyLen, digit)
  }

  /** `e` before `f` is out of order, and digit `p` is the first that says so. */
  ghost predicate Inverted<T>(e: T, f: T, pos: nat, p: nat, keyLen: nat, digit: (T, nat) -> Byte) {
    pos <= p < keyLen && SameDigits(e, f, pos, p, digit) && digit(e, p) > digit(f, p)
  }

  /** No two elements that share the digits below `p` with `e` have the same key. */
  ghost predicate NoTwinsNear<T>(s: seq<T>, start: nat, end: nat, e: T, pos: nat, p: nat, keyLen: nat,
      digit: (T, nat) -> Byte)
    requires start <= end <= |s|
  {
    forall x, y :: start <= x < y < end && SameDigits(e, s[x], pos, p, digit) ==>
      !SameDigits(s[x], s[y], pos, keyLen, digit)
  }

  /** Elements that are out of order share the digits up to that point with no two equal keys. */
  ghost predicate OrderlyTwins<T>(s: seq<T>, start: nat, end: nat, pos: nat, keyLen: nat, digit: (T, nat) -> Byte)
    requires start <= end <= |s|
  {
    forall i, j, p: nat :: start <= i < j < end && Inverted(s[i], s[j], pos, p, keyLen, digit) ==>
      NoTwinsNear(s, start, end, s[i], pos, p, keyLen, digit)
  }

  /** The segment has `e` at a position before one that has `f`. */
  ghost predicate Before<T>(s: seq<T>, start: nat, end: nat, e: T, f: T)
    requires end <= |s|
  {
    exists i: nat, j: nat :: start <= i < j < end && s[i] == e && s[j] == f
  }

  /** In `t` elements with equal keys come in an order that `s` has too. */
  ghost predicate StableOnTwins<T>(s: seq<T>, t: seq<T>, start: nat, end: nat, pos: nat, keyLen: nat,
      digit: (T, nat) -> Byte)
    requires start <= end <= |s| == |t|
  {
    forall k: nat, l: nat :: start <= k < l < end && SameDigits(t[k], t[l], pos, keyLen, digit) ==>
      Before(s, start, end, t[k], t[l])
  }

  lemma {:induction false} SameTwins<T>(s: seq<T>, start: nat, end: nat, pos: nat, keyLen: nat,
      digit: (T, nat) -> Byte)
    requires start <= end <= |s|
    ensures StableOnTwins(s, s, start, end, pos, keyLen, digit)
  {
  }

  /** A rearrangement of a segment without twins has none either. */
  lemma {:induction false} NoTwinsKept<T>(s: seq<T>, t: seq<T>, start: nat, end: nat, pos: nat, keyLen: nat,
      digit: (T, nat) -> Byte)
    requires start <= end <= |s| && NoTwins(s, start, end, pos, keyLen, digit) && Rearranged(s, t, start, end)
    ensures NoTwins(t, start, end, pos, keyLen, digit)
  {
    forall k: nat, l: nat | start <= k < l < end
      ensures !SameDigits(t[k], t[l], pos, keyLen, digit)
    {
      var i := RearrangedAt(s, t, start, end, k);
      var j := RearrangedAt(s, t, start, end, l);
      if i == j {
        TwiceInMultiset(t[start..end], k - start, l - start);
        OnceInMultiset(s[start..end], s[i]);
      }
    }
  }

  lemma OnceInMultiset<T>(s: seq<T>, x: T)
    requires forall i, j :: 0 <= i < j < |s| ==> s[i] != s[j]
    ensures multiset(s)[x] <= 1
  {
    if k :| 0 <= k < |s| && s[k] == x {
      assert s == s[..k] + [x] + s[k + 1..];
    }
  }

  lemma TwiceInMultiset<T>(s: seq<T>, i: nat, j: nat)
    requires i < j < |s| && s[i] == s[j]
    ensures multiset(s)[s[i]] >= 2
  {
    assert s == s[..i] + [s[i]] + s[i + 1..j] + [s[j]] + s[j + 1..];
  }

  /** Where disorder meets no equal keys, the sort keeps the order of equal keys. */
  lemma {:induction false} TwinsKeepOrder<T>(s: seq<T>, start: nat, end: nat, pos: nat, keyLen: nat,
      digit: (T, nat) -> Byte)
    requires start <= end <= |s| && OrderlyTwins(s, start, end, pos, keyLen, digit)
    ensures StableOnTwins(s, SortResult(s, start, end, pos, keyLen, digit), start, end, pos, keyLen, digit)
    decreases Left(pos, keyLen), 0, 0
  {
    if end - start <= 1 || pos >= keyLen {
      SameTwins(s, start, end, pos, keyLen, digit);
    } else if InDigitOrder(s, start, end, pos, digit) {
      OrderedParted(s, start, end, pos, digit);
      BucketsKeepOrder(s, start, end, StartsOf(s, start, end, pos, digit), BUCKETS, pos, keyLen, digit);
    } else {
      var i, j :| start <= i < j < end && digit(s[i], pos) > digit(s[j], pos);
      assert Inverted(s[i], s[j], pos, pos, keyLen, digit);
      assert NoTwinsNear(s, start, end, s[i], pos, pos, keyLen, digit);
      ResultSorted(s, start, end, pos, keyLen, digit);
      NoTwinsKept(s, SortResult(s, start, end, pos, keyLen, digit), start, end, pos, keyLen, digit);
    }
  }

  lemma {:induction false} BucketsKeepOrder<T>(s: seq<T>, start: nat, end: nat, starts: seq<nat>, n: nat, pos: nat,
      keyLen: nat, digit: (T, nat) -> Byte)
    requires StartsFor(s, start, end, starts, pos, digit) && n <= BUCKETS && pos < keyLen
    requires InDigitOrder(s, start, end, pos, digit) && OrderlyTwins(s, start, end, pos, keyLen, digit)
    ensures StableOnTwins(s, BucketsResult(s, start, end, starts, n, pos + 1, keyLen, digit), start, end, pos, keyLen,
      digit)
    decreases Left(pos + 1, keyLen), 1, n
  {
    if n == 0 {
      SameTwins(s, start, end, pos, keyLen, digit);
    } else {
      var w := BucketsResult(s, start, end, starts, n - 1, pos + 1, keyLen, digit);
      var v := BucketsResult(s, start, end, starts, n, pos + 1, keyLen, digit);
      var lo, hi := starts[n - 1], EndOf(starts, end, n - 1);
      OrderedSettled(s, start, end, starts, pos, digit);
      BucketsKeepOrder(s, start, end, starts, n - 1, pos, keyLen, digit);
      BucketsSorted(s, start, end, starts, n - 1, pos, keyLen, digit);
      BucketsSorted(s, start, end, starts, n, pos, keyLen, digit);
      BucketBounds(starts, start, end, n - 1);
      BucketKeepsOrder(s, w, v, start, end, starts, n - 1, pos, keyLen, digit);
    }
  }

  lemma {:induction false} BucketKeepsOrder<T>(s: seq<T>, w: seq<T>, v: seq<T>, start: nat, end: nat, starts: seq<nat>,
      d: nat, pos: nat, keyLen: nat, digit: (T, nat) -> Byte)
    requires start <= end <= |s| == |w| && Buckets(starts, start, end) && d < BUCKETS && pos < keyLen
    requires start <= starts[d] <= EndOf(starts, end, d) <= end && w[starts[d]..] == s[starts[d]..]
    requires Settled(s, start, end, starts, end, pos, digit) && OrderlyTwins(s, start, end, pos, keyLen, digit)
    requires StableOnTwins(s, w, start, end, pos, keyLen, digit)
    requires v == SortResult(w, starts[d], EndOf(starts, end, d), pos + 1, keyLen, digit)
    requires Settled(v, start, end, starts, end, pos, digit)
    ensures StableOnTwins(s, v, start, end, pos, keyLen, digit)
    decreases Left(pos + 1, keyLen), 0, 1
  {
    var lo, hi := starts[d], EndOf(starts, end, d);
    BucketOrderly(s, w, start, end, starts, d, pos, keyLen, digit);
    TwinsKeepOrder(w, lo, hi, pos + 1, keyLen, digit);
    ResultSorted(w, lo, hi, pos + 1, keyLen, digit);
    BucketStable(s, w, v, start, end, starts, d, pos, keyLen, digit);
  }

  /** A bucket inherits the condition. */
  lemma {:induction false} BucketOrderly<T>(s: seq<T>, w: seq<T>, start: nat, end: nat, starts: seq<nat>, d: nat,
      pos: nat, keyLen: nat, digit: (T, nat) -> Byte)
    requires start <= end <= |s| == |w| && Buckets(starts, start, end) && d < BUCKETS && EndOf(starts, end, d) <= end
    requires Settled(s, start, end, starts, end, pos, digit) && OrderlyTwins(s, start, end, pos, keyLen, digit)
    requires w[starts[d]..] == s[starts[d]..] && starts[d] <= EndOf(starts, end, d) && start <= starts[d]
    ensures OrderlyTwins(w, starts[d], EndOf(starts, end, d), pos + 1, keyLen, digit)
  {
    var lo, hi := starts[d], EndOf(starts, end, d);
    forall k: nat | lo <= k < hi
      ensures w[k] == s[k] && digit(s[k], pos) == d
    {
      assert w[lo..][k - lo] == s[lo..][k - lo];
      assert Placed(s, k, starts, end, pos, digit);
      SettledDigit(s, start, end, starts, d, k, pos, digit);
    }
    var q := pos + 1;
    forall i: nat, j: nat, p: nat | lo <= i < j < hi && Inverted(w[i], w[j], q, p, keyLen, digit)
      ensures NoTwinsNear(w, lo, hi, w[i], q, p, keyLen, digit)
    {
      LongerSame(s[i], s[j], pos, p, digit);
      assert Inverted(s[i], s[j], pos, p, keyLen, digit);
      assert NoTwinsNear(s, start, end, s[i], pos, p, keyLen, digit);
      forall x: nat, y: nat | lo <= x < y < hi && SameDigits(w[i], w[x], q, p, digit)
        ensures !SameDigits(w[x], w[y], q, keyLen, digit)
      {
        LongerSame(s[i], s[x], pos, p, digit);
        LongerSame(s[x], s[y], pos, keyLen, digit);
      }
    }
  }

  lemma {:induction false} LongerSame<T>(e: T, f: T, pos: nat, p: nat, digit: (T, nat) -> Byte)
    requires digit(e, pos) == digit(f, pos)
    ensures SameDigits(e, f, pos, p, digit) <==> SameDigits(e, f, pos + 1, p, digit)
  {
  }

  /** One more bucket sorted: equal keys keep their order in the whole segment. */
  lemma {:induction false} BucketStable<T>(s: seq<T>, w: seq<T>, v: seq<T>, start: nat, end: nat, starts: seq<nat>,
      d: nat, pos: nat, keyLen: nat, digit: (T, nat) -> Byte)
    requires start <= end <= |s| == |w| == |v| && Buckets(starts, start, end) && d < BUCKETS && pos < keyLen
    requires start <= starts[d] <= EndOf(starts, end, d) <= end && w[starts[d]..] == s[starts[d]..]
    requires Settled(v, start, end, starts, end, pos, digit) && Rearranged(w, v, starts[d], EndOf(starts, end, d))
    requires StableOnTwins(s, w, start, end, pos, keyLen, digit)
    requires StableOnTwins(w, v, starts[d], EndOf(starts, end, d), pos + 1, keyLen, digit)
    ensures StableOnTwins(s, v, start, end, pos, keyLen, digit)
  {
    var lo, hi := starts[d], EndOf(starts, end, d);
    forall k: nat, l: nat | start <= k < l < end && SameDigits(v[k], v[l], pos, keyLen, digit)
      ensures Before(s, start, end, v[k], v[l])
    {
      assert digit(v[k], pos) == digit(v[l], pos);
      assert Placed(v, k, starts, end, pos, digit) && Placed(v, l, starts, end, pos, digit);
      SettledDigit(v, start, end, starts, d, k, pos, digit);
      SettledDigit(v, start, end, starts, d, l, pos, digit);
      if lo <= k < hi {
        LongerSame(v[k], v[l], pos, keyLen, digit);
        assert Before(w, lo, hi, v[k], v[l]);
        var i: nat, j: nat :| lo <= i < j < hi && w[i] == v[k] && w[j] == v[l];
        assert w[lo..][i - lo] == s[lo..][i - lo] && w[lo..][j - lo] == s[lo..][j - lo];
      } else {
        var i := RearrangedAt(w, v, lo, hi, k);
        var j := RearrangedAt(w, v, lo, hi, l);
      }
    }
  }

  // ----- One pair out of order -----

  lemma {:induction false} SwapStarts<T>(s: seq<T>, t: seq<T>, i: nat, j: nat, start: nat, end: nat, starts: seq<nat>,
      pos: nat, digit: (T, nat) -> Byte)
    requires StartsFor(s, start, end, starts, pos, digit)
    requires start <= i < end && start <= j < end && i != j && t == Swapped(s, i, j)
    ensures StartsFor(t, start, end, starts, pos, digit)
  {
    forall d: nat | d < BUCKETS
      ensures Fits(t, start, starts, end, d, pos, digit)
    {
      SwapFits(s, t, i, j, start, end, starts, d, pos, digit);
    }
  }

  /** Entries `r..q` of `o` have one key, entry `q` a later one, and `s` is `o` with `r` and `q` exchanged. */
  ghost predicate Exchanged<T>(o: seq<T>, s: seq<T>, start: nat, end: nat, r: nat, q: nat, pos: nat, keyLen: nat,
      digit: (T, nat) -> Byte) {
    && start <= r < q < end <= |o| && s == Swapped(o, r, q) && SortedRange(o, start, end, pos, keyLen, digit)
    && (forall k :: r <= k < q ==> SameDigits(o[r], o[k], pos, keyLen, digit))
    && !SameDigits(o[r], o[q], pos, keyLen, digit)
  }

  /** The partition at the first digit where the two keys differ makes one swap. */
  lemma {:induction false} OneSwap<T>(o: seq<T>, s: seq<T>, start: nat, end: nat, r: nat, q: nat, pos: nat,
      keyLen: nat, digit: (T, nat) -> Byte)
    requires Exchanged(o, s, start, end, r, q, pos, keyLen, digit) && digit(o[r], pos) != digit(o[q], pos)
    ensures pos < keyLen && Parted(s, start, end, pos, digit) == o
    ensures StartsFor(o, start, end, StartsOf(s, start, end, pos, digit), pos, digit)
  {
    assert KeyLe(o[r], o[q], pos, keyLen, digit);
    var starts := StartsOf(s, start, end, pos, digit);
    SwapStarts(s, o, r, q, start, end, starts, pos, digit);
    KeyOrderIsDigitOrder(o, start, end, pos, keyLen, digit);
    OrderedSettled(o, start, end, starts, pos, digit);
    var y: nat := digit(o[q], pos);
    OrderedStarts(o, start, end, starts, y, pos, digit);
    assert digit(o[q - 1], pos) == digit(o[r], pos);
    assert starts[y] == q;
    OneSwapRun(o, s, start, end, starts, r, q, pos, digit);
  }

  /** The run of the swap loop: over the entries before `r`, one swap, over the rest. */
  lemma {:induction false} OneSwapRun<T>(o: seq<T>, s: seq<T>, start: nat, end: nat, starts: seq<nat>, r: nat, q: nat,
      pos: nat, digit: (T, nat) -> Byte)
    requires StartsFor(s, start, end, starts, pos, digit) && start <= r < q < end <= |o| && s == Swapped(o, r, q)
    requires Settled(o, start, end, starts, end, pos, digit) && starts[digit(o[q], pos)] == q
    ensures Parted(s, start, end, pos, digit) == o
  {
    var from, next := SwapState(s, start, starts), starts[digit(o[q], pos) := q + 1];
    forall j: nat | start <= j < r
      ensures Placed(s, j, starts, end, pos, digit)
    {
      assert Placed(o, j, starts, end, pos, digit);
    }
    ReachesItself(from, starts, end, pos, digit);
    StepsOver(from, s, start, r, starts, starts, end, pos, digit);
    OneSwapTurn(from, o, s, end, starts, r, q, next, pos, digit);
    StepsOver(from, o, r, end, next, starts, end, pos, digit);
    ReachesEnd(s, o, next, start, end, starts, pos, digit);
  }

  lemma {:induction false} OneSwapTurn<T>(from: SwapState<T>, o: seq<T>, s: seq<T>, end: nat, starts: seq<nat>, r: nat,
      q: nat, next: seq<nat>, pos: nat, digit: (T, nat) -> Byte)
    requires |starts| == |from.next| == BUCKETS && r < q < end <= |o| && s == Swapped(o, r, q)
    requires Reaches(from, SwapState(s, r, starts), starts, end, pos, digit)
    requires starts[digit(o[q], pos)] == q && next == starts[digit(o[q], pos) := q + 1]
    ensures Reaches(from, SwapState(o, r, next), starts, end, pos, digit)
  {
    TurnSwaps(s, r, starts, digit(o[q], pos), starts, end, pos, digit);
    assert Swapped(s, r, q) == o;
    ReachesNext(from, SwapState(s, r, starts), SwapState(o, r, next), starts, end, pos, digit);
  }

  /** An exchanged pair is exchanged back: the first of the equal entries is the one from position `q`. */
  lemma {:induction false} SwappedBack<T>(o: seq<T>, s: seq<T>, start: nat, end: nat, r: nat, q: nat, pos: nat,
      keyLen: nat, digit: (T, nat) -> Byte)
    requires Exchanged(o, s, start, end, r, q, pos, keyLen, digit)
    ensures SortResult(s, start, end, pos, keyLen, digit) == o
    decreases Left(pos, keyLen), 0, 0
  {
    assert pos < keyLen;
    if digit(o[r], pos) != digit(o[q], pos) {
      OneSwap(o, s, start, end, r, q, pos, keyLen, digit);
      var starts := StartsOf(s, start, end, pos, digit);
      KeyOrderIsDigitOrder(o, start, end, pos, keyLen, digit);
      OrderedSettled(o, start, end, starts, pos, digit);
      BucketsStay(o, start, end, starts, BUCKETS, pos, keyLen, digit);
    } else {
      var starts := StartsOf(s, start, end, pos, digit);
      KeyOrderIsDigitOrder(o, start, end, pos, keyLen, digit);
      OrderedParted(s, start, end, pos, digit);
      SwapStarts(s, o, r, q, start, end, starts, pos, digit);
      OrderedSettled(o, start, end, starts, pos, digit);
      BucketsSwapBack(o, s, start, end, starts, BUCKETS, r, q, pos, keyLen, digit);
    }
  }

  lemma {:induction false} BucketsSwapBack<T>(o: seq<T>, s: seq<T>, start: nat, end: nat, starts: seq<nat>, n: nat,
      r: nat, q: nat, pos: nat, keyLen: nat, digit: (T, nat) -> Byte)
    requires Exchanged(o, s, start, end, r, q, pos, keyLen, digit) && digit(o[r], pos) == digit(o[q], pos)
    requires Buckets(starts, start, end) && Settled(o, start, end, starts, end, pos, digit) && n <= BUCKETS
      && pos < keyLen
    ensures BucketsResult(s, start, end, starts, n, pos + 1, keyLen, digit) == if digit(o[r], pos) < n then o else s
    decreases Left(pos + 1, keyLen), 1, n
  {
    if n > 0 {
      var d := n - 1;
      var lo, hi := starts[d], EndOf(starts, end, d);
      BucketsSwapBack(o, s, start, end, starts, d, r, q, pos, keyLen, digit);
      BucketBounds(starts, start, end, d);
      if digit(o[r], pos) == d {
        SwapInBucket(o, s, start, end, starts, d, r, q, pos, keyLen, digit);
        SwappedBack(o, s, lo, hi, r, q, pos + 1, keyLen, digit);
      } else {
        var w := if digit(o[r], pos) < d then o else s;
        NoSwapInBucket(o, w, start, end, starts, d, r, q, pos, keyLen, digit);
        OrderedStays(w, lo, hi, pos + 1, keyLen, digit);
      }
    }
  }

  /** The bucket of the exchanged pair, seen from the next digit on. */
  lemma {:induction false} SwapInBucket<T>(o: seq<T>, s: seq<T>, start: nat, end: nat, starts: seq<nat>, d: nat,
      r: nat, q: nat, pos: nat, keyLen: nat, digit: (T, nat) -> Byte)
    requires Exchanged(o, s, start, end, r, q, pos, keyLen, digit) && digit(o[r], pos) == digit(o[q], pos) == d
    requires Buckets(starts, start, end) && Settled(o, start, end, starts, end, pos, digit) && d < BUCKETS
    requires pos < keyLen
    ensures Exchanged(o, s, starts[d], EndOf(starts, end, d), r, q, pos + 1, keyLen, digit)
  {
    BucketInOrder(o, start, end, starts, d, pos, keyLen, digit);
    assert Placed(o, r, starts, end, pos, digit) && Placed(o, q, starts, end, pos, digit);
    LongerSame(o[r], o[q], pos, keyLen, digit);
  }

  /** Any other bucket is in order, exchanged or not. */
  lemma {:induction false} NoSwapInBucket<T>(o: seq<T>, w: seq<T>, start: nat, end: nat, starts: seq<nat>, d: nat,
      r: nat, q: nat, pos: nat, keyLen: nat, digit: (T, nat) -> Byte)
    requires start <= r < q < end <= |o| && digit(o[r], pos) == digit(o[q], pos) != d && pos < keyLen
    requires w == o || w == Swapped(o, r, q)
    requires SortedRange(o, start, end, pos, keyLen, digit)
    requires Buckets(starts, start, end) && Settled(o, start, end, starts, end, pos, digit) && d < BUCKETS
    ensures EndOf(starts, end, d) <= end && SortedRange(w, starts[d], EndOf(starts, end, d), pos + 1, keyLen, digit)
  {
    BucketInOrder(o, start, end, starts, d, pos, keyLen, digit);
    assert Placed(o, r, starts, end, pos, digit) && Placed(o, q, starts, end, pos, digit);
    SettledDigit(o, start, end, starts, d, r, pos, digit);
    SettledDigit(o, start, end, starts, d, q, pos, digit);
    assert forall k | starts[d] <= k < EndOf(starts, end, d) :: w[k] == o[k];
  }

  // ----- One digit decides -----

  lemma {:induction false} SameIsLe<T>(e: T, f: T, pos: nat, keyLen: nat, digit: (T, nat) -> Byte)
    requires SameDigits(e, f, pos, keyLen, digit)
    ensures KeyLe(e, f, pos, keyLen, digit)
    decreases Left(pos, keyLen)
  {
    if pos < keyLen {
      SameIsLe(e, f, pos + 1, keyLen, digit);
    }
  }

  /** All elements share the digits from `pos` to `p`, and digit `p` fixes the later ones. */
  ghost predicate DecidedAt<T>(s: seq<T>, start: nat, end: nat, pos: nat, p: nat, keyLen: nat,
      digit: (T, nat) -> Byte)
    requires start <= end <= |s|
  {
    && pos <= p < keyLen
    && forall e, f :: e in s[start..end] && f in s[start..end] ==>
         SameDigits(e, f, pos, p, digit) && (digit(e, p) == digit(f, p) ==> SameDigits(e, f, p, keyLen, digit))
  }

  /** Then the sort is one partition. */
  lemma {:induction false} SortIsPartition<T>(s: seq<T>, start: nat, end: nat, pos: nat, p: nat, keyLen: nat,
      digit: (T, nat) -> Byte)
    requires start <= end <= |s| && DecidedAt(s, start, end, pos, p, keyLen, digit)
    ensures SortResult(s, start, end, pos, keyLen, digit) == Parted(s, start, end, p, digit)
    decreases p - pos
  {
    if end - start <= 1 {
      OrderedParted(s, start, end, p, digit);
    } else if pos == p {
      var t, starts := Parted(s, start, end, p, digit), StartsOf(s, start, end, p, digit);
      PartedSettled(s, start, end, p, digit);
      PartedInOrder(s, t, start, end, starts, p, keyLen, digit);
      BucketsStay(t, start, end, starts, BUCKETS, p, keyLen, digit);
    } else {
      forall i, j | start <= i < j < end
        ensures digit(s[i], pos) == digit(s[j], pos)
      {
        assert s[start..end][i - start] == s[i] && s[start..end][j - start] == s[j];
        assert SameDigits(s[i], s[j], pos, p, digit);
      }
      OrderedParted(s, start, end, pos, digit);
      SortIsPartition(s, start, end, pos + 1, p, keyLen, digit);
      OnlyBucket(s, start, end, StartsOf(s, start, end, pos, digit), BUCKETS, pos, keyLen, digit);
    }
  }

  lemma {:induction false} PartedInOrder<T>(s: seq<T>, t: seq<T>, start: nat, end: nat, starts: seq<nat>, p: nat,
      keyLen: nat, digit: (T, nat) -> Byte)
    requires start <= end <= |s| && DecidedAt(s, start, end, p, p, keyLen, digit) && Buckets(starts, start, end)
    requires Rearranged(s, t, start, end) && Settled(t, start, end, starts, end, p, digit)
    ensures SortedRange(t, start, end, p, keyLen, digit)
  {
    forall i: nat, j: nat | start <= i < j < end
      ensures KeyLe(t[i], t[j], p, keyLen, digit)
    {
      var k := RearrangedAt(s, t, start, end, i);
      var l := RearrangedAt(s, t, start, end, j);
      assert s[start..end][k - start] == s[k] && s[start..end][l - start] == s[l];
      assert Placed(t, i, starts, end, p, digit) && Placed(t, j, starts, end, p, digit);
      SettledDigit(t, start, end, starts, digit(t[j], p), i, p, digit);
      if digit(t[i], p) == digit(t[j], p) {
        SameIsLe(t[i], t[j], p, keyLen, digit);
      }
    }
  }

  /** A segment that is one bucket is sorted as that bucket. */
  lemma {:induction false} OnlyBucket<T>(s: seq<T>, start: nat, end: nat, starts: seq<nat>, n: nat, pos: nat,
      keyLen: nat, digit: (T, nat) -> Byte)
    requires StartsFor(s, start, end, starts, pos, digit) && start < end && n <= BUCKETS && pos < keyLen
    requires forall i, j :: start <= i < j < end ==> digit(s[i], pos) == digit(s[j], pos)
    ensures BucketsResult(s, start, end, starts, n, pos + 1, keyLen, digit)
      == if digit(s[start], pos) < n then SortResult(s, start, end, pos + 1, keyLen, digit) else s
  {
    if n > 0 {
      var d := n - 1;
      OnlyBucket(s, start, end, starts, d, pos, keyLen, digit);
      OrderedStarts(s, start, end, starts, d, pos, digit);
      if d < BUCKETS - 1 {
        OrderedStarts(s, start, end, starts, d + 1, pos, digit);
      }
      BucketBounds(starts, start, end, d);
      assert digit(s[end - 1], pos) == digit(s[start], pos);
    }
  }

  // ----- Two digits: which element comes first in each bucket -----

  /** Position `p` is the first of `lo..hi` with digit `d`, and holds `v`. */
  ghost predicate FirstWith<T>(s: seq<T>, lo: nat, hi: nat, d: nat, p: nat, v: T, pos: nat, digit: (T, nat) -> Byte) {
    && lo <= p < hi <= |s| && s[p] == v && digit(v, pos) == d
    && forall k :: lo <= k < p ==> digit(s[k], pos) != d
  }

  ghost predicate IsFirst<T>(s: seq<T>, lo: nat, hi: nat, d: nat, v: T, pos: nat, digit: (T, nat) -> Byte) {
    exists p: nat :: FirstWith(s, lo, hi, d, p, v, pos, digit)
  }

  /** The segment has the digits `x` and `y` only, and `mid` is where the bucket of `y` starts. */
  ghost predicate TwoBuckets<T>(s: seq<T>, start: nat, mid: nat, end: nat, starts: seq<nat>, x: nat, y: nat, pos: nat,
      digit: (T, nat) -> Byte) {
    && StartsFor(s, start, end, starts, pos, digit) && x < y < BUCKETS && start <= mid <= end
    && starts[x] == start && EndOf(starts, end, x) == mid == starts[y] && EndOf(starts, end, y) == end
    && forall k :: start <= k < end ==> digit(s[k], pos) == x || digit(s[k], pos) == y
  }

  lemma {:induction false} NoSuchDigit<T>(s: seq<T>, start: nat, end: nat, starts: seq<nat>, d: nat, pos: nat,
      digit: (T, nat) -> Byte)
    requires StartsFor(s, start, end, starts, pos, digit) && d < BUCKETS
    requires forall k :: start <= k < end ==> digit(s[k], pos) != d
    ensures EndOf(starts, end, d) == starts[d]
  {
    forall k | 0 <= k < end - start
      ensures digit(s[start..end][k], pos) != d
    {
      assert s[start..end][k] == s[start + k];
    }
    TallyNone(s[start..end], pos, d, digit);
    assert Fits(s, start, starts, end, d, pos, digit);
  }

  /** Up to the lowest digit of a segment the buckets are empty. */
  lemma {:induction false} EmptyBelow<T>(s: seq<T>, start: nat, end: nat, starts: seq<nat>, lo: nat, d: nat, pos: nat,
      digit: (T, nat) -> Byte)
    requires StartsFor(s, start, end, starts, pos, digit) && lo <= d < BUCKETS
    requires forall k :: start <= k < end ==> !(lo <= digit(s[k], pos) < d)
    ensures starts[d] == starts[lo]
  {
    if lo < d {
      EmptyBelow(s, start, end, starts, lo, d - 1, pos, digit);
      NoSuchDigit(s, start, end, starts, d - 1, pos, digit);
    }
  }

  lemma {:induction false} TwoBucketStarts<T>(s: seq<T>, start: nat, end: nat, starts: seq<nat>, x: nat, y: nat,
      pos: nat, digit: (T, nat) -> Byte) returns (mid: nat)
    requires StartsFor(s, start, end, starts, pos, digit) && x < y < BUCKETS
    requires forall k :: start <= k < end ==> digit(s[k], pos) == x || digit(s[k], pos) == y
    ensures TwoBuckets(s, start, mid, end, starts, x, y, pos, digit)
  {
    mid := starts[y];
    EmptyBelow(s, start, end, starts, 0, x, pos, digit);
    EmptyBelow(s, start, end, starts, x + 1, y, pos, digit);
    if y < BUCKETS - 1 {
      EmptyBelow(s, start, end, starts, y + 1, BUCKETS - 1, pos, digit);
      NoSuchDigit(s, start, end, starts, BUCKETS - 1, pos, digit);
    }
    BucketBounds(starts, start, end, y);
  }

  /** A state of the swap loop over such a segment. */
  ghost predicate TwoState<T>(s: seq<T>, st: SwapState<T>, start: nat, mid: nat, end: nat, starts: seq<nat>, x: nat,
      y: nat, pos: nat, digit: (T, nat) -> Byte) {
    && TwoBuckets(s, start, mid, end, starts, x, y, pos, digit)
    && Partitioning(st.s, st.i, start, end, starts, st.next, pos, digit) && Rearranged(s, st.s, start, end)
  }

  /** Past `mid` there is no `x` once everything before `mid` is an `x`. */
  lemma {:induction false} NoStrayX<T>(s: seq<T>, start: nat, mid: nat, end: nat, starts: seq<nat>, x: nat, i: nat,
      pos: nat, digit: (T, nat) -> Byte)
    requires start <= mid <= i < end <= |s| && |starts| == BUCKETS && x < BUCKETS
    requires Fits(s, start, starts, end, x, pos, digit) && starts[x] == start && EndOf(starts, end, x) == mid
    requires forall k :: start <= k < mid ==> digit(s[k], pos) == x
    ensures digit(s[i], pos) != x
  {
    if digit(s[i], pos) == x {
      TallyOverflow(s[start..end], 0, mid - start, i - start, pos, x, digit);
    }
  }

  /** What the next turn does: a `y` before `mid` is swapped away, anything else is stepped over. */
  lemma {:induction false} TwoTurn<T>(s: seq<T>, st: SwapState<T>, start: nat, mid: nat, end: nat, starts: seq<nat>,
      x: nat, y: nat, pos: nat, digit: (T, nat) -> Byte)
    requires TwoState(s, st, start, mid, end, starts, x, y, pos, digit) && st.i < end
    ensures mid <= st.next[y]
    ensures if st.i < mid && digit(st.s[st.i], pos) == y then
        && st.next[y] < end
        && Turn(st, starts, end, pos, digit)
           == SwapState(Swapped(st.s, st.i, st.next[y]), st.i, st.next[y := st.next[y] + 1])
      else Turn(st, starts, end, pos, digit) == st.(i := st.i + 1)
  {
    var c, i := st.s, st.i;
    var k := RearrangedAt(s, c, start, end, i);
    assert Filled(c, starts, end, y, st.next[y], pos, digit);
    if i < mid && digit(c[i], pos) == y {
      NextSlot(c, i, start, end, starts, st.next, y, pos, digit);
      TurnSwaps(c, i, st.next, y, starts, end, pos, digit);
    } else {
      if i >= mid {
        forall j: nat | start <= j < mid
          ensures digit(c[j], pos) == x
        {
          assert Placed(c, j, starts, end, pos, digit);
          var l := RearrangedAt(s, c, start, end, j);
        }
        assert Fits(c, start, starts, end, x, pos, digit);
        NoStrayX(c, start, mid, end, starts, x, i, pos, digit);
      }
      TurnPlaced(c, i, st.next, starts, end, pos, digit);
    }
  }

  /** Slot `mid`: untouched so far, or taken for good by the first `y` of the segment. */
  ghost predicate FirstY<T>(s: seq<T>, st: SwapState<T>, start: nat, mid: nat, end: nat, y: nat, pos: nat,
      digit: (T, nat) -> Byte)
    requires |st.next| == BUCKETS && y < BUCKETS && mid <= end <= |st.s|
  {
    if st.next[y] == mid then st.s == s && forall k :: start <= k < st.i && k < mid && k < |s| ==> digit(s[k], pos) != y
    else mid < st.next[y] <= end && IsFirst(s, start, end, y, st.s[mid], pos, digit)
  }

  lemma {:induction false} FirstYKept<T>(s: seq<T>, st: SwapState<T>, start: nat, mid: nat, end: nat, starts: seq<nat>,
      x: nat, y: nat, pos: nat, digit: (T, nat) -> Byte)
    requires TwoState(s, st, start, mid, end, starts, x, y, pos, digit) && st.i < end
    requires FirstY(s, st, start, mid, end, y, pos, digit)
    ensures FirstY(s, Turn(st, starts, end, pos, digit), start, mid, end, y, pos, digit)
  {
    TwoTurn(s, st, start, mid, end, starts, x, y, pos, digit);
    if st.i < mid && digit(st.s[st.i], pos) == y && st.next[y] == mid {
      assert FirstWith(s, start, end, y, st.i, s[st.i], pos, digit);
    }
  }

  /** Slot `start`: its own `x`, or, when the segment starts with a `y`, the first `x` from `mid` on. */
  ghost predicate FirstX<T>(s: seq<T>, st: SwapState<T>, start: nat, mid: nat, end: nat, x: nat, y: nat, pos: nat,
      digit: (T, nat) -> Byte)
    requires |st.next| == BUCKETS && y < BUCKETS && start < mid <= end <= |s| == |st.s|
  {
    var n := st.next[y];
    if digit(s[start], pos) == x then st.s[start] == s[start]
    else if st.i > start then IsFirst(s, mid, end, x, st.s[start], pos, digit)
    else
      && mid <= n <= end && (forall k :: n <= k < end ==> st.s[k] == s[k])
      && st.s[start] == (if n == mid then s[start] else s[n - 1])
      && forall k :: mid <= k < n - 1 ==> digit(s[k], pos) != x
  }

  lemma {:induction false} FirstXKept<T>(s: seq<T>, st: SwapState<T>, start: nat, mid: nat, end: nat, starts: seq<nat>,
      x: nat, y: nat, pos: nat, digit: (T, nat) -> Byte)
    requires TwoState(s, st, start, mid, end, starts, x, y, pos, digit) && st.i < end && start < mid
    requires FirstX(s, st, start, mid, end, x, y, pos, digit)
    ensures FirstX(s, Turn(st, starts, end, pos, digit), start, mid, end, x, y, pos, digit)
  {
    TwoTurn(s, st, start, mid, end, starts, x, y, pos, digit);
    if digit(s[start], pos) != x && st.i == start && digit(st.s[start], pos) == x {
      assert FirstWith(s, mid, end, x, st.next[y] - 1, st.s[start], pos, digit);
    }
  }

  /** The first elements of the two buckets after the partition. */
  lemma {:induction false} TwoDigitsParted<T>(s: seq<T>, start: nat, mid: nat, end: nat, starts: seq<nat>, x: nat,
      y: nat, pos: nat, digit: (T, nat) -> Byte)
    requires TwoBuckets(s, start, mid, end, starts, x, y, pos, digit)
    ensures var t := Parted(s, start, end, pos, digit);
      && (mid < end ==> IsFirst(s, start, end, y, t[mid], pos, digit))
      && (start < mid ==>
           if digit(s[start], pos) == x then t[start] == s[start] else IsFirst(s, mid, end, x, t[start], pos, digit))
  {
    var from := SwapState(s, start, starts);
    var st := from;
    NothingPlaced(s, start, end, starts, pos, digit);
    ReachesItself(from, starts, end, pos, digit);
    while st.i < end
      invariant TwoState(s, st, start, mid, end, starts, x, y, pos, digit)
      invariant Reaches(from, st, starts, end, pos, digit)
      invariant FirstY(s, st, start, mid, end, y, pos, digit)
      invariant start < mid ==> FirstX(s, st, start, mid, end, x, y, pos, digit)
      decreases end - st.i, Room(st.next, end)
    {
      var u := Turn(st, starts, end, pos, digit);
      TurnKeeps(st, start, end, starts, pos, digit);
      RearrangedTwice(s, st.s, u.s, start, end);
      ReachesNext(from, st, u, starts, end, pos, digit);
      FirstYKept(s, st, start, mid, end, starts, x, y, pos, digit);
      if start < mid {
        FirstXKept(s, st, start, mid, end, starts, x, y, pos, digit);
      }
      st := u;
    }
    ReachesEnd(s, st.s, st.next, start, end, starts, pos, digit);
    if mid < end && st.next[y] == mid {
      UntouchedFirst(s, start, mid, end, starts, x, y, pos, digit);
    }
  }

  lemma {:induction false} UntouchedFirst<T>(s: seq<T>, start: nat, mid: nat, end: nat, starts: seq<nat>, x: nat,
      y: nat, pos: nat, digit: (T, nat) -> Byte)
    requires TwoBuckets(s, start, mid, end, starts, x, y, pos, digit) && mid < end
    requires forall k :: start <= k < mid ==> digit(s[k], pos) != y
    ensures IsFirst(s, start, end, y, s[mid], pos, digit)
  {
    assert Fits(s, start, starts, end, x, pos, digit);
    NoStrayX(s, start, mid, end, starts, x, mid, pos, digit);
    assert FirstWith(s, start, end, y, mid, s[mid], pos, digit);
  }
}
