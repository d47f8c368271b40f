/** The in-place MSD radix sort shared by every sort of the library.

`radix_sort_segment` and `radix_sort_order_tags` are the same algorithm over different digits; the
digit extraction is the parameter `digit`. The partition and the sort are functions of the array
(`Parted`, `SortResult`); the methods compute them in place. */
module RadixSort {
  import opened Bytes

  const BUCKETS := 256

  /** `x` comes no later than `y` by the digits from `pos` on. */
  predicate KeyLe<T>(x: T, y: T, pos: nat, keyLen: nat, digit: (T, nat) -> Byte)
    decreases keyLen - pos
  {
    pos >= keyLen || digit(x, pos) < digit(y, pos)
    || (digit(x, pos) == digit(y, pos) && KeyLe(x, y, pos + 1, keyLen, digit))
  }

  // ----- Counting digits -----

  /** Number of elements whose digit at `pos` is `d`. */
  function Tally<T>(s: seq<T>, pos: nat, d: int, digit: (T, nat) -> Byte): nat {
    if s == [] then 0
    else Tally(s[..|s| - 1], pos, d, digit) + if digit(s[|s| - 1], pos) == d then 1 else 0
  }

  lemma {:induction false} TallyConcat<T>(s: seq<T>, t: seq<T>, pos: nat, d: int, digit: (T, nat) -> Byte)
    ensures Tally(s + t, pos, d, digit) == Tally(s, pos, d, digit) + Tally(t, pos, d, digit)
  {
    if t == [] {
      assert s + t == s;
    } else {
      TallyConcat(s, t[..|t| - 1], pos, d, digit);
      assert (s + t)[..|s + t| - 1] == s + t[..|t| - 1];
    }
  }

  lemma {:induction false} TallyUpdate<T>(s: seq<T>, k: nat, v: T, pos: nat, d: int, digit: (T, nat) -> Byte)
    requires k < |s|
    ensures Tally(s[k := v], pos, d, digit) + (if digit(s[k], pos) == d then 1 else 0)
      == Tally(s, pos, d, digit) + (if digit(v, pos) == d then 1 else 0)
  {
    var n := |s| - 1;
    if k < n {
      TallyUpdate(s[..n], k, v, pos, d, digit);
      assert s[k := v][..n] == s[..n][k := v];
    } else {
      assert s[k := v][..n] == s[..n];
    }
  }

  function Swapped<T>(s: seq<T>, i: nat, j: nat): seq<T>
    requires i < |s| && j < |s|
  {
    s[i := s[j]][j := s[i]]
  }

  lemma {:induction false} SwapKeeps<T>(s: seq<T>, i: nat, j: nat, pos: nat, d: int, digit: (T, nat) -> Byte)
    requires i < |s| && j < |s| && i != j
    ensures Tally(Swapped(s, i, j), pos, d, digit) == Tally(s, pos, d, digit)
    ensures multiset(Swapped(s, i, j)) == multiset(s)
  {
    TallyUpdate(s, i, s[j], pos, d, digit);
    TallyUpdate(s[i := s[j]], j, s[i], pos, d, digit);
  }

  lemma {:induction false} TallyFull<T>(s: seq<T>, pos: nat, d: int, digit: (T, nat) -> Byte)
    requires forall k :: 0 <= k < |s| ==> digit(s[k], pos) == d
    ensures Tally(s, pos, d, digit) == |s|
  {
    if s != [] {
      TallyFull(s[..|s| - 1], pos, d, digit);
    }
  }

  /** A bucket already full of its digit leaves no room for one more occurrence outside it. */
  lemma {:induction false} TallyOverflow<T>(s: seq<T>, lo: nat, hi: nat, extra: nat, pos: nat, d: int,
      digit: (T, nat) -> Byte)
    requires lo <= hi <= |s| && extra < |s| && !(lo <= extra < hi) && digit(s[extra], pos) == d
    requires forall k :: lo <= k < hi ==> digit(s[k], pos) == d
    ensures Tally(s, pos, d, digit) > hi - lo
  {
    assert s == s[..lo] + (s[lo..hi] + s[hi..]);
    TallyConcat(s[..lo], s[lo..hi] + s[hi..], pos, d, digit);
    TallyConcat(s[lo..hi], s[hi..], pos, d, digit);
    TallyFull(s[lo..hi], pos, d, digit);
    if extra < lo {
      TallyHas(s[..lo], extra, pos, d, digit);
    } else {
      TallyHas(s[hi..], extra - hi, pos, d, digit);
    }
  }

  lemma {:induction false} TallyHas<T>(s: seq<T>, k: nat, pos: nat, d: int, digit: (T, nat) -> Byte)
    requires k < |s| && digit(s[k], pos) == d
    ensures Tally(s, pos, d, digit) >= 1
  {
    assert s == s[..k] + ([s[k]] + s[k + 1..]);
    TallyConcat(s[..k], [s[k]] + s[k + 1..], pos, d, digit);
    TallyConcat([s[k]], s[k + 1..], pos, d, digit);
    TallyFull([s[k]], pos, d, digit);
  }

  // ----- Sums over buckets -----

  function Sum(c: seq<nat>): nat {
    if c == [] then 0 else Sum(c[..|c| - 1]) + c[|c| - 1]
  }

  lemma {:induction false} SumUpdate(c: seq<nat>, d: nat, v: nat)
    requires d < |c|
    ensures Sum(c[d := v]) + c[d] == Sum(c) + v
  {
    var n := |c| - 1;
    if d < n {
      SumUpdate(c[..n], d, v);
      assert c[d := v][..n] == c[..n][d := v];
    } else {
      assert c[d := v][..n] == c[..n];
    }
  }

  lemma {:induction false} SumZero(c: seq<nat>)
    requires forall d :: 0 <= d < |c| ==> c[d] == 0
    ensures Sum(c) == 0
  {
    if c != [] { SumZero(c[..|c| - 1]); }
  }

  // ----- The partition -----

  /** Exclusive end of the bucket of digit `d`. */
  function EndOf(starts: seq<nat>, end: nat, d: nat): nat
    requires |starts| == BUCKETS && d < BUCKETS
  {
    if d < BUCKETS - 1 then starts[d + 1] else end
  }

  /** The buckets partition `start..end` in digit order. */
  ghost predicate Buckets(starts: seq<nat>, start: nat, end: nat) {
    && |starts| == BUCKETS && starts[0] == start
    && (forall d {:trigger EndOf(starts, end, d)} :: 0 <= d < BUCKETS ==>
      start <= starts[d] <= EndOf(starts, end, d) <= end)
    && (forall d, e :: 0 <= d < e < BUCKETS ==> EndOf(starts, end, d) <= starts[e])
  }

  /** A bucket lies inside the segment. */
  lemma {:induction false} BucketBounds(starts: seq<nat>, start: nat, end: nat, d: nat)
    requires Buckets(starts, start, end) && d < BUCKETS
    ensures EndOf(starts, end, d) <= end && starts[d] <= EndOf(starts, end, d) && start <= starts[d]
  {
    assert EndOf(starts, end, d) <= end;
  }

  /** Element `k` lies in the bucket of its digit. */
  ghost predicate Placed<T>(s: seq<T>, k: nat, starts: seq<nat>, end: nat, pos: nat, digit: (T, nat) -> Byte)
    requires k < |s| && |starts| == BUCKETS
  {
    starts[digit(s[k], pos)] <= k < EndOf(starts, end, digit(s[k], pos))
  }

  /** The histogram loop. */
  method CountDigits<T>(a: array<T>, start: nat, end: nat, pos: nat, digit: (T, nat) -> Byte) returns (count: seq<nat>)
    requires start <= end <= a.Length
    ensures |count| == BUCKETS && Sum(count) == end - start
    ensures forall d :: 0 <= d < BUCKETS ==> count[d] == Tally(a[start..end], pos, d, digit)
  {
    count := seq(BUCKETS, _ => 0);
    SumZero(count);
    for i := start to end
      invariant |count| == BUCKETS && Sum(count) == i - start
      invariant forall d :: 0 <= d < BUCKETS ==> count[d] == Tally(a[start..i], pos, d, digit)
    {
      var d := digit(a[i], pos);
      assert a[start..i + 1][..i - start] == a[start..i];
      SumUpdate(count, d, count[d] + 1);
      count := count[d := count[d] + 1];
    }
  }

  /** The bucket starts. */
  method BucketStarts(count: seq<nat>, start: nat, end: nat) returns (starts: seq<nat>)
    requires |count| == BUCKETS && Sum(count) == end - start
    ensures Buckets(starts, start, end)
    ensures forall d :: 0 <= d < BUCKETS ==> EndOf(starts, end, d) == starts[d] + count[d]
  {
    starts := [start];
    for b := 1 to BUCKETS
      invariant |starts| == b && forall d :: 0 <= d < b ==> starts[d] == start + Sum(count[..d])
    {
      assert count[..b][..b - 1] == count[..b - 1];
      starts := starts + [starts[b - 1] + count[b - 1]];
    }
    StartsAreBuckets(count, start, end, starts);
  }

  lemma {:induction false} StartsAreBuckets(count: seq<nat>, start: nat, end: nat, starts: seq<nat>)
    requires |count| == BUCKETS && Sum(count) == end - start && |starts| == BUCKETS
    requires forall d :: 0 <= d < BUCKETS ==> starts[d] == start + Sum(count[..d])
    ensures Buckets(starts, start, end)
    ensures forall d :: 0 <= d < BUCKETS ==> EndOf(starts, end, d) == starts[d] + count[d]
  {
    forall d: nat | d < BUCKETS
      ensures start <= starts[d] <= EndOf(starts, end, d) <= end
      ensures EndOf(starts, end, d) == starts[d] + count[d]
    {
      BucketEnd(count, start, end, starts, d);
    }
    forall d: nat, e: nat | d < e < BUCKETS
      ensures EndOf(starts, end, d) <= starts[e]
    {
      BucketsApart(count, start, end, starts, d, e);
    }
  }

  lemma {:induction false} BucketsApart(count: seq<nat>, start: nat, end: nat, starts: seq<nat>, d: nat, e: nat)
    requires |count| == BUCKETS && Sum(count) == end - start && |starts| == BUCKETS && d < e < BUCKETS
    requires forall d :: 0 <= d < BUCKETS ==> starts[d] == start + Sum(count[..d])
    ensures EndOf(starts, end, d) <= starts[e]
  {
    BucketEnd(count, start, end, starts, d);
    SumPrefix(count[..e], d + 1);
    assert count[..e][..d + 1] == count[..d + 1];
  }

  lemma {:induction false} BucketEnd(count: seq<nat>, start: nat, end: nat, starts: seq<nat>, d: nat)
    requires |count| == BUCKETS && Sum(count) == end - start && |starts| == BUCKETS && d < BUCKETS
    requires forall e :: 0 <= e < BUCKETS ==> starts[e] == start + Sum(count[..e])
    ensures EndOf(starts, end, d) == start + Sum(count[..d + 1]) == starts[d] + count[d] <= end
  {
    assert count[..d + 1][..d] == count[..d];
    assert count[..BUCKETS] == count;
    SumPrefix(count, d + 1);
  }

  lemma {:induction false} SumPrefix(c: seq<nat>, n: nat)
    requires n <= |c|
    ensures Sum(c[..n]) <= Sum(c)
  {
    if n < |c| {
      SumPrefix(c[..|c| - 1], n);
      assert c[..|c| - 1][..n] == c[..n];
    } else {
      assert c[..n] == c;
    }
  }

  /** `t` rearranges the segment `lo..hi` of `s` and leaves the rest alone. */
  ghost predicate Rearranged<T>(s: seq<T>, t: seq<T>, lo: nat, hi: nat) {
    && lo <= hi <= |s| == |t|
    && multiset(s[lo..hi]) == multiset(t[lo..hi])
    && s[..lo] == t[..lo] && s[hi..] == t[hi..]
  }

  /** A rearrangement of an inner segment is one of the outer segment. */
  lemma RearrangedWider<T>(s: seq<T>, t: seq<T>, lo: nat, hi: nat, start: nat, end: nat)
    requires Rearranged(s, t, lo, hi) && start <= lo <= hi <= end <= |s|
    ensures Rearranged(s, t, start, end)
  {
    SplitSegment(s, lo, hi, start, end);
    SplitSegment(t, lo, hi, start, end);
  }

  lemma {:induction false} SplitSegment<T>(s: seq<T>, lo: nat, hi: nat, start: nat, end: nat)
    requires start <= lo <= hi <= end <= |s|
    ensures s[start..end] == s[..lo][start..] + s[lo..hi] + s[hi..][..end - hi]
    ensures s[..start] == s[..lo][..start] && s[end..] == s[hi..][end - hi..]
  {
  }

  /** Outside the segment a rearrangement changes nothing; inside, only old elements appear. */
  lemma RearrangedAt<T>(s: seq<T>, t: seq<T>, lo: nat, hi: nat, k: nat) returns (j: nat)
    requires Rearranged(s, t, lo, hi) && k < |s|
    ensures j < |s| && t[k] == s[j]
    ensures if lo <= k < hi then lo <= j < hi else j == k
  {
    if lo <= k < hi {
      assert t[lo..hi][k - lo] in multiset(t[lo..hi]);
      assert t[k] in s[lo..hi];
      var m :| 0 <= m < hi - lo && s[lo..hi][m] == t[k];
      j := lo + m;
    } else {
      j := k;
      if k < lo {
        assert s[..lo][k] == t[..lo][k];
      } else {
        assert s[hi..][k - hi] == t[hi..][k - hi];
      }
    }
  }

  /** Every position below `i` is settled. */
  ghost predicate Settled<T>(s: seq<T>, start: nat, i: nat, starts: seq<nat>, end: nat, pos: nat,
      digit: (T, nat) -> Byte)
    requires i <= |s| && |starts| == BUCKETS
  {
    forall k: nat :: start <= k < i ==> Placed(s, k, starts, end, pos, digit)
  }

  /** Bucket `d` holds its own digit up to `upTo`. */
  ghost predicate Filled<T>(s: seq<T>, starts: seq<nat>, end: nat, d: nat, upTo: nat, pos: nat, digit: (T, nat) -> Byte)
    requires |starts| == BUCKETS && d < BUCKETS && end <= |s|
  {
    starts[d] <= upTo <= EndOf(starts, end, d) <= |s| && forall k :: starts[d] <= k < upTo ==> digit(s[k], pos) == d
  }

  /** Bucket `d` has as many places as the segment has elements with that digit. */
  ghost predicate Fits<T>(s: seq<T>, start: nat, starts: seq<nat>, end: nat, d: nat, pos: nat, digit: (T, nat) -> Byte)
    requires |starts| == BUCKETS && d < BUCKETS && start <= end <= |s|
  {
    Tally(s[start..end], pos, d, digit) == EndOf(starts, end, d) - starts[d]
  }

  /** The state of the swap loop at position `i`: `next[d]` runs through bucket `d`. */
  ghost predicate Partitioning<T>(s: seq<T>, i: nat, start: nat, end: nat, starts: seq<nat>, next: seq<nat>, pos: nat,
      digit: (T, nat) -> Byte)
  {
    && start <= i <= end <= |s| && Buckets(starts, start, end) && |next| == BUCKETS
    && Settled(s, start, i, starts, end, pos, digit)
    && (forall d: nat :: d < BUCKETS ==> Filled(s, starts, end, d, next[d], pos, digit))
    && (forall d: nat :: d < BUCKETS ==> Fits(s, start, starts, end, d, pos, digit))
  }

  /** A misplaced element's bucket still has room, and its next slot is not the element's own. */
  lemma BucketHasRoom<T>(s: seq<T>, i: nat, start: nat, end: nat, starts: seq<nat>, next: nat, pos: nat,
      digit: (T, nat) -> Byte)
    requires start <= i < end <= |s| && Buckets(starts, start, end) && !Placed(s, i, starts, end, pos, digit)
    requires Filled(s, starts, end, digit(s[i], pos), next, pos, digit)
    requires Fits(s, start, starts, end, digit(s[i], pos), pos, digit)
    ensures next < EndOf(starts, end, digit(s[i], pos)) && next != i
  {
    var d := digit(s[i], pos);
    if next == EndOf(starts, end, d) {
      TallyOverflow(s[start..end], starts[d] - start, next - start, i - start, pos, d, digit);
    }
  }

  lemma SwapSettled<T>(s: seq<T>, t: seq<T>, i: nat, j: nat, start: nat, end: nat, starts: seq<nat>, pos: nat,
      digit: (T, nat) -> Byte)
    requires start <= i < end <= |s| && Buckets(starts, start, end) && Settled(s, start, i, starts, end, pos, digit)
    requires j < |s| && starts[digit(s[i], pos)] <= j < EndOf(starts, end, digit(s[i], pos)) && t == Swapped(s, i, j)
    ensures Settled(t, start, i, starts, end, pos, digit)
  {
    forall k: nat | start <= k < i
      ensures Placed(t, k, starts, end, pos, digit)
    {
      assert Placed(s, k, starts, end, pos, digit);
    }
  }

  lemma SwapFilled<T>(s: seq<T>, t: seq<T>, i: nat, j: nat, start: nat, end: nat, starts: seq<nat>, e: nat, next: nat,
      pos: nat, digit: (T, nat) -> Byte)
    requires start <= i < end <= |s| && Buckets(starts, start, end) && e < BUCKETS
    requires !Placed(s, i, starts, end, pos, digit)
    requires Filled(s, starts, end, e, next, pos, digit)
    requires starts[digit(s[i], pos)] <= j < EndOf(starts, end, digit(s[i], pos)) <= |s| && t == Swapped(s, i, j)
    requires e == digit(s[i], pos) ==> next == j
    ensures Filled(t, starts, end, e, if e == digit(s[i], pos) then j + 1 else next, pos, digit)
  {
    var d := digit(s[i], pos);
    assert e < d ==> EndOf(starts, end, e) <= starts[d];
    assert d < e ==> EndOf(starts, end, d) <= starts[e];
  }

  lemma {:induction false} SwapRearranged<T>(s: seq<T>, t: seq<T>, i: nat, j: nat, start: nat, end: nat)
    requires start <= i < end <= |s| && start <= j < end && i != j && t == Swapped(s, i, j)
    ensures t[start..end] == Swapped(s[start..end], i - start, j - start) && s[..start] == t[..start]
    ensures s[end..] == t[end..]
  {
  }

  lemma {:induction false} SwapFits<T>(s: seq<T>, t: seq<T>, i: nat, j: nat, start: nat, end: nat, starts: seq<nat>,
      e: nat, pos: nat, digit: (T, nat) -> Byte)
    requires start <= i < end <= |s| && start <= j < end && i != j && |starts| == BUCKETS && e < BUCKETS
    requires Fits(s, start, starts, end, e, pos, digit) && t == Swapped(s, i, j)
    ensures Fits(t, start, starts, end, e, pos, digit) && Rearranged(s, t, start, end)
  {
    SwapRearranged(s, t, i, j, start, end);
    SwapKeeps(s[start..end], i - start, j - start, pos, e, digit);
  }

  /** One swap keeps the partition state and uses up one free slot. */
  lemma SwapStep<T>(s: seq<T>, t: seq<T>, i: nat, j: nat, start: nat, end: nat, starts: seq<nat>, next: seq<nat>,
      pos: nat, digit: (T, nat) -> Byte)
    requires Partitioning(s, i, start, end, starts, next, pos, digit) && i < end
    requires !Placed(s, i, starts, end, pos, digit)
    requires j == next[digit(s[i], pos)] < EndOf(starts, end, digit(s[i], pos)) && j != i && t == Swapped(s, i, j)
    ensures Partitioning(t, i, start, end, starts, next[digit(s[i], pos) := j + 1], pos, digit)
    ensures Rearranged(s, t, start, end)
  {
    var d := digit(s[i], pos);
    var next' := next[d := j + 1];
    SwapSettled(s, t, i, j, start, end, starts, pos, digit);
    forall e: nat | e < BUCKETS
      ensures Filled(t, starts, end, e, next'[e], pos, digit) && Fits(t, start, starts, end, e, pos, digit)
    {
      assert Filled(s, starts, end, e, next[e], pos, digit) && Fits(s, start, starts, end, e, pos, digit);
      SwapFilled(s, t, i, j, start, end, starts, e, next[e], pos, digit);
      SwapFits(s, t, i, j, start, end, starts, e, pos, digit);
    }
    SwapFits(s, t, i, j, start, end, starts, d, pos, digit);
  }

  /** Free slots left: what the swap loop uses up. */
  ghost function Room(next: seq<nat>, end: nat): int {
    |next| * end - Sum(next)
  }

  lemma {:induction false} RoomBound(next: seq<nat>, end: nat)
    requires forall d :: 0 <= d < |next| ==> next[d] <= end
    ensures Room(next, end) >= 0
  {
    if next != [] {
      RoomBound(next[..|next| - 1], end);
    }
  }

  // ----- The swap loop, turn by turn -----

  datatype SwapState<T> = SwapState(s: seq<T>, i: nat, next: seq<nat>)

  /** One turn of the loop: step over a placed element, or send it to its bucket's next slot. */
  function Turn<T>(st: SwapState<T>, starts: seq<nat>, end: nat, pos: nat, digit: (T, nat) -> Byte): (r: SwapState<T>)
    requires |starts| == |st.next| == BUCKETS
    ensures |r.next| == BUCKETS && |r.s| == |st.s|
  {
    if st.i >= end || st.i >= |st.s| then st
    else
      var d := digit(st.s[st.i], pos);
      var j := st.next[d];
      if starts[d] <= st.i < EndOf(starts, end, d) then st.(i := st.i + 1)
      else if j < |st.s| then SwapState(Swapped(st.s, st.i, j), st.i, st.next[d := j + 1])
      else st
  }

  /** The state after `k` turns. */
  function Turns<T>(st: SwapState<T>, k: nat, starts: seq<nat>, end: nat, pos: nat,
      digit: (T, nat) -> Byte): (r: SwapState<T>)
    requires |starts| == |st.next| == BUCKETS
    ensures |r.next| == BUCKETS && |r.s| == |st.s|
  {
    if k == 0 then st else Turn(Turns(st, k - 1, starts, end, pos, digit), starts, end, pos, digit)
  }

  lemma {:induction false} TurnPlaced<T>(s: seq<T>, i: nat, next: seq<nat>, starts: seq<nat>, end: nat, pos: nat,
      digit: (T, nat) -> Byte)
    requires |starts| == |next| == BUCKETS && i < end <= |s| && Placed(s, i, starts, end, pos, digit)
    ensures Turn(SwapState(s, i, next), starts, end, pos, digit) == SwapState(s, i + 1, next)
  {
  }

  lemma {:induction false} OneMoreTurn<T>(from: SwapState<T>, k: nat, st: SwapState<T>, u: SwapState<T>,
      starts: seq<nat>, end: nat, pos: nat, digit: (T, nat) -> Byte)
    requires |starts| == |from.next| == |st.next| == BUCKETS
    requires Turns(from, k, starts, end, pos, digit) == st && Turn(st, starts, end, pos, digit) == u
    ensures Turns(from, k + 1, starts, end, pos, digit) == u
  {
  }

  lemma {:induction false} TurnSwaps<T>(s: seq<T>, i: nat, next: seq<nat>, d: nat, starts: seq<nat>, end: nat,
      pos: nat, digit: (T, nat) -> Byte)
    requires |starts| == |next| == BUCKETS && i < end <= |s| && !Placed(s, i, starts, end, pos, digit)
    requires d == digit(s[i], pos) && next[d] < |s|
    ensures Turn(SwapState(s, i, next), starts, end, pos, digit)
      == SwapState(Swapped(s, i, next[d]), i, next[d := next[d] + 1])
  {
  }

  /** One state follows another: still partitioning, one turn further. */
  ghost predicate Follows<T>(st: SwapState<T>, r: SwapState<T>, start: nat, end: nat, starts: seq<nat>, pos: nat,
      digit: (T, nat) -> Byte) {
    && Partitioning(r.s, r.i, start, end, starts, r.next, pos, digit) && Rearranged(st.s, r.s, start, end)
    && (r.i == st.i + 1 || (r.i == st.i && 0 <= Room(r.next, end) < Room(st.next, end)))
  }

  lemma {:induction false} StepFollows<T>(s: seq<T>, i: nat, next: seq<nat>, start: nat, end: nat, starts: seq<nat>,
      pos: nat, digit: (T, nat) -> Byte)
    requires Partitioning(s, i, start, end, starts, next, pos, digit) && i < end
      && Placed(s, i, starts, end, pos, digit)
    ensures Follows(SwapState(s, i, next), Turn(SwapState(s, i, next), starts, end, pos, digit), start, end, starts,
      pos, digit)
  {
    SettleNext(s, i, start, end, starts, next, pos, digit);
    TurnPlaced(s, i, next, starts, end, pos, digit);
  }

  lemma {:induction false} SwapFollows<T>(s: seq<T>, i: nat, next: seq<nat>, d: nat, start: nat, end: nat,
      starts: seq<nat>, pos: nat, digit: (T, nat) -> Byte)
    requires Partitioning(s, i, start, end, starts, next, pos, digit) && i < end
    requires !Placed(s, i, starts, end, pos, digit) && d == digit(s[i], pos)
    ensures Follows(SwapState(s, i, next), Turn(SwapState(s, i, next), starts, end, pos, digit), start, end, starts,
      pos, digit)
  {
    NextSlot(s, i, start, end, starts, next, d, pos, digit);
    SwapDone(s, Swapped(s, i, next[d]), i, next[d], start, end, starts, next, pos, digit);
    TurnSwaps(s, i, next, d, starts, end, pos, digit);
  }

  /** One turn keeps the partition state and makes progress. */
  lemma {:induction false} TurnKeeps<T>(st: SwapState<T>, start: nat, end: nat, starts: seq<nat>, pos: nat,
      digit: (T, nat) -> Byte)
    requires Partitioning(st.s, st.i, start, end, starts, st.next, pos, digit) && st.i < end
    ensures Follows(st, Turn(st, starts, end, pos, digit), start, end, starts, pos, digit)
  {
    if Placed(st.s, st.i, starts, end, pos, digit) {
      StepFollows(st.s, st.i, st.next, start, end, starts, pos, digit);
    } else {
      SwapFollows(st.s, st.i, st.next, digit(st.s[st.i], pos), start, end, starts, pos, digit);
    }
  }

  lemma {:induction false} RearrangedTwice<T>(s: seq<T>, t: seq<T>, u: seq<T>, lo: nat, hi: nat)
    requires Rearranged(s, t, lo, hi) && Rearranged(t, u, lo, hi)
    ensures Rearranged(s, u, lo, hi)
  {
  }

  /** Any number of turns keeps the partition state. */
  lemma {:induction false} TurnsKeep<T>(st: SwapState<T>, k: nat, start: nat, end: nat, starts: seq<nat>, pos: nat,
      digit: (T, nat) -> Byte)
    requires Partitioning(st.s, st.i, start, end, starts, st.next, pos, digit)
    ensures var r := Turns(st, k, starts, end, pos, digit);
      Partitioning(r.s, r.i, start, end, starts, r.next, pos, digit) && Rearranged(st.s, r.s, start, end)
  {
    if k > 0 {
      TurnsKeep(st, k - 1, start, end, starts, pos, digit);
      var r := Turns(st, k - 1, starts, end, pos, digit);
      if r.i < end {
        TurnKeeps(r, start, end, starts, pos, digit);
        RearrangedTwice(st.s, r.s, Turn(r, starts, end, pos, digit).s, start, end);
      }
    }
  }

  /** `starts` are the bucket starts that the segment's histogram gives. */
  ghost predicate StartsFor<T>(s: seq<T>, start: nat, end: nat, starts: seq<nat>, pos: nat, digit: (T, nat) -> Byte) {
    && start <= end <= |s| && Buckets(starts, start, end)
    && forall d: nat :: d < BUCKETS ==> Fits(s, start, starts, end, d, pos, digit)
  }

  /** From `starts` the swap loop comes to the end of the segment after `k` turns. */
  ghost predicate RunEnds<T>(s: seq<T>, start: nat, end: nat, starts: seq<nat>, k: nat, pos: nat,
      digit: (T, nat) -> Byte) {
    && StartsFor(s, start, end, starts, pos, digit)
    && Turns(SwapState(s, start, starts), k, starts, end, pos, digit).i == end
  }

  /** Once the loop has come to the end, more turns change nothing. */
  lemma {:induction false} TurnsStay<T>(st: SwapState<T>, k: nat, m: nat, starts: seq<nat>, end: nat, pos: nat,
      digit: (T, nat) -> Byte)
    requires |starts| == |st.next| == BUCKETS && k <= m && Turns(st, k, starts, end, pos, digit).i >= end
    ensures Turns(st, m, starts, end, pos, digit) == Turns(st, k, starts, end, pos, digit)
  {
    if k < m {
      TurnsStay(st, k, m - 1, starts, end, pos, digit);
    }
  }

  /** The histogram fixes the bucket starts. */
  lemma {:induction false} StartsUnique<T>(s: seq<T>, start: nat, end: nat, x: seq<nat>, y: seq<nat>, d: nat, pos: nat,
      digit: (T, nat) -> Byte)
    requires StartsFor(s, start, end, x, pos, digit) && StartsFor(s, start, end, y, pos, digit) && d < BUCKETS
    ensures x[d] == y[d]
  {
    if d > 0 {
      StartsUnique(s, start, end, x, y, d - 1, pos, digit);
      assert Fits(s, start, x, end, d - 1, pos, digit) && Fits(s, start, y, end, d - 1, pos, digit);
    }
  }

  function Counts<T>(s: seq<T>, pos: nat, digit: (T, nat) -> Byte): (c: seq<nat>)
    ensures |c| == BUCKETS && forall d :: 0 <= d < BUCKETS ==> c[d] == Tally(s, pos, d, digit)
  {
    seq(BUCKETS, d => Tally(s, pos, d, digit))
  }

  lemma {:induction false} CountsSum<T>(s: seq<T>, pos: nat, digit: (T, nat) -> Byte)
    ensures Sum(Counts(s, pos, digit)) == |s|
  {
    if s == [] {
      SumZero(Counts(s, pos, digit));
    } else {
      var c, d := Counts(s[..|s| - 1], pos, digit), digit(s[|s| - 1], pos);
      CountsSum(s[..|s| - 1], pos, digit);
      SumUpdate(c, d, c[d] + 1);
      assert Counts(s, pos, digit) == c[d := c[d] + 1];
    }
  }

  lemma {:induction false} StartsExist<T>(s: seq<T>, start: nat, end: nat, pos: nat, digit: (T, nat) -> Byte)
      returns (starts: seq<nat>)
    requires start <= end <= |s|
    ensures StartsFor(s, start, end, starts, pos, digit)
  {
    var count := Counts(s[start..end], pos, digit);
    CountsSum(s[start..end], pos, digit);
    starts := seq(BUCKETS, d requires 0 <= d < BUCKETS => start + Sum(count[..d]));
    StartsAreBuckets(count, start, end, starts);
    CountsFit(s, start, end, starts, count, pos, digit);
  }

  lemma {:induction false} CountsFit<T>(s: seq<T>, start: nat, end: nat, starts: seq<nat>, count: seq<nat>, pos: nat,
      digit: (T, nat) -> Byte)
    requires start <= end <= |s| && Buckets(starts, start, end) && |count| == BUCKETS
    requires forall d :: 0 <= d < BUCKETS ==> count[d] == Tally(s[start..end], pos, d, digit)
    requires forall d :: 0 <= d < BUCKETS ==> EndOf(starts, end, d) == starts[d] + count[d]
    ensures StartsFor(s, start, end, starts, pos, digit)
  {
  }

  /** The swap loop always comes to the end. */
  lemma {:induction false} RunExists<T>(s: seq<T>, start: nat, end: nat, pos: nat, digit: (T, nat) -> Byte)
    requires start <= end <= |s|
    ensures exists starts, k: nat :: RunEnds(s, start, end, starts, k, pos, digit)
  {
    var starts := StartsExist(s, start, end, pos, digit);
    var st, k: nat := SwapState(s, start, starts), 0;
    NothingPlaced(s, start, end, starts, pos, digit);
    while Turns(st, k, starts, end, pos, digit).i < end
      invariant var r := Turns(st, k, starts, end, pos, digit);
        Partitioning(r.s, r.i, start, end, starts, r.next, pos, digit)
      decreases end - Turns(st, k, starts, end, pos, digit).i, Room(Turns(st, k, starts, end, pos, digit).next, end)
    {
      TurnKeeps(Turns(st, k, starts, end, pos, digit), start, end, starts, pos, digit);
      k := k + 1;
    }
    assert RunEnds(s, start, end, starts, k, pos, digit);
  }

  ghost function RunOf<T>(s: seq<T>, start: nat, end: nat, pos: nat, digit: (T, nat) -> Byte): (r: (seq<nat>, nat))
    requires start <= end <= |s|
    ensures RunEnds(s, start, end, r.0, r.1, pos, digit)
  {
    RunExists(s, start, end, pos, digit);
    var starts, k: nat :| RunEnds(s, start, end, starts, k, pos, digit);
    (starts, k)
  }

  ghost function StartsOf<T>(s: seq<T>, start: nat, end: nat, pos: nat, digit: (T, nat) -> Byte): (starts: seq<nat>)
    requires start <= end <= |s|
    ensures StartsFor(s, start, end, starts, pos, digit)
  {
    RunOf(s, start, end, pos, digit).0
  }

  /** What the partition makes of a segment. */
  ghost function Parted<T>(s: seq<T>, start: nat, end: nat, pos: nat, digit: (T, nat) -> Byte): (t: seq<T>)
    requires start <= end <= |s|
    ensures |t| == |s|
  {
    var r := RunOf(s, start, end, pos, digit);
    Turns(SwapState(s, start, r.0), r.1, r.0, end, pos, digit).s
  }

  /** Every run of the swap loop that comes to the end leaves the same array. */
  lemma {:induction false} PartitionUnique<T>(s: seq<T>, start: nat, end: nat, starts: seq<nat>, k: nat, pos: nat,
      digit: (T, nat) -> Byte)
    requires RunEnds(s, start, end, starts, k, pos, digit)
    ensures starts == StartsOf(s, start, end, pos, digit)
    ensures Turns(SwapState(s, start, starts), k, starts, end, pos, digit).s == Parted(s, start, end, pos, digit)
  {
    var r := RunOf(s, start, end, pos, digit);
    forall d: nat | d < BUCKETS
      ensures starts[d] == r.0[d]
    {
      StartsUnique(s, start, end, starts, r.0, d, pos, digit);
    }
    assert starts == r.0;
    var st := SwapState(s, start, starts);
    TurnsStay(st, k, if k < r.1 then r.1 else k, starts, end, pos, digit);
    TurnsStay(st, r.1, if k < r.1 then r.1 else k, starts, end, pos, digit);
  }

  /** The partition puts every element into its bucket. */
  lemma {:induction false} PartedSettled<T>(s: seq<T>, start: nat, end: nat, pos: nat, digit: (T, nat) -> Byte)
    requires start <= end <= |s|
    ensures Settled(Parted(s, start, end, pos, digit), start, end, StartsOf(s, start, end, pos, digit), end, pos, digit)
    ensures Rearranged(s, Parted(s, start, end, pos, digit), start, end)
  {
    var r := RunOf(s, start, end, pos, digit);
    NothingPlaced(s, start, end, r.0, pos, digit);
    TurnsKeep(SwapState(s, start, r.0), r.1, start, end, r.0, pos, digit);
  }

  /** The in-place partition: histogram, bucket starts, swap loop. */
  method Partition<T>(a: array<T>, start: nat, end: nat, pos: nat, digit: (T, nat) -> Byte) returns (starts: seq<nat>)
    requires start <= end <= a.Length
    modifies a
    ensures starts == StartsOf(old(a[..]), start, end, pos, digit)
    ensures a[..] == Parted(old(a[..]), start, end, pos, digit)
  {
    var count := CountDigits(a, start, end, pos, digit);
    starts := BucketStarts(count, start, end);
    ghost var was := a[..];
    assert was[start..end] == a[start..end];
    assert forall d: nat :: d < BUCKETS ==> Fits(was, start, starts, end, d, pos, digit);
    ghost var turns := SwapLoop(a, start, end, starts, pos, digit);
    PartitionUnique(was, start, end, starts, turns, pos, digit);
  }

  lemma NothingPlaced<T>(s: seq<T>, start: nat, end: nat, starts: seq<nat>, pos: nat, digit: (T, nat) -> Byte)
    requires StartsFor(s, start, end, starts, pos, digit)
    ensures Partitioning(s, start, start, end, starts, starts, pos, digit)
  {
  }

  lemma SettleNext<T>(s: seq<T>, i: nat, start: nat, end: nat, starts: seq<nat>, next: seq<nat>, pos: nat,
      digit: (T, nat) -> Byte)
    requires Partitioning(s, i, start, end, starts, next, pos, digit) && i < end
    requires Placed(s, i, starts, end, pos, digit)
    ensures Partitioning(s, i + 1, start, end, starts, next, pos, digit)
  {
  }

  method SwapLoop<T>(a: array<T>, start: nat, end: nat, starts: seq<nat>, pos: nat, digit: (T, nat) -> Byte)
      returns (ghost turns: nat)
    requires StartsFor(a[..], start, end, starts, pos, digit)
    modifies a
    ensures Settled(a[..], start, end, starts, end, pos, digit)
    ensures Rearranged(old(a[..]), a[..], start, end)
    ensures RunEnds(old(a[..]), start, end, starts, turns, pos, digit)
    ensures Turns(SwapState(old(a[..]), start, starts), turns, starts, end, pos, digit).s == a[..]
  {
    var next := starts;
    var i := start;
    ghost var from := SwapState(a[..], start, starts);
    turns := 0;
    NothingPlaced(a[..], start, end, starts, pos, digit);
    while i < end
      invariant Partitioning(a[..], i, start, end, starts, next, pos, digit)
      invariant Rearranged(from.s, a[..], start, end)
      invariant Turns(from, turns, starts, end, pos, digit) == SwapState(a[..], i, next)
      decreases end - i, Room(next, end)
    {
      ghost var st := SwapState(a[..], i, next);
      TurnKeeps(st, start, end, starts, pos, digit);
      RearrangedTwice(from.s, st.s, Turn(st, starts, end, pos, digit).s, start, end);
      i, next := SwapTurn(a, i, start, end, starts, next, pos, digit);
      OneMoreTurn(from, turns, st, SwapState(a[..], i, next), starts, end, pos, digit);
      turns := turns + 1;
    }
  }

  /** One turn: step over a placed element, or send it to its bucket. */
  method SwapTurn<T>(a: array<T>, i: nat, start: nat, end: nat, starts: seq<nat>, next: seq<nat>, pos: nat,
      digit: (T, nat) -> Byte) returns (i': nat, next': seq<nat>)
    requires i < end <= a.Length && Partitioning(a[..], i, start, end, starts, next, pos, digit)
    modifies a
    ensures |next'| == BUCKETS
    ensures Turn(SwapState(old(a[..]), i, next), starts, end, pos, digit) == SwapState(a[..], i', next')
  {
    ghost var s := a[..];
    var d := digit(a[i], pos);
    if starts[d] <= i < EndOf(starts, end, d) {
      TurnPlaced(s, i, next, starts, end, pos, digit);
      i', next' := i + 1, next;
    } else {
      i' := i;
      next' := SwapInto(a, i, start, end, starts, next, pos, digit);
      TurnSwaps(s, i, next, d, starts, end, pos, digit);
    }
  }

  /** The misplaced element at `i` goes to the next slot of its bucket, never past the bucket's end;
      `i` takes what was there. */
  method SwapInto<T>(a: array<T>, i: nat, start: nat, end: nat, starts: seq<nat>, next: seq<nat>, pos: nat,
      digit: (T, nat) -> Byte) returns (next': seq<nat>)
    requires i < end <= a.Length && Partitioning(a[..], i, start, end, starts, next, pos, digit)
    requires !Placed(a[..], i, starts, end, pos, digit)
    modifies a
    ensures var d := digit(old(a[i]), pos);
      && starts[d] <= next[d] < EndOf(starts, end, d) <= end && next[d] != i
      && a[..] == Swapped(old(a[..]), i, next[d]) && next' == next[d := next[d] + 1]
  {
    var d := digit(a[i], pos);
    var j := next[d];
    NextSlot(a[..], i, start, end, starts, next, d, pos, digit);
    a[i], a[j] := a[j], a[i];
    next' := next[d := j + 1];
  }

  /** The next slot of a misplaced element's bucket. */
  lemma {:induction false} NextSlot<T>(s: seq<T>, i: nat, start: nat, end: nat, starts: seq<nat>, next: seq<nat>,
      d: nat, pos: nat, digit: (T, nat) -> Byte)
    requires Partitioning(s, i, start, end, starts, next, pos, digit) && i < end
    requires !Placed(s, i, starts, end, pos, digit)
    requires d == digit(s[i], pos)
    ensures starts[d] <= next[d] < EndOf(starts, end, d) <= end && next[d] != i
  {
    assert Filled(s, starts, end, d, next[d], pos, digit) && Fits(s, start, starts, end, d, pos, digit);
    BucketHasRoom(s, i, start, end, starts, next[d], pos, digit);
  }

  lemma {:induction false} SwapDone<T>(s: seq<T>, t: seq<T>, i: nat, j: nat, start: nat, end: nat, starts: seq<nat>,
      next: seq<nat>, pos: nat, digit: (T, nat) -> Byte)
    requires Partitioning(s, i, start, end, starts, next, pos, digit) && i < end
    requires !Placed(s, i, starts, end, pos, digit)
    requires j == next[digit(s[i], pos)] < EndOf(starts, end, digit(s[i], pos)) && j != i && t == Swapped(s, i, j)
    ensures Partitioning(t, i, start, end, starts, next[digit(s[i], pos) := j + 1], pos, digit)
    ensures Rearranged(s, t, start, end)
    ensures 0 <= Room(next[digit(s[i], pos) := j + 1], end) < Room(next, end)
  {
    SwapStep(s, t, i, j, start, end, starts, next, pos, digit);
    RoomShrinks(t, i, start, end, starts, next, digit(s[i], pos), j, pos, digit);
  }

  lemma RoomShrinks<T>(s: seq<T>, i: nat, start: nat, end: nat, starts: seq<nat>, next: seq<nat>, d: nat, j: nat,
      pos: nat, digit: (T, nat) -> Byte)
    requires d < BUCKETS == |next| && next[d] == j
    requires Partitioning(s, i, start, end, starts, next[d := j + 1], pos, digit)
    ensures 0 <= Room(next[d := j + 1], end) < Room(next, end)
  {
    var next' := next[d := j + 1];
    SumUpdate(next, d, j + 1);
    forall e: nat | e < BUCKETS
      ensures next'[e] <= end
    {
      assert Filled(s, starts, end, e, next'[e], pos, digit);
    }
    RoomBound(next', end);
  }

  // ----- The recursion -----

  /** Elements of the segment `lo..hi` in key order. */
  ghost predicate SortedRange<T>(s: seq<T>, lo: nat, hi: nat, pos: nat, keyLen: nat, digit: (T, nat) -> Byte)
    requires hi <= |s|
  {
    forall i, j :: lo <= i < j < hi ==> KeyLe(s[i], s[j], pos, keyLen, digit)
  }

  /** A settled element sits in bucket `d` exactly when its digit is `d`. */
  lemma SettledDigit<T>(s: seq<T>, start: nat, end: nat, starts: seq<nat>, d: nat, k: nat, pos: nat,
      digit: (T, nat) -> Byte)
    requires Buckets(starts, start, end) && d < BUCKETS && k < |s| && Placed(s, k, starts, end, pos, digit)
    ensures starts[d] <= k < EndOf(starts, end, d) ==> digit(s[k], pos) == d
    ensures k < starts[d] ==> digit(s[k], pos) < d
  {
    var e: nat := digit(s[k], pos);
    if e < d {
      assert EndOf(starts, end, e) <= starts[d];
    } else if d < e {
      assert EndOf(starts, end, d) <= starts[e];
    }
  }

  /** Bucket `d` sorted by the remaining digits extends the sorted prefix of the segment. */
  lemma AppendBucket<T>(s: seq<T>, start: nat, end: nat, starts: seq<nat>, d: nat, pos: nat, keyLen: nat,
      digit: (T, nat) -> Byte)
    requires start <= end <= |s| && Buckets(starts, start, end) && d < BUCKETS && EndOf(starts, end, d) <= end
    requires Settled(s, start, end, starts, end, pos, digit)
    requires SortedRange(s, start, starts[d], pos, keyLen, digit)
    requires SortedRange(s, starts[d], EndOf(starts, end, d), pos + 1, keyLen, digit)
    ensures SortedRange(s, start, EndOf(starts, end, d), pos, keyLen, digit)
  {
    forall i: nat, j: nat | start <= i < j < EndOf(starts, end, d)
      ensures KeyLe(s[i], s[j], pos, keyLen, digit)
    {
      assert Placed(s, i, starts, end, pos, digit) && Placed(s, j, starts, end, pos, digit);
      SettledDigit(s, start, end, starts, d, i, pos, digit);
      SettledDigit(s, start, end, starts, d, j, pos, digit);
    }
  }

  /** Rearranging one bucket keeps every element in its bucket. */
  lemma StillSettled<T>(s: seq<T>, t: seq<T>, start: nat, end: nat, starts: seq<nat>, d: nat, pos: nat,
      digit: (T, nat) -> Byte)
    requires start <= end <= |s| && Buckets(starts, start, end) && d < BUCKETS
    requires Settled(s, start, end, starts, end, pos, digit)
    requires Rearranged(s, t, starts[d], EndOf(starts, end, d))
    ensures Settled(t, start, end, starts, end, pos, digit)
  {
    forall k: nat | start <= k < end
      ensures Placed(t, k, starts, end, pos, digit)
    {
      var j := RearrangedAt(s, t, starts[d], EndOf(starts, end, d), k);
      assert Placed(s, j, starts, end, pos, digit);
      SettledDigit(s, start, end, starts, d, j, pos, digit);
    }
  }

  lemma SortedKept<T>(s: seq<T>, t: seq<T>, start: nat, lo: nat, hi: nat, pos: nat, keyLen: nat,
      digit: (T, nat) -> Byte)
    requires Rearranged(s, t, lo, hi) && SortedRange(s, start, lo, pos, keyLen, digit)
    ensures SortedRange(t, start, lo, pos, keyLen, digit)
  {
    assert forall k | 0 <= k < lo :: t[k] == t[..lo][k] == s[..lo][k] == s[k];
  }

  /** How many digits are left: what the recursion uses up. */
  function Left(pos: nat, keyLen: nat): nat {
    if pos < keyLen then keyLen - pos else 0
  }

  /** What the sort makes of a segment. */
  ghost function SortResult<T>(s: seq<T>, start: nat, end: nat, pos: nat, keyLen: nat,
      digit: (T, nat) -> Byte): (r: seq<T>)
    requires start <= end <= |s|
    ensures |r| == |s|
    decreases Left(pos, keyLen), 0, 0
  {
    if end - start <= 1 || pos >= keyLen then s
    else
      var starts := StartsOf(s, start, end, pos, digit);
      BucketsResult(Parted(s, start, end, pos, digit), start, end, starts, BUCKETS, pos + 1, keyLen, digit)
  }

  /** The first `n` buckets sorted, one after the other. */
  ghost function BucketsResult<T>(s: seq<T>, start: nat, end: nat, starts: seq<nat>, n: nat, pos: nat, keyLen: nat,
      digit: (T, nat) -> Byte): (r: seq<T>)
    requires start <= end <= |s| && Buckets(starts, start, end) && n <= BUCKETS
    ensures |r| == |s|
    decreases Left(pos, keyLen), 1, n
  {
    if n == 0 then s
    else
      var w := BucketsResult(s, start, end, starts, n - 1, pos, keyLen, digit);
      SortResult(w, starts[n - 1], EndOf(starts, end, n - 1), pos, keyLen, digit)
  }

  /** The sort leaves a permutation of the segment in key order, and the rest of the array alone. */
  lemma {:induction false} ResultSorted<T>(s: seq<T>, start: nat, end: nat, pos: nat, keyLen: nat,
      digit: (T, nat) -> Byte)
    requires start <= end <= |s|
    ensures SortedRange(SortResult(s, start, end, pos, keyLen, digit), start, end, pos, keyLen, digit)
    ensures Rearranged(s, SortResult(s, start, end, pos, keyLen, digit), start, end)
    decreases Left(pos, keyLen), 0, 0
  {
    if end - start > 1 && pos < keyLen {
      var t, starts := Parted(s, start, end, pos, digit), StartsOf(s, start, end, pos, digit);
      PartedSettled(s, start, end, pos, digit);
      BucketsSorted(t, start, end, starts, BUCKETS, pos, keyLen, digit);
      RearrangedTwice(s, t, SortResult(s, start, end, pos, keyLen, digit), start, end);
    }
  }

  /** Sorting the first `n` buckets of a partitioned segment by the later digits. */
  lemma {:induction false} BucketsSorted<T>(s: seq<T>, start: nat, end: nat, starts: seq<nat>, n: nat, pos: nat,
      keyLen: nat, digit: (T, nat) -> Byte)
    requires start <= end <= |s| && Buckets(starts, start, end) && n <= BUCKETS && pos < keyLen
    requires Settled(s, start, end, starts, end, pos, digit)
    ensures var v := BucketsResult(s, start, end, starts, n, pos + 1, keyLen, digit);
      && Settled(v, start, end, starts, end, pos, digit) && Rearranged(s, v, start, end)
      && SortedRange(v, start, if n < BUCKETS then starts[n] else end, pos, keyLen, digit)
      && (n < BUCKETS ==> v[starts[n]..] == s[starts[n]..])
    decreases Left(pos + 1, keyLen), 1, n
  {
    if n > 0 {
      BucketsSorted(s, start, end, starts, n - 1, pos, keyLen, digit);
      var w := BucketsResult(s, start, end, starts, n - 1, pos + 1, keyLen, digit);
      var v := BucketsResult(s, start, end, starts, n, pos + 1, keyLen, digit);
      BucketStep(s, w, v, start, end, starts, n - 1, pos, keyLen, digit);
    }
  }

  /** One more bucket sorted. */
  lemma {:induction false} BucketStep<T>(s: seq<T>, w: seq<T>, v: seq<T>, start: nat, end: nat, starts: seq<nat>,
      d: nat, pos: nat, keyLen: nat, digit: (T, nat) -> Byte)
    requires start <= end <= |s| == |w| && Buckets(starts, start, end) && d < BUCKETS && pos < keyLen
    requires EndOf(starts, end, d) <= end
    requires Settled(w, start, end, starts, end, pos, digit) && Rearranged(s, w, start, end)
    requires SortedRange(w, start, starts[d], pos, keyLen, digit) && w[starts[d]..] == s[starts[d]..]
    requires v == SortResult(w, starts[d], EndOf(starts, end, d), pos + 1, keyLen, digit)
    ensures Settled(v, start, end, starts, end, pos, digit) && Rearranged(s, v, start, end)
    ensures SortedRange(v, start, EndOf(starts, end, d), pos, keyLen, digit)
    ensures v[EndOf(starts, end, d)..] == s[EndOf(starts, end, d)..]
    decreases Left(pos + 1, keyLen), 0, 1
  {
    var lo, hi := starts[d], EndOf(starts, end, d);
    ResultSorted(w, lo, hi, pos + 1, keyLen, digit);
    StillSettled(w, v, start, end, starts, d, pos, digit);
    SortedKept(w, v, start, lo, hi, pos, keyLen, digit);
    RearrangedWider(w, v, lo, hi, start, end);
    RearrangedTwice(s, w, v, start, end);
    AppendBucket(v, start, end, starts, d, pos, keyLen, digit);
    assert v[hi..] == w[hi..] == w[lo..][hi - lo..] == s[lo..][hi - lo..] == s[hi..];
  }

  /** `radix_sort_segment` and `radix_sort_order_tags`: the segment becomes its permutation in key
      order, and nothing outside it moves. */
  method SortSegment<T>(a: array<T>, start: nat, end: nat, pos: nat, keyLen: nat, digit: (T, nat) -> Byte)
    requires start <= end <= a.Length
    modifies a
    ensures SortedRange(a[..], start, end, pos, keyLen, digit)
    ensures Rearranged(old(a[..]), a[..], start, end)
    ensures a[..] == SortResult(old(a[..]), start, end, pos, keyLen, digit)
    decreases Left(pos, keyLen)
  {
    ghost var was := a[..];
    ResultSorted(was, start, end, pos, keyLen, digit);
    if end - start <= 1 || pos >= keyLen {
      return;
    }
    var starts := Partition(a, start, end, pos, digit);
    ghost var parted := a[..];
    for b := 0 to BUCKETS
      invariant a[..] == BucketsResult(parted, start, end, starts, b, pos + 1, keyLen, digit)
    {
      var segStart, segEnd := starts[b], EndOf(starts, end, b);
      BucketBounds(starts, start, end, b);
      if segEnd - segStart > 1 {
        SortSegment(a, segStart, segEnd, pos + 1, keyLen, digit);
      }
    }
  }
}
