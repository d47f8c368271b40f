/** The subnet iterator: big-endian increments, and what a run of the iterator yields. */
module SubnetIteration {
  import opened BitStrings
  import opened Bytes
  import opened Prefixes
  import opened Masking
  import opened PrefixArithmetic

  // ----- Addresses as numbers -----

  lemma {:induction false} NumConcat(x: seq<Byte>, y: seq<Byte>)
    ensures Num(x + y) == Num(x) * Pow2(8 * |y|) + Num(y)
  {
    BitsOfConcat(x, y);
    ValConcat(BitsOf(x), BitsOf(y));
  }

  lemma {:induction false} NumByte(b: Byte)
    ensures Num([b]) == b
  {
    assert Pow2(8) == 256;
    BitsOfOne(b);
    ValOfToBits(b, 8);
  }

  /** One byte between a head and a tail. */
  lemma {:induction false} NumAround(a: seq<Byte>, b: Byte, c: seq<Byte>)
    ensures Num(a + [b] + c) == (Num(a) * 256 + b) * Pow2(8 * |c|) + Num(c)
  {
    assert Pow2(8) == 256;
    NumConcat(a + [b], c);
    NumConcat(a, [b]);
    NumByte(b);
  }

  /** The weight of byte `i` of an `n`-byte address. */
  function Weight(n: nat, i: nat): nat
    requires i <= n
  {
    Pow2(8 * (n - i))
  }

  lemma {:induction false} WeightStep(n: nat, i: nat)
    requires i < n
    ensures Weight(n, i) == 256 * Weight(n, i + 1)
  {
    assert Pow2(8) == 256;
    Pow2Adds(8, 8 * (n - i - 1));
  }

  lemma Change(x: int, v: int, b: int, change: int, w: int)
    requires change == v - b
    ensures (x + v) * w == (x + b) * w + change * w
  {
  }

  lemma {:induction false} NumUpdate(s: seq<Byte>, i: nat, v: Byte, change: int)
    requires i < |s| && change == v - s[i]
    ensures Num(s[i := v]) == Num(s) + change * Weight(|s|, i + 1)
  {
    var head, tail := s[..i], s[i + 1..];
    assert s == head + [s[i]] + tail && s[i := v] == head + [v] + tail;
    NumAround(head, v, tail);
    NumAround(head, s[i], tail);
    Change(Num(head) * 256, v, s[i], change, Weight(|s|, i + 1));
  }

  lemma CarryOut(num: int, now: int, change: int, carry: bool, add: int, w: int, w': int)
    requires now == num + change * w
    requires change + (if carry then 256 else 0) == add && w' == 256 * w
    ensures now + (if carry then w' else 0) == num + add * w
  {
    if carry {
      assert change * w == (add - 256) * w == add * w - 256 * w;
    }
  }

  lemma LowByte(val: nat)
    requires val < 512
    ensures val % 256 == if val > 255 then val - 256 else val
  {
  }

  /** Adding `add` to byte `idx`, with the carry out of it. */
  lemma {:induction false} AddAt(s: seq<Byte>, idx: nat, add: nat, val: nat, low: Byte)
    requires idx < |s| && val == s[idx] + add < 512 && low == val % 256
    ensures Num(s[idx := low]) + (if val > 255 then Weight(|s|, idx) else 0) == Num(s) + add * Weight(|s|, idx + 1)
  {
    LowByte(val);
    var change := low - s[idx];
    NumUpdate(s, idx, low, change);
    WeightStep(|s|, idx);
    CarryOut(Num(s), Num(s[idx := low]), change, val > 255, add, Weight(|s|, idx + 1), Weight(|s|, idx));
  }

  lemma {:induction false} NumBound(s: seq<Byte>)
    ensures Num(s) < Pow2(8 * |s|)
  {
  }

  /** A sum cut to the address space `m`, when it wraps at most once. */
  function Wrapped(x: int, m: int): int {
    if x < m then x else x - m
  }

  lemma WrapOnce(x: nat, m: nat)
    requires x < 2 * m
    ensures x % m == Wrapped(x, m)
  {
  }

  /** Add `add` to byte `idx` in place; `val` is the sum before the cut to eight bits. */
  method AddByte(bytes: array<Byte>, idx: nat, add: nat) returns (val: nat)
    requires idx < bytes.Length && add <= 256
    modifies bytes
    ensures val == old(bytes[idx]) + add < 512
    ensures Num(bytes[..]) + (if val > 255 then Weight(bytes.Length, idx) else 0)
      == Num(old(bytes[..])) + add * Weight(bytes.Length, idx + 1)
  {
    ghost var before := bytes[..];
    val := bytes[idx] + add;
    var low: Byte := val % 256;
    AddAt(before, idx, add, val, low);
    bytes[idx] := low;
    assert bytes[..] == before[idx := low];
  }

  /** `addr_big_endian_inc`: adds 2^bitCount modulo the address space. */
  method BigEndianInc(bytes: array<Byte>, bitCount: nat)
    requires bitCount <= 8 * bytes.Length
    modifies bytes
    ensures Num(bytes[..]) == (Num(old(bytes[..])) + Pow2(bitCount)) % Pow2(8 * bytes.Length)
    ensures Num(bytes[..]) == Wrapped(Num(old(bytes[..])) + Pow2(bitCount), Pow2(8 * bytes.Length))
  {
    ghost var x, n, sum := Num(bytes[..]), bytes.Length, Num(bytes[..]) + Pow2(bitCount);
    NumBound(bytes[..]);
    if bitCount >= 8 * bytes.Length {
      WrapOnce(sum, Pow2(8 * n));
      return;
    }
    var byteShift, bitShift := bitCount / 8, bitCount % 8;
    var idx := bytes.Length - 1 - byteShift;
    IncStarts(n, idx, bitCount, bitShift);
    var val := AddByte(bytes, idx, Pow2(bitShift));
    while val > 255 && idx > 0
      invariant 0 <= idx < n
      invariant Num(bytes[..]) + (if val > 255 then Weight(n, idx) else 0) == sum
    {
      idx := idx - 1;
      val := AddByte(bytes, idx, 1);
    }
    NumBound(bytes[..]);
    IncEnds(Num(bytes[..]), val > 255, sum, x, Pow2(bitCount), Pow2(8 * n));
  }

  /** What is left when the carry has stopped or left the highest byte. */
  lemma IncEnds(now: nat, carry: bool, sum: nat, x: nat, step: nat, m: nat)
    requires now < m && x < m && sum == x + step && now + (if carry then m else 0) == sum
    ensures m > 0 && now == (x + step) % m && now == Wrapped(x + step, m)
  {
    WrapOnce(sum, m);
  }

  lemma {:induction false} IncStarts(n: nat, idx: nat, bitCount: nat, bitShift: nat)
    requires bitCount < 8 * n && bitShift == bitCount % 8 && idx == n - 1 - bitCount / 8
    ensures Pow2(bitShift) <= 128 && Pow2(bitShift) * Weight(n, idx + 1) == Pow2(bitCount)
  {
    Pow2Adds(bitShift, 8 * (n - idx - 1));
    Pow2Adds(bitShift, 7 - bitShift);
    assert Pow2(7) == 128;
    assert Pow2(bitShift) <= Pow2(bitShift) * Pow2(7 - bitShift);
  }

  // ----- The subnets of a prefix -----

  predicate Splits(parent: Prefix, target: nat) {
    Proper(parent) && parent.pfxlen < target <= 8 * AddrLen(parent.family)
  }

  /** The bits of subnet number `i`. */
  function SubnetKey(parent: Prefix, target: nat, i: nat): (k: Bits)
    requires Splits(parent, target)
    ensures |k| == target
  {
    Key(parent) + ToBits(i, target - parent.pfxlen)
  }

  /** `p` is subnet number `i` of `parent`; `KeyInjective` says that there is only one. */
  ghost predicate IsSubnet(p: Prefix, parent: Prefix, target: nat, i: nat)
    requires Splits(parent, target)
  {
    Proper(p) && p.family == parent.family && p.pfxlen == target && Key(p) == SubnetKey(parent, target, i)
  }

  lemma {:induction false} SubnetExists(parent: Prefix, target: nat, i: nat)
    requires Splits(parent, target)
    ensures exists p :: IsSubnet(p, parent, target, i)
  {
    var width, key := 8 * AddrLen(parent.family), SubnetKey(parent, target, i);
    var bits := key + Repeat(false, width - target);
    BitsOfBytesOf(bits);
    assert IsSubnet(Prefix(parent.family, BytesOf(bits), target), parent, target, i);
  }

  /** Subnet number `i` of `parent`. */
  ghost function Subnet(parent: Prefix, target: nat, i: nat): (p: Prefix)
    requires Splits(parent, target)
    ensures IsSubnet(p, parent, target, i)
  {
    SubnetExists(parent, target, i);
    var p :| IsSubnet(p, parent, target, i);
    p
  }

  /** `q` is a prefix of length `target` that lies strictly inside `parent`. */
  ghost predicate LiesInside(q: Prefix, parent: Prefix, target: nat)
    requires Proper(parent)
  {
    && Proper(q) && q.family == parent.family && q.pfxlen == target
    && Key(parent) <= Key(q) && Key(parent) != Key(q)
  }

  /** A prefix can be split to a length exactly when some prefix of that length lies strictly inside it. */
  lemma {:induction false} SplitsIff(parent: Prefix, target: nat)
    requires Proper(parent)
    ensures Splits(parent, target) <==> exists q :: LiesInside(q, parent, target)
  {
    if Splits(parent, target) {
      assert LiesInside(Subnet(parent, target, 0), parent, target);
    }
  }

  /** How many subnets there are. */
  function SubnetCount(parent: Prefix, target: nat): nat
    requires Splits(parent, target)
  {
    Pow2(target - parent.pfxlen)
  }

  /** Prefixes of one length that share an address are at the same address. */
  lemma {:induction false} SharingSame(p: Prefix, q: Prefix, len: nat)
    requires ValidPrefix(p, len) && ValidPrefix(q, len) && p.pfxlen == q.pfxlen && ShareAddress(p, q, len)
    ensures Num(p.addr) == Num(q.addr)
  {
    var a: seq<Byte> :| |a| == len && Contains(p, a) && Contains(q, a);
    assert Key(p) == BitsOf(a)[..p.pfxlen] == Key(q);
    KeyInjective(p, q, len);
  }

  /** The subnets lie in strictly ascending address order and share no address. */
  lemma {:induction false} SubnetsAscend(parent: Prefix, target: nat, i: nat, j: nat)
    requires Splits(parent, target) && i < j < SubnetCount(parent, target)
    ensures Num(Subnet(parent, target, i).addr) < Num(Subnet(parent, target, j).addr)
    ensures !ShareAddress(Subnet(parent, target, i), Subnet(parent, target, j), AddrLen(parent.family))
  {
    var p, q := Subnet(parent, target, i), Subnet(parent, target, j);
    SubnetNum(parent, target, i);
    SubnetNum(parent, target, j);
    StrictScale(i, j, Pow2(8 * AddrLen(parent.family) - target));
    if ShareAddress(p, q, AddrLen(parent.family)) {
      SharingSame(p, q, AddrLen(parent.family));
    }
  }

  lemma StrictScale(i: nat, j: nat, h: nat)
    requires i < j && h > 0
    ensures i * h < j * h
  {
  }

  /** The subnet of an address of the parent. */
  lemma {:induction false} SubnetOf(parent: Prefix, target: nat, a: seq<Byte>) returns (i: nat)
    requires Splits(parent, target) && |a| == AddrLen(parent.family) && Contains(parent, a)
    ensures i < SubnetCount(parent, target) && Contains(Subnet(parent, target, i), a)
  {
    var bits, n := BitsOf(a), parent.pfxlen;
    var mid := bits[n..target];
    i := Val(mid);
    ToBitsOfVal(mid);
    assert bits[..target] == bits[..n] + mid;
    assert Key(parent) == bits[..n] && SubnetKey(parent, target, i) == bits[..target];
  }

  /** An address lies in the parent exactly when it lies in one of the subnets. */
  lemma {:induction false} SubnetsCover(parent: Prefix, target: nat, a: seq<Byte>)
    requires Splits(parent, target) && |a| == AddrLen(parent.family)
    ensures Contains(parent, a) <==>
      exists i: nat :: i < SubnetCount(parent, target) && Contains(Subnet(parent, target, i), a)
  {
    if Contains(parent, a) {
      var i := SubnetOf(parent, target, a);
    }
    if i: nat :| i < SubnetCount(parent, target) && Contains(Subnet(parent, target, i), a) {
      assert SubnetKey(parent, target, i)[..parent.pfxlen] == Key(parent);
    }
  }

  /** Subnet `i` starts `i` steps after the parent. */
  lemma {:induction false} SubnetNum(parent: Prefix, target: nat, i: nat)
    requires Splits(parent, target) && i < SubnetCount(parent, target)
    ensures Num(Subnet(parent, target, i).addr)
      == Num(parent.addr) + i * Pow2(8 * AddrLen(parent.family) - target)
  {
    var width, m, k := 8 * AddrLen(parent.family), target - parent.pfxlen, Key(parent);
    var p := Subnet(parent, target, i);
    NetworkNum(p, width);
    NetworkNum(parent, width);
    assert Key(p) == k + ToBits(i, m);
    KeyNum(k, i, m, width - target);
  }

  lemma {:induction false} KeyNum(k: Bits, i: nat, m: nat, h: nat)
    requires i < Pow2(m)
    ensures Val(k + ToBits(i, m)) * Pow2(h) == Val(k) * Pow2(m + h) + i * Pow2(h)
  {
    ValConcat(k, ToBits(i, m));
    ValOfToBits(i, m);
    Pow2Adds(m, h);
    Distribute(Val(k), Pow2(m), Pow2(h), i);
  }

  lemma Distribute(v: nat, m: nat, h: nat, i: nat)
    ensures (v * m + i) * h == v * (m * h) + i * h
  {
  }

  lemma {:induction false} NetworkNum(p: Prefix, width: nat)
    requires Proper(p) && width == 8 * AddrLen(p.family)
    ensures Num(p.addr) == Val(Key(p)) * Pow2(width - p.pfxlen)
  {
    assert BitsOf(p.addr) == Key(p) + Repeat(false, width - p.pfxlen);
    ValConcat(Key(p), Repeat(false, width - p.pfxlen));
    ValRepeat(width - p.pfxlen);
  }

  // ----- The iterator -----

  /** `memcmp` on two equally long buffers: its sign. */
  method Memcmp(a: array<Byte>, b: array<Byte>) returns (c: int)
    requires a.Length == b.Length
    ensures c == 0 <==> a[..] == b[..]
    ensures c >= 0 <==> Num(a[..]) >= Num(b[..])
  {
    for i := 0 to a.Length
      invariant a[..i] == b[..i]
    {
      if a[i] != b[i] {
        FirstByteDecides(a[..], b[..], i);
        var x: int, y: int := a[i], b[i];
        return x - y;
      }
    }
    assert a[..] == a[..a.Length] == b[..b.Length] == b[..];
    return 0;
  }

  lemma {:induction false} FirstByteDecides(a: seq<Byte>, b: seq<Byte>, i: nat)
    requires |a| == |b| && i < |a| && a[..i] == b[..i] && a[i] != b[i]
    ensures a != b && (a[i] < b[i] <==> Num(a) < Num(b))
  {
    if a[i] < b[i] {
      SmallerByte(a, b, i);
    } else {
      SmallerByte(b, a, i);
    }
  }

  lemma {:induction false} SmallerByte(a: seq<Byte>, b: seq<Byte>, i: nat)
    requires |a| == |b| && i < |a| && a[..i] == b[..i] && a[i] < b[i]
    ensures Num(a) < Num(b)
  {
    var e := ByteDiffers(a, b, i);
    ValDiffer(BitsOf(a), BitsOf(b), e);
  }

  lemma {:induction false} NumInjective(a: seq<Byte>, b: seq<Byte>)
    requires |a| == |b| && Num(a) == Num(b)
    ensures a == b
  {
    ValOrder(BitsOf(a), BitsOf(b));
    BitsOfInjective(a, b);
  }

  /** The parent is /0 or its end is a representable address. */
  predicate ReachesAll(parent: Prefix)
    requires Proper(parent)
  {
    var width := 8 * AddrLen(parent.family);
    parent.pfxlen == 0 || Num(parent.addr) + Pow2(width - parent.pfxlen) < Pow2(width)
  }

  /** Where the iterator stores the end of the parent, wrapped to the address width. */
  function LimitNum(parent: Prefix): int
    requires Proper(parent)
  {
    var width := 8 * AddrLen(parent.family);
    Wrapped(Num(parent.addr) + Pow2(width - parent.pfxlen), Pow2(width))
  }

  /** The iterator's address after `k` steps. */
  function PositionNum(parent: Prefix, target: nat, k: nat): int
    requires Splits(parent, target)
  {
    var width := 8 * AddrLen(parent.family);
    if k == 0 then Num(parent.addr)
    else Wrapped(PositionNum(parent, target, k - 1) + Pow2(width - target), Pow2(width))
  }

  /** Up to the end of the parent the steps add up, wrapped to the address width. */
  lemma {:induction false} PositionIs(parent: Prefix, target: nat, k: nat)
    requires Splits(parent, target) && k <= SubnetCount(parent, target)
    ensures var width := 8 * AddrLen(parent.family);
      PositionNum(parent, target, k) == Wrapped(Num(parent.addr) + k * Pow2(width - target), Pow2(width))
  {
    var width := 8 * AddrLen(parent.family);
    var from, step, m := Num(parent.addr), Pow2(width - target), Pow2(width);
    if k == 0 {
      NumBound(parent.addr);
    } else {
      var j := k - 1;
      PositionIs(parent, target, j);
      BeforeEnd(parent, target, j, width);
      OneMore(j, step);
      StepWraps(from, j * step, step, k * step, m);
    }
  }

  lemma {:induction false} BeforeEnd(parent: Prefix, target: nat, j: nat, width: nat)
    requires Splits(parent, target) && width == 8 * AddrLen(parent.family) && j < SubnetCount(parent, target)
    ensures Num(parent.addr) + j * Pow2(width - target) < Pow2(width)
  {
    EndBound(parent, target, width);
    StrictScale(j, SubnetCount(parent, target), Pow2(width - target));
  }

  lemma StepWraps(from: int, gone: int, step: int, next: int, m: int)
    requires from + gone < m && next == gone + step
    ensures Wrapped(Wrapped(from + gone, m) + step, m) == Wrapped(from + next, m)
  {
  }

  /** The stop test of `cidr_subnet_iter_next`, on the position after `k` steps. */
  predicate Stops(parent: Prefix, target: nat, k: nat)
    requires Splits(parent, target)
  {
    if parent.pfxlen == 0 then PositionNum(parent, target, k) == LimitNum(parent)
    else PositionNum(parent, target, k) >= LimitNum(parent)
  }

  /** After all subnets of the parent the position is the limit. */
  lemma {:induction false} StopsAtCount(parent: Prefix, target: nat)
    requires Splits(parent, target)
    ensures Stops(parent, target, SubnetCount(parent, target))
  {
    EndBound(parent, target, 8 * AddrLen(parent.family));
    PositionIs(parent, target, SubnetCount(parent, target));
  }

  /** The first step from `k` on at which the stop test fires. */
  function FirstStop(parent: Prefix, target: nat, k: nat): (n: nat)
    requires Splits(parent, target) && k <= SubnetCount(parent, target)
    ensures k <= n <= SubnetCount(parent, target) && Stops(parent, target, n)
    ensures forall j :: k <= j < n ==> !Stops(parent, target, j)
    decreases SubnetCount(parent, target) - k
  {
    if Stops(parent, target, k) then k
    else
      StopsAtCount(parent, target);
      FirstStop(parent, target, k + 1)
  }

  /** How many subnets a run yields: the first one untested, then one per step until the test fires. */
  function RunLength(parent: Prefix, target: nat): (n: nat)
    requires Splits(parent, target)
    ensures 1 <= n <= SubnetCount(parent, target)
  {
    FirstStop(parent, target, 1)
  }

  /** The state of a run that has handed out `k` subnets. */
  ghost predicate Iterating(parent: Prefix, target: nat, current: seq<Byte>, limit: seq<Byte>, done: bool, k: nat) {
    && Splits(parent, target) && |current| == |limit| == AddrLen(parent.family)
    && k <= RunLength(parent, target) && (done <==> k == RunLength(parent, target))
    && Num(limit) == LimitNum(parent) && Num(current) == PositionNum(parent, target, k)
  }

  lemma {:induction false} RunStarts(parent: Prefix, target: nat, limit: seq<Byte>)
    requires Splits(parent, target) && |limit| == AddrLen(parent.family) && Num(limit) == LimitNum(parent)
    ensures Iterating(parent, target, parent.addr, limit, false, 0)
  {
  }

  /** The next subnet handed out is the next subnet of the parent. */
  lemma {:induction false} RunYields(parent: Prefix, target: nat, current: seq<Byte>, limit: seq<Byte>, k: nat)
    requires Iterating(parent, target, current, limit, false, k)
    ensures k < SubnetCount(parent, target) && current == Subnet(parent, target, k).addr
  {
    PositionIs(parent, target, k);
    SubnetNum(parent, target, k);
    AtNumber(current, Subnet(parent, target, k).addr);
  }

  lemma {:induction false} AtNumber(current: seq<Byte>, a: seq<Byte>)
    requires |current| == |a| && Num(current) == Wrapped(Num(a), Pow2(8 * |a|))
    ensures current == a
  {
    NumBound(a);
    NumInjective(current, a);
  }

  /** A prefix ends at or below the top of the address space, and is as long as all its subnets. */
  lemma {:induction false} EndBound(parent: Prefix, target: nat, width: nat)
    requires Splits(parent, target) && width == 8 * AddrLen(parent.family)
    ensures Num(parent.addr) + Pow2(width - parent.pfxlen) <= Pow2(width)
    ensures Pow2(width - parent.pfxlen) == SubnetCount(parent, target) * Pow2(width - target)
    ensures parent.pfxlen == 0 ==> Num(parent.addr) == 0
  {
    EndsByTop(parent, width);
    Pow2Adds(target - parent.pfxlen, width - target);
    if parent.pfxlen == 0 {
      StartsAtZero(parent, width);
    }
  }

  lemma {:induction false} EndsByTop(parent: Prefix, width: nat)
    requires Proper(parent) && width == 8 * AddrLen(parent.family)
    ensures Num(parent.addr) + Pow2(width - parent.pfxlen) <= Pow2(width)
  {
    NetworkNum(parent, width);
    Pow2Adds(parent.pfxlen, width - parent.pfxlen);
    TopBlock(Val(Key(parent)), Pow2(parent.pfxlen), Pow2(width - parent.pfxlen));
  }

  lemma {:induction false} StartsAtZero(parent: Prefix, width: nat)
    requires Proper(parent) && parent.pfxlen == 0 && width == 8 * AddrLen(parent.family)
    ensures Num(parent.addr) == 0
  {
    NetworkNum(parent, width);
    assert Key(parent) == [] && Val([]) == 0;
  }

  lemma TopBlock(v: nat, n: nat, span: nat)
    requires v < n
    ensures v * span + span <= n * span
  {
    assert v * span + span == (v + 1) * span;
  }

  /** The stop test `gone` past the start of a parent of size `span`. */
  lemma StopTest(from: int, span: int, gone: int, m: int, whole: bool, limit: int, now: int)
    requires 0 < gone <= span && 0 <= from && from + span <= m && (whole ==> from == 0 && span == m)
    requires limit == Wrapped(from + span, m) && now == Wrapped(from + gone, m)
    ensures whole ==> (now == limit <==> gone == span)
    ensures !whole && from + span < m ==> (now >= limit <==> gone == span)
    ensures from + span == m ==> limit == 0
  {
  }

  lemma OneMore(k: nat, step: nat)
    ensures k * step + step == (k + 1) * step
  {
  }

  /** The stop test fires exactly at the run's length. */
  lemma {:induction false} StopsAtLength(parent: Prefix, target: nat, k: nat, limit: nat, next: nat, done: bool)
    requires Splits(parent, target) && k < RunLength(parent, target)
    requires limit == LimitNum(parent) && next == PositionNum(parent, target, k + 1)
    requires done <==> if parent.pfxlen == 0 then next == limit else next >= limit
    ensures done <==> k + 1 == RunLength(parent, target)
  {
    assert done <==> Stops(parent, target, k + 1);
  }

  lemma {:induction false} PositionStep(parent: Prefix, target: nat, k: nat, now: nat, next: nat, width: nat)
    requires Splits(parent, target) && width == 8 * AddrLen(parent.family) && now == PositionNum(parent, target, k)
    requires next == Wrapped(now + Pow2(width - target), Pow2(width))
    ensures next == PositionNum(parent, target, k + 1)
  {
  }

  /** One step of the run. */
  lemma {:induction false} RunAdvances(parent: Prefix, target: nat, current: seq<Byte>, limit: seq<Byte>, k: nat,
      next: seq<Byte>, done: bool)
    requires Iterating(parent, target, current, limit, false, k) && |next| == |current|
    requires Num(next) == Wrapped(Num(current) + Pow2(8 * |current| - target), Pow2(8 * |current|))
    requires done <==> if parent.pfxlen == 0 then Num(next) == Num(limit) else Num(next) >= Num(limit)
    ensures Iterating(parent, target, next, limit, done, k + 1)
  {
    PositionStep(parent, target, k, Num(current), Num(next), 8 * |current|);
    StopsAtLength(parent, target, k, Num(limit), Num(next), done);
  }

  lemma StepsGone(k: nat, n: nat, step: nat)
    requires 0 < k <= n && step > 0
    ensures 0 < k * step <= n * step && (k * step == n * step <==> k == n)
  {
    if k < n {
      StrictScale(k, n, step);
    }
    StrictScale(0, k, step);
  }

  /** When the stop test fires: at the last subnet, or, if the limit has wrapped to zero, at once. */
  lemma {:induction false} StopsWhen(parent: Prefix, target: nat, k: nat)
    requires Splits(parent, target) && k < SubnetCount(parent, target)
    ensures Stops(parent, target, k + 1) <==> !ReachesAll(parent) || k + 1 == SubnetCount(parent, target)
  {
    var width := 8 * AddrLen(parent.family);
    var from, n, step := Num(parent.addr), SubnetCount(parent, target), Pow2(width - target);
    EndBound(parent, target, width);
    PositionIs(parent, target, k + 1);
    StepsGone(k + 1, n, step);
    StopTest(from, n * step, (k + 1) * step, Pow2(width), parent.pfxlen == 0, LimitNum(parent),
      PositionNum(parent, target, k + 1));
  }

  lemma {:induction false} SeveralSubnets(parent: Prefix, target: nat)
    requires Splits(parent, target)
    ensures SubnetCount(parent, target) > 1
  {
    Pow2Adds(1, target - parent.pfxlen - 1);
    assert Pow2(1) == 2;
  }

  lemma {:induction false} FirstSubnet(parent: Prefix, target: nat)
    requires Splits(parent, target)
    ensures Subnet(parent, target, 0).addr == parent.addr
  {
    SubnetNum(parent, target, 0);
    NumInjective(Subnet(parent, target, 0).addr, parent.addr);
  }

  /** A run is complete exactly when the parent is /0 or ends below the top of the address space;
      any other run hands out one subnet of several. */
  lemma {:induction false} RunIsCompleteIff(parent: Prefix, target: nat)
    requires Splits(parent, target)
    ensures RunLength(parent, target) == SubnetCount(parent, target) <==> ReachesAll(parent)
    ensures !ReachesAll(parent) ==> RunLength(parent, target) == 1
  {
    SeveralSubnets(parent, target);
    StopsWhen(parent, target, 0);
    StopsWhen(parent, target, RunLength(parent, target) - 1);
  }

  /** The blocks at the top of the address space are those whose network bits are all ones. */
  lemma {:induction false} TopBlocks(parent: Prefix)
    requires Proper(parent)
    ensures ReachesAll(parent) <==> parent.pfxlen == 0 || Key(parent) != Repeat(true, parent.pfxlen)
  {
    var width, n, v := 8 * AddrLen(parent.family), parent.pfxlen, Val(Key(parent));
    NetworkNum(parent, width);
    Pow2Adds(n, width - n);
    EndsBelow(v, Pow2(n), Pow2(width - n));
    AllOnesIff(Key(parent));
  }

  /** Only the bit string of all ones has the greatest value. */
  lemma {:induction false} AllOnesIff(k: Bits)
    ensures k == Repeat(true, |k|) <==> Val(k) + 1 == Pow2(|k|)
  {
    ValRepeat(|k|);
    ValOrder(k, Repeat(true, |k|));
  }

  lemma EndsBelow(v: nat, n: nat, span: nat)
    requires v < n && span > 0
    ensures v * span + span < n * span <==> v + 1 < n
  {
    assert v * span + span == (v + 1) * span;
    if v + 1 < n {
      StrictScale(v + 1, n, span);
    }
  }

  /** `cidr_subnet_iter_t`. */
  class SubnetIter {
    var family: nat
    var current: array<Byte>
    var limit: array<Byte>
    var limitPfxlen: Byte
    var targetPfxlen: Byte
    var done: bool
    // The prefix being split and the number of subnets handed out so far.
    ghost var parent: Prefix
    ghost var yielded: nat

    ghost predicate Valid()
      reads this, current, limit
    {
      && current != limit && Iterating(parent, targetPfxlen, current[..], limit[..], done, yielded)
      && family == parent.family && limitPfxlen == parent.pfxlen
    }

    constructor ()
      ensures fresh(current) && fresh(limit)
    {
      family, current, limit := AF_UNSPEC, new Byte[0], new Byte[0];
      limitPfxlen, targetPfxlen, done := 0, 0, true;
      parent, yielded := Prefix(AF_UNSPEC, [], 0), 0;
    }

    /** `cidr_subnet_iter_init`. */
    method Init(prefix: Prefix, target: Byte) returns (status: Status)
      requires UnsetOrProper(prefix)
      modifies this
      ensures status == if prefix.family == AF_UNSPEC then ErrInval
                        else if Splits(prefix, target) then Ok else ErrPfxlen
      ensures status == Ok <==> prefix.family != AF_UNSPEC && exists q :: LiesInside(q, prefix, target)
      ensures status == Ok ==> Valid() && fresh(current) && fresh(limit)
      ensures status == Ok ==> parent == prefix && targetPfxlen == target && yielded == 0
    {
      if prefix.family == AF_UNSPEC {
        return ErrInval;
      }
      SplitsIff(prefix, target);
      if target <= prefix.pfxlen || target > PfxlenMax(prefix.family) {
        return ErrPfxlen;
      }
      var cur := CopyBytes(prefix.addr);
      var lim := LimitOf(prefix);
      RunStarts(prefix, target, lim[..]);
      family, current, limit := prefix.family, cur, lim;
      limitPfxlen, targetPfxlen, done := prefix.pfxlen, target, false;
      parent, yielded := prefix, 0;
      return Ok;
    }

    /** `cidr_subnet_iter_next`: hands out the next subnet, or reports the end for ever after. */
    method Next() returns (status: Status, out: Prefix)
      requires Valid()
      modifies this, current
      ensures Valid() && current == old(current) && limit == old(limit)
      ensures parent == old(parent) && targetPfxlen == old(targetPfxlen)
      ensures status == if old(done) then ErrDone else Ok
      ensures status == ErrDone ==> yielded == old(yielded) && done && current[..] == old(current[..])
      ensures status == Ok ==> out == Subnet(parent, targetPfxlen, old(yielded)) && yielded == old(yielded) + 1
    {
      out := Prefix(AF_UNSPEC, [], 0);
      if done {
        return ErrDone, out;
      }
      RunYields(parent, targetPfxlen, current[..], limit[..], yielded);
      out := Prefix(family, current[..], targetPfxlen);
      done := Advance(current, limit, targetPfxlen, limitPfxlen, parent, yielded);
      yielded := yielded + 1;
      return Ok, out;
    }
  }

  /** The step and the stop test of `cidr_subnet_iter_next`. */
  method Advance(current: array<Byte>, limit: array<Byte>, target: Byte, limitPfxlen: Byte, ghost parent: Prefix,
      ghost k: nat) returns (done: bool)
    requires current != limit && Iterating(parent, target, current[..], limit[..], false, k)
    requires limitPfxlen == parent.pfxlen
    modifies current
    ensures Iterating(parent, target, current[..], limit[..], done, k + 1)
  {
    ghost var was := current[..];
    BigEndianInc(current, 8 * current.Length - target);
    var c := Memcmp(current, limit);
    SameNum(current[..], limit[..]);
    if limitPfxlen == 0 {
      done := c == 0;
    } else {
      done := c >= 0;
    }
    RunAdvances(parent, target, was, limit[..], k, current[..], done);
  }

  lemma {:induction false} SameNum(a: seq<Byte>, b: seq<Byte>)
    requires |a| == |b|
    ensures a == b <==> Num(a) == Num(b)
  {
    if Num(a) == Num(b) {
      NumInjective(a, b);
    }
  }

  method CopyBytes(s: seq<Byte>) returns (a: array<Byte>)
    ensures fresh(a) && a[..] == s
  {
    a := new Byte[|s|](i requires 0 <= i < |s| => s[i]);
  }

  /** The first address past the parent, wrapped. */
  method LimitOf(parent: Prefix) returns (limit: array<Byte>)
    requires Proper(parent)
    ensures fresh(limit) && limit.Length == |parent.addr| && Num(limit[..]) == LimitNum(parent)
  {
    limit := CopyBytes(parent.addr);
    BigEndianInc(limit, 8 * limit.Length - parent.pfxlen);
  }

  /** `s` lists the first subnets of the parent. */
  ghost predicate FirstSubnets(s: seq<Prefix>, parent: Prefix, target: nat)
    requires Splits(parent, target)
  {
    forall i :: 0 <= i < |s| ==> s[i] == Subnet(parent, target, i)
  }

  lemma {:induction false} OneMoreSubnet(s: seq<Prefix>, parent: Prefix, target: nat, p: Prefix)
    requires Splits(parent, target) && FirstSubnets(s, parent, target) && p == Subnet(parent, target, |s|)
    ensures FirstSubnets(s + [p], parent, target)
  {
  }

  /** The documented loop: call next until it reports the end. */
  method Drain(iter: SubnetIter, ghost parent: Prefix, ghost target: Byte) returns (subnets: seq<Prefix>)
    requires iter.Valid() && iter.yielded == 0 && parent == iter.parent && target == iter.targetPfxlen
    modifies iter, iter.current
    ensures iter.Valid() && iter.done && iter.parent == parent && iter.targetPfxlen == target
    ensures |subnets| == RunLength(parent, target)
    ensures |subnets| == SubnetCount(parent, target) <==> ReachesAll(parent)
    ensures !ReachesAll(parent) ==> |subnets| == 1
    ensures FirstSubnets(subnets, parent, target)
  {
    subnets := [];
    var more := true;
    while more
      invariant iter.Valid() && iter.parent == parent && iter.targetPfxlen == target && iter.yielded == |subnets|
      invariant FirstSubnets(subnets, parent, target)
      invariant iter.current == old(iter.current) && (!more ==> iter.done)
      decreases RunLength(parent, target) - |subnets|, more
    {
      var s, p := iter.Next();
      if s == Ok {
        OneMoreSubnet(subnets, parent, target, p);
        subnets := subnets + [p];
      } else {
        more := false;
      }
    }
    RunIsCompleteIff(parent, target);
  }
}
