/** Prefix arithmetic: masks, containment, first and last address, overlap, host prefixes.

Every byte loop is tied to the bit reading of the address, and containment and overlap to the
addresses themselves: as a range of numbers, and as a shared address. */
module PrefixArithmetic {
  import opened BitStrings
  import opened Bytes
  import opened Prefixes
  import opened Masking

  // ----- Byte operations -----

  /** `x & y` on `w` bits. */
  function And(x: nat, y: nat, w: nat): (r: nat)
    ensures r < Pow2(w)
  {
    if w == 0 then 0 else 2 * And(x / 2, y / 2, w - 1) + if x % 2 == 1 && y % 2 == 1 then 1 else 0
  }

  /** `x | y` on `w` bits. */
  function Or(x: nat, y: nat, w: nat): (r: nat)
    ensures r < Pow2(w)
  {
    if w == 0 then 0 else 2 * Or(x / 2, y / 2, w - 1) + if x % 2 == 1 || y % 2 == 1 then 1 else 0
  }

  function AndByte(x: Byte, y: Byte): Byte {
    assert Pow2(8) == 256;
    And(x, y, 8)
  }

  /** `x | (uint8_t)~y`. */
  function OrNotByte(x: Byte, y: Byte): Byte {
    assert Pow2(8) == 256;
    Or(x, 255 - y, 8)
  }

  function BothBits(a: Bits, b: Bits): (r: Bits)
    requires |a| == |b|
    ensures |r| == |a|
  {
    seq(|a|, i requires 0 <= i < |a| => a[i] && b[i])
  }

  function OrNotBits(a: Bits, b: Bits): (r: Bits)
    requires |a| == |b|
    ensures |r| == |a|
  {
    seq(|a|, i requires 0 <= i < |a| => a[i] || !b[i])
  }

  lemma BothConcat(a: Bits, b: Bits, c: Bits, d: Bits)
    requires |a| == |b| && |c| == |d|
    ensures BothBits(a + c, b + d) == BothBits(a, b) + BothBits(c, d)
  {
  }

  lemma OrNotConcat(a: Bits, b: Bits, c: Bits, d: Bits)
    requires |a| == |b| && |c| == |d|
    ensures OrNotBits(a + c, b + d) == OrNotBits(a, b) + OrNotBits(c, d)
  {
  }

  lemma {:induction false} AndIsBits(x: nat, y: nat, w: nat)
    ensures ToBits(And(x, y, w), w) == BothBits(ToBits(x, w), ToBits(y, w))
  {
    if w > 0 {
      AndIsBits(x / 2, y / 2, w - 1);
      BothConcat(ToBits(x / 2, w - 1), ToBits(y / 2, w - 1), [x % 2 == 1], [y % 2 == 1]);
    }
  }

  lemma {:induction false} OrNotIsBits(x: nat, y: nat, z: nat, w: nat)
    requires y < Pow2(w) && z == Pow2(w) - 1 - y
    ensures ToBits(Or(x, z, w), w) == OrNotBits(ToBits(x, w), ToBits(y, w))
  {
    if w > 0 {
      assert z / 2 == Pow2(w - 1) - 1 - y / 2 && z % 2 == 1 - y % 2;
      OrNotIsBits(x / 2, y / 2, z / 2, w - 1);
      OrNotConcat(ToBits(x / 2, w - 1), ToBits(y / 2, w - 1), [x % 2 == 1], [y % 2 == 1]);
    }
  }

  lemma {:induction false} AndByteBits(x: Byte, y: Byte)
    ensures ToBits(AndByte(x, y), 8) == BothBits(ToBits(x, 8), ToBits(y, 8))
  {
    AndIsBits(x, y, 8);
  }

  lemma {:induction false} OrNotByteBits(x: Byte, y: Byte)
    ensures ToBits(OrNotByte(x, y), 8) == OrNotBits(ToBits(x, 8), ToBits(y, 8))
  {
    assert Pow2(8) == 256;
    OrNotIsBits(x, y, 255 - y, 8);
  }

  lemma {:induction false} AndBytes(a: seq<Byte>, m: seq<Byte>, r: seq<Byte>)
    requires |a| == |m| == |r| && forall i :: 0 <= i < |a| ==> r[i] == AndByte(a[i], m[i])
    ensures BitsOf(r) == BothBits(BitsOf(a), BitsOf(m))
  {
    if a != [] {
      var n := |a| - 1;
      AndBytes(a[..n], m[..n], r[..n]);
      AndByteBits(a[n], m[n]);
      BothConcat(BitsOf(a[..n]), BitsOf(m[..n]), ToBits(a[n], 8), ToBits(m[n], 8));
    }
  }

  lemma {:induction false} OrNotBytes(a: seq<Byte>, m: seq<Byte>, r: seq<Byte>)
    requires |a| == |m| == |r| && forall i :: 0 <= i < |a| ==> r[i] == OrNotByte(a[i], m[i])
    ensures BitsOf(r) == OrNotBits(BitsOf(a), BitsOf(m))
  {
    if a != [] {
      var n := |a| - 1;
      OrNotBytes(a[..n], m[..n], r[..n]);
      OrNotByteBits(a[n], m[n]);
      OrNotConcat(BitsOf(a[..n]), BitsOf(m[..n]), ToBits(a[n], 8), ToBits(m[n], 8));
    }
  }

  // ----- The mask -----

  /** `pfxlen` ones, then zeros. */
  function MaskPattern(pfxlen: nat, len: nat): (r: Bits)
    requires pfxlen <= 8 * len
    ensures |r| == 8 * len
  {
    Repeat(true, pfxlen) + Repeat(false, 8 * len - pfxlen)
  }

  function Ones(n: nat): seq<Byte> {
    seq(n, _ => 255)
  }

  lemma ByteOfOnes()
    ensures ToBits(255, 8) == Repeat(true, 8)
  {
    assert Pow2(8) == 256;
    ValRepeat(8);
    ToBitsOfVal(Repeat(true, 8));
  }

  lemma {:induction false} BitsOfOnes(n: nat)
    ensures BitsOf(Ones(n)) == Repeat(true, 8 * n)
  {
    if n > 0 {
      BitsOfOnes(n - 1);
      assert Ones(n)[..n - 1] == Ones(n - 1);
      ByteOfOnes();
      assert Repeat(true, 8 * n) == Repeat(true, 8 * (n - 1)) + Repeat(true, 8);
    }
  }

  /** `prefix_mask_compute`. */
  method MaskCompute(pfxlen: Byte, len: nat) returns (mask: array<Byte>)
    requires pfxlen <= 8 * len
    ensures fresh(mask) && mask.Length == len && BitsOf(mask[..]) == MaskPattern(pfxlen, len)
  {
    mask := new Byte[len];
    var fullBytes, rem := pfxlen / 8, pfxlen % 8;
    for i := 0 to fullBytes
      invariant forall k :: 0 <= k < i ==> mask[k] == 255
    {
      mask[i] := 255;
    }
    ghost var ones := Ones(len)[..fullBytes];
    assert mask[..][..fullBytes] == ones;
    if fullBytes < len {
      if rem > 0 {
        mask[fullBytes] := HighBits(255, rem);
        assert mask[..][..fullBytes + 1] == ones + [HighBits(255, rem)];
        ZeroTail(mask, fullBytes + 1);
      } else {
        ZeroTail(mask, fullBytes);
      }
    } else {
      assert mask[..] == ones + Zeros(0);
    }
    assert mask[..] == Mask(Ones(len), fullBytes, rem);
    MaskOfOnes(len, fullBytes, rem);
  }

  lemma MaskOfOnes(len: nat, full: nat, rem: nat)
    requires rem < 8 && 8 * full + rem <= 8 * len
    ensures BitsOf(Mask(Ones(len), full, rem)) == MaskPattern(8 * full + rem, len)
  {
    MaskBits(Ones(len), full, rem);
    BitsOfOnes(len);
    assert Repeat(true, 8 * len)[..8 * full + rem] == Repeat(true, 8 * full + rem);
  }

  lemma MaskedBits(a: Bits, pfxlen: nat, len: nat)
    requires |a| == 8 * len && pfxlen <= |a|
    ensures BothBits(a, MaskPattern(pfxlen, len)) == a[..pfxlen] + Repeat(false, |a| - pfxlen)
  {
  }

  lemma FilledBits(a: Bits, pfxlen: nat, len: nat)
    requires |a| == 8 * len && pfxlen <= |a|
    ensures OrNotBits(a, MaskPattern(pfxlen, len)) == a[..pfxlen] + Repeat(true, |a| - pfxlen)
  {
  }

  // ----- Containment -----

  /** Operations on records whose family may be unset. */
  predicate UnsetOrProper(p: Prefix) {
    p.family == AF_UNSPEC || Proper(p)
  }

  /** `(addr & mask) == prefix->addr`. */
  method MaskedEquals(p: Prefix, addr: seq<Byte>) returns (result: bool)
    requires ValidPrefix(p, |addr|)
    ensures result <==> Contains(p, addr)
  {
    var mask := MaskCompute(p.pfxlen, |addr|);
    ghost var m := mask[..];
    var masked := new Byte[|addr|];
    for i := 0 to |addr|
      invariant mask[..] == m
      invariant forall k :: 0 <= k < i ==> masked[k] == AndByte(addr[k], m[k])
    {
      masked[i] := AndByte(addr[i], mask[i]);
    }
    AndBytes(addr, m, masked[..]);
    MaskedBits(BitsOf(addr), p.pfxlen, |addr|);
    MaskedIsNetwork(p, addr, masked[..]);
    result := masked[..] == p.addr;
  }

  lemma {:induction false} MaskedIsNetwork(p: Prefix, addr: seq<Byte>, masked: seq<Byte>)
    requires ValidPrefix(p, |addr|) && BitsOf(masked) == BitsOf(addr)[..p.pfxlen] + Repeat(false, 8 * |addr| - p.pfxlen)
    ensures masked == p.addr <==> Contains(p, addr)
  {
    var net := BitsOf(p.addr);
    assert net == Key(p) + Repeat(false, 8 * |addr| - p.pfxlen);
    if masked == p.addr {
      assert BitsOf(masked)[..p.pfxlen] == BitsOf(addr)[..p.pfxlen];
    }
    if Contains(p, addr) {
      BitsOfInjective(masked, p.addr);
    }
  }

  /** `cidr_prefix_contains`. */
  method PrefixContains(p: Prefix, addr: Address) returns (status: Status, result: bool)
    requires UnsetOrProper(p) && (addr.family == AF_UNSPEC || ValidAddress(addr))
    ensures status == if p.family == AF_UNSPEC || addr.family == AF_UNSPEC then ErrInval
                      else if p.family != addr.family then ErrFamily else Ok
    ensures status == Ok ==> (result <==> Contains(p, addr.bytes))
  {
    if p.family == AF_UNSPEC || addr.family == AF_UNSPEC {
      return ErrInval, false;
    }
    if p.family != addr.family {
      return ErrFamily, false;
    }
    result := MaskedEquals(p, addr.bytes);
    status := Ok;
  }

  // ----- First and last address, as numbers -----

  /** The number an address spells in network byte order. */
  function Num(a: seq<Byte>): nat {
    Val(BitsOf(a))
  }

  /** The bits of the last address of a prefix. */
  function LastBits(p: Prefix, len: nat): (r: Bits)
    requires ValidPrefix(p, len)
    ensures |r| == 8 * len
  {
    Key(p) + Repeat(true, 8 * len - p.pfxlen)
  }

  /** `cidr_prefix_last`: the network address with every host bit set. */
  method PrefixLast(p: Prefix) returns (status: Status, out: Address)
    requires UnsetOrProper(p)
    ensures status == if p.family == AF_UNSPEC then ErrInval else Ok
    ensures status == Ok ==>
      ValidAddress(out) && out.family == p.family && BitsOf(out.bytes) == LastBits(p, AddrLen(p.family))
  {
    if p.family == AF_UNSPEC {
      return ErrInval, Address(AF_UNSPEC, []);
    }
    var len := AddrLen(p.family);
    var mask := MaskCompute(p.pfxlen, len);
    ghost var m := mask[..];
    var bytes := new Byte[len];
    for i := 0 to len
      invariant mask[..] == m
      invariant forall k :: 0 <= k < i ==> bytes[k] == OrNotByte(p.addr[k], m[k])
    {
      bytes[i] := OrNotByte(p.addr[i], mask[i]);
    }
    OrNotBytes(p.addr, m, bytes[..]);
    FilledBits(BitsOf(p.addr), p.pfxlen, len);
    return Ok, Address(p.family, bytes[..]);
  }

  lemma Bounded(u: nat, v: nat, h: nat, r: nat)
    requires h > 0 && r < h
    ensures v * h <= u * h + r <= v * h + h - 1 <==> u == v
  {
    if u < v {
      assert u * h + h == (u + 1) * h <= v * h;
    } else if v < u {
      assert v * h + h == (v + 1) * h <= u * h;
    }
  }

  /** A prefix contains exactly the addresses between its first and its last, as numbers. */
  lemma {:induction false} ContainsIsRange(p: Prefix, len: nat, last: seq<Byte>, a: seq<Byte>)
    requires ValidPrefix(p, len) && |a| == len && BitsOf(last) == LastBits(p, len)
    ensures Contains(p, a) <==> Num(p.addr) <= Num(a) <= Num(last)
  {
    var k, h := Key(p), 8 * len - p.pfxlen;
    var bits := BitsOf(a);
    assert bits == bits[..p.pfxlen] + bits[p.pfxlen..];
    assert BitsOf(p.addr) == k + Repeat(false, h);
    BlockRange(bits[..p.pfxlen], bits[p.pfxlen..], k, h);
  }

  /** A string starts with `k` exactly when it lies between `k` followed by zeros and by ones. */
  lemma {:induction false} BlockRange(head: Bits, tail: Bits, k: Bits, h: nat)
    requires |head| == |k| && |tail| == h
    ensures head == k <==> Val(k + Repeat(false, h)) <= Val(head + tail) <= Val(k + Repeat(true, h))
  {
    ValConcat(head, tail);
    ValConcat(k, Repeat(false, h));
    ValConcat(k, Repeat(true, h));
    ValRepeat(h);
    Bounded(Val(head), Val(k), Pow2(h), Val(tail));
    ValOrder(head, k);
  }

  // ----- Overlap -----

  /** Some address lies in both prefixes. */
  ghost predicate ShareAddress(p: Prefix, q: Prefix, len: nat)
    requires ValidPrefix(p, len) && ValidPrefix(q, len)
  {
    exists a: seq<Byte> :: |a| == len && Contains(p, a) && Contains(q, a)
  }

  /** Every address of `q` is one of `p`. */
  ghost predicate ContainsAll(p: Prefix, q: Prefix, len: nat)
    requires ValidPrefix(p, len) && ValidPrefix(q, len)
  {
    forall a: seq<Byte> :: |a| == len && Contains(q, a) ==> Contains(p, a)
  }

  /** `cidr_prefix_overlaps`: true exactly when the prefixes share an address. */
  method PrefixOverlaps(p: Prefix, q: Prefix) returns (status: Status, result: bool)
    requires UnsetOrProper(p) && UnsetOrProper(q)
    ensures status == if p.family == AF_UNSPEC || q.family == AF_UNSPEC then ErrInval
                      else if p.family != q.family then ErrFamily else Ok
    ensures status == Ok ==> (result <==> ShareAddress(p, q, AddrLen(p.family)))
  {
    if p.family == AF_UNSPEC || q.family == AF_UNSPEC {
      return ErrInval, false;
    }
    if p.family != q.family {
      return ErrFamily, false;
    }
    OverlapIsNesting(p, q, AddrLen(p.family));
    status, result := PrefixContains(p, Address(q.family, q.addr));
    if result {
      return Ok, true;
    }
    status, result := PrefixContains(q, Address(p.family, p.addr));
  }

  lemma ContainsNetwork(p: Prefix, q: Prefix, len: nat)
    requires ValidPrefix(p, len) && ValidPrefix(q, len)
    ensures Contains(p, p.addr)
    ensures Contains(p, q.addr) && p.pfxlen <= q.pfxlen ==> Key(p) <= Key(q)
    ensures Key(p) <= Key(q) ==> Contains(p, q.addr) && ContainsAll(p, q, len)
  {
    assert Key(p) <= BitsOf(p.addr) && Key(q) <= BitsOf(q.addr);
  }

  /** Two prefixes share an address exactly when one contains the other's network address, and then
      the one contains all of the other. */
  lemma OverlapIsNesting(p: Prefix, q: Prefix, len: nat)
    requires ValidPrefix(p, len) && ValidPrefix(q, len)
    ensures ShareAddress(p, q, len) <==> Contains(p, q.addr) || Contains(q, p.addr)
    ensures ShareAddress(p, q, len) ==> ContainsAll(p, q, len) || ContainsAll(q, p, len)
  {
    ContainsNetwork(p, q, len);
    ContainsNetwork(q, p, len);
    if ShareAddress(p, q, len) {
      var a: seq<Byte> :| |a| == len && Contains(p, a) && Contains(q, a);
      assert Key(p) == BitsOf(a)[..p.pfxlen] && Key(q) == BitsOf(a)[..q.pfxlen];
      assert if p.pfxlen <= q.pfxlen then Key(p) == Key(q)[..p.pfxlen] else Key(q) == Key(p)[..q.pfxlen];
    }
  }

  // ----- Host prefixes -----

  function PfxlenMax(family: nat): nat {
    if family == AF_INET then 32 else 128
  }

  /** `cidr_prefix_from_host`: the prefix of that length around the address. */
  method PrefixFromHost(addr: Address, pfxlen: Byte) returns (status: Status, p: Prefix)
    requires addr.family == AF_UNSPEC || ValidAddress(addr)
    ensures status == if addr.family == AF_UNSPEC then ErrInval
                      else if pfxlen > PfxlenMax(addr.family) then ErrPfxlen else Ok
    ensures status == Ok ==> Proper(p) && p.family == addr.family && p.pfxlen == pfxlen && Contains(p, addr.bytes)
    ensures status == Ok <==> addr.family != AF_UNSPEC && exists q: Prefix ::
      Proper(q) && q.family == addr.family && q.pfxlen == pfxlen && Contains(q, addr.bytes)
  {
    p := Prefix(AF_UNSPEC, [], 0);
    if addr.family == AF_UNSPEC {
      return ErrInval, p;
    }
    if pfxlen > PfxlenMax(addr.family) {
      return ErrPfxlen, p;
    }
    var bytes := new Byte[|addr.bytes|](i requires 0 <= i < |addr.bytes| => addr.bytes[i]);
    assert bytes[..] == addr.bytes;
    MaskApply(pfxlen, bytes);
    p := Prefix(addr.family, bytes[..], pfxlen);
    MaskedIsValid(p, addr.bytes);
    return Ok, p;
  }

  /** The prefix of a given length around an address is unique. */
  lemma HostPrefixUnique(p: Prefix, q: Prefix, len: nat, a: seq<Byte>)
    requires ValidPrefix(p, len) && ValidPrefix(q, len) && |a| == len && p.family == q.family
    requires p.pfxlen == q.pfxlen && Contains(p, a) && Contains(q, a)
    ensures p == q
  {
    assert Key(p) == BitsOf(a)[..p.pfxlen] == Key(q);
    KeyInjective(p, q, len);
  }

  /** Masking leaves an address unchanged exactly when it is the network address of its prefix. */
  lemma UnmaskedIsNetwork(now: seq<Byte>, was: seq<Byte>, family: nat, pfxlen: Byte)
    requires MaskedTo(now, was, pfxlen)
    ensures now == was <==> ValidPrefix(Prefix(family, was, pfxlen), |was|)
  {
    var bits := BitsOf(was);
    assert bits == bits[..pfxlen] + bits[pfxlen..];
    if now == was {
      assert BitsOf(now)[pfxlen..] == Repeat(false, 8 * |was| - pfxlen);
    }
    if ValidPrefix(Prefix(family, was, pfxlen), |was|) {
      BitsOfInjective(now, was);
    }
  }
}
