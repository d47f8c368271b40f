/** Masking address bytes in place: `prefix_mask_apply`, `prefix_mask_compute` and their users.

A mask keeps the first `pfxlen` bits and clears the rest. The C code does it byte by byte: whole
bytes, one cut byte, zero bytes. */
module Masking {
  import opened BitStrings
  import opened Bytes
  import opened Prefixes

  /** An address with every bit from `n` on cleared. */
  ghost predicate MaskedTo(now: seq<Byte>, was: seq<Byte>, n: nat) {
    |now| == |was| && n <= 8 * |was| && BitsOf(now) == BitsOf(was)[..n] + Repeat(false, 8 * |was| - n)
  }

  /** The masked bytes: whole bytes kept, one byte cut, the rest zero. */
  function Mask(addr: seq<Byte>, full: nat, rem: nat): (r: seq<Byte>)
    requires rem < 8 && 8 * full + rem <= 8 * |addr|
    ensures |r| == |addr|
  {
    if rem > 0 then addr[..full] + [HighBits(addr[full], rem)] + Zeros(|addr| - full - 1)
    else addr[..full] + Zeros(|addr| - full)
  }

  function Zeros(n: nat): seq<Byte> {
    seq(n, _ => 0)
  }

  lemma {:induction false} BitsOfZeros(n: nat)
    ensures BitsOf(Zeros(n)) == Repeat(false, 8 * n)
  {
    if n > 0 {
      BitsOfZeros(n - 1);
      assert Zeros(n)[..n - 1] == Zeros(n - 1);
      ToBitsZero(8);
      assert Repeat(false, 8 * n) == Repeat(false, 8 * (n - 1)) + Repeat(false, 8);
    }
  }

  lemma {:induction false} BitsOfConcat(a: seq<Byte>, b: seq<Byte>)
    ensures BitsOf(a + b) == BitsOf(a) + BitsOf(b)
  {
    if b == [] {
      assert a + b == a;
    } else {
      BitsOfConcat(a, b[..|b| - 1]);
      assert (a + b)[..|a + b| - 1] == a + b[..|b| - 1];
    }
  }

  lemma {:induction false} BitsOfOne(b: Byte)
    ensures BitsOf([b]) == ToBits(b, 8)
  {
    assert [b][..0] == [];
  }

  /** The masked bytes are the masked bits. */
  lemma {:induction false} MaskBits(addr: seq<Byte>, full: nat, rem: nat)
    requires rem < 8 && 8 * full + rem <= 8 * |addr|
    ensures MaskedTo(Mask(addr, full, rem), addr, 8 * full + rem)
  {
    if rem > 0 {
      MaskPieces(addr[..full], HighBits(addr[full], rem), |addr| - full - 1);
      CutMaskBits(addr, full, rem, |addr| - full - 1, BitsOf(Mask(addr, full, rem)));
    } else {
      WholeMaskBits(addr, full, |addr| - full);
    }
  }

  lemma {:induction false} WholeMaskBits(addr: seq<Byte>, full: nat, n: nat)
    requires full + n == |addr|
    ensures BitsOf(addr[..full] + Zeros(n)) == BitsOf(addr)[..8 * full] + Repeat(false, 8 * |addr| - 8 * full)
  {
    BitsOfSlice(addr, full);
    BitsOfConcat(addr[..full], Zeros(n));
    BitsOfZeros(n);
  }

  lemma {:induction false} CutMaskBits(addr: seq<Byte>, full: nat, rem: nat, n: nat, all: Bits)
    requires 0 < rem < 8 && full + 1 + n == |addr|
    requires all == BitsOf(addr[..full]) + BitsOf([HighBits(addr[full], rem)]) + Repeat(false, 8 * n)
    ensures all == BitsOf(addr)[..8 * full + rem] + Repeat(false, 8 * |addr| - (8 * full + rem))
  {
    BitsOfSlice(addr, full);
    PartOfByte(addr, full, rem);
    CutByte(addr[full], rem);
    MaskGlue(BitsOf(addr), 8 * full, rem, 8 * n, BitsOf(addr[..full]), BitsOf([HighBits(addr[full], rem)]), all);
  }

  lemma {:induction false} MaskPieces(a: seq<Byte>, cut: Byte, n: nat)
    ensures BitsOf(a + [cut] + Zeros(n)) == BitsOf(a) + BitsOf([cut]) + Repeat(false, 8 * n)
  {
    BitsOfConcat(a + [cut], Zeros(n));
    BitsOfConcat(a, [cut]);
    BitsOfZeros(n);
  }

  lemma {:induction false} CutByte(b: Byte, rem: nat)
    requires 0 < rem < 8
    ensures BitsOf([HighBits(b, rem)]) == ToBits(b, 8)[..rem] + Repeat(false, 8 - rem)
  {
    BitsOfOne(HighBits(b, rem));
    HighBitsBits(b, rem);
  }

  lemma MaskGlue(bits: Bits, at: nat, rem: nat, n: nat, head: Bits, cut: Bits, all: Bits)
    requires rem <= 8 && at + 8 + n == |bits| && all == head + cut + Repeat(false, n)
    requires head == bits[..at] && cut == bits[at..at + rem] + Repeat(false, 8 - rem)
    ensures all == bits[..at + rem] + Repeat(false, |bits| - (at + rem))
  {
    assert bits[..at + rem] == bits[..at] + bits[at..at + rem];
    assert Repeat(false, |bits| - (at + rem)) == Repeat(false, 8 - rem) + Repeat(false, n);
  }

  /** Zero the bytes from `from` on. */
  method ZeroTail(bytes: array<Byte>, from: nat)
    requires from <= bytes.Length
    modifies bytes
    ensures bytes[..] == old(bytes[..])[..from] + Zeros(bytes.Length - from)
  {
    ghost var was := bytes[..];
    for i := from to bytes.Length
      invariant forall k :: 0 <= k < bytes.Length ==> bytes[k] == if from <= k < i then 0 else was[k]
    {
      bytes[i] := 0;
    }
  }

  /** `prefix_mask_apply`. */
  method MaskApply(pfxlen: Byte, bytes: array<Byte>)
    requires pfxlen <= 8 * bytes.Length
    modifies bytes
    ensures MaskedTo(bytes[..], old(bytes[..]), pfxlen)
  {
    ghost var was := bytes[..];
    var fullBytes, rem := pfxlen / 8, pfxlen % 8;
    if fullBytes < bytes.Length {
      if rem > 0 {
        bytes[fullBytes] := HighBits(bytes[fullBytes], rem);
        assert bytes[..][..fullBytes + 1] == was[..fullBytes] + [HighBits(was[fullBytes], rem)];
        ZeroTail(bytes, fullBytes + 1);
      } else {
        ZeroTail(bytes, fullBytes);
      }
    } else {
      assert was == was[..fullBytes] + Zeros(0);
    }
    assert bytes[..] == Mask(was, fullBytes, rem);
    MaskBits(was, fullBytes, rem);
  }

  /** Masking to its own length makes a prefix valid, and its key is the kept bits. */
  lemma {:induction false} MaskedIsValid(p: Prefix, was: seq<Byte>)
    requires MaskedTo(p.addr, was, p.pfxlen)
    ensures ValidPrefix(p, |was|) && Key(p) == BitsOf(was)[..p.pfxlen]
  {
    assert BitsOf(p.addr)[..p.pfxlen] == BitsOf(was)[..p.pfxlen];
    assert BitsOf(p.addr)[p.pfxlen..] == Repeat(false, 8 * |was| - p.pfxlen);
  }

  /** `prefix_supernet_into`: the parent prefix, one bit shorter. */
  method SupernetInto(p: Prefix) returns (q: Prefix)
    requires ValidPrefix(p, |p.addr|) && p.pfxlen > 0
    ensures ValidPrefix(q, |p.addr|) && q.family == p.family
    ensures Key(q) == Key(p)[..p.pfxlen - 1]
  {
    var newPfxlen: Byte := p.pfxlen - 1;
    var bytes := new Byte[|p.addr|](i requires 0 <= i < |p.addr| => p.addr[i]);
    assert bytes[..] == p.addr;
    MaskApply(newPfxlen, bytes);
    q := Prefix(p.family, bytes[..], newPfxlen);
    MaskedIsValid(q, p.addr);
  }
}
