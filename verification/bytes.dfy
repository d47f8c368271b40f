/** Address bytes: the C byte operations as integer arithmetic, and their bit reading.

`BitsOf` spells a byte sequence out bit by bit, and `BytesOf` packs a bit string again. Masks and
byte comparisons are given by their effect on the bits. */
module Bytes {
  import opened BitStrings

  type Byte = x: int | 0 <= x < 256

  /** `(b >> (7 - k)) & 1`: bit `k` of a byte, most significant first. */
  predicate BitAt(b: Byte, k: nat)
    requires k < 8
  {
    Shr(b, 7 - k) % 2 == 1
  }

  /** `n & ~((1 << s) - 1)`: a number with its low `s` bits cleared. */
  function ClearLow(n: nat, s: nat): (r: nat)
    ensures r <= n
  {
    if s == 0 then n else 2 * ClearLow(n / 2, s - 1)
  }

  lemma {:induction false} ClearLowBits(n: nat, w: nat, s: nat)
    requires s <= w
    ensures ToBits(ClearLow(n, s), w) == ToBits(n, w)[..w - s] + Repeat(false, s)
  {
    if s > 0 {
      ClearLowBits(n / 2, w - 1, s - 1);
      var low := ToBits(n / 2, w - 1);
      assert ToBits(n, w)[..w - s] == low[..w - s];
      assert Repeat(false, s) == Repeat(false, s - 1) + [false];
    } else {
      assert ToBits(n, w)[..w] == ToBits(n, w);
    }
  }

  /** `b & (uint8_t)(0xFF << (8 - r))`: the top `r` bits of a byte, the rest cleared. */
  function HighBits(b: Byte, r: nat): Byte
    requires r <= 8
  {
    ClearLow(b, 8 - r)
  }

  /** The bit string of an address. */
  function BitsOf(bytes: seq<Byte>): (r: Bits)
    ensures |r| == 8 * |bytes|
  {
    if bytes == [] then [] else BitsOf(bytes[..|bytes| - 1]) + ToBits(bytes[|bytes| - 1], 8)
  }

  lemma {:induction false} BitsOfSlice(a: seq<Byte>, i: nat)
    requires i <= |a|
    ensures BitsOf(a[..i]) == BitsOf(a)[..8 * i]
  {
    if i < |a| {
      BitsOfSlice(a[..|a| - 1], i);
      assert a[..|a| - 1][..i] == a[..i];
    } else {
      assert a[..i] == a;
    }
  }

  lemma {:induction false} BitsOfSnoc(a: seq<Byte>, b: Byte)
    ensures BitsOf(a + [b]) == BitsOf(a) + ToBits(b, 8)
  {
    assert (a + [b])[..|a|] == a;
  }

  /** The bytes of a bit string. */
  function BytesOf(bits: Bits): (bytes: seq<Byte>)
    requires |bits| % 8 == 0
    ensures |bytes| == |bits| / 8
  {
    if bits == [] then []
    else BytesOf(bits[..|bits| - 8]) + [ByteOf(bits[|bits| - 8..])]
  }

  function ByteOf(bits: Bits): (b: Byte)
    requires |bits| == 8
    ensures ToBits(b, 8) == bits
  {
    assert Pow2(8) == 256;
    ToBitsOfVal(bits);
    Val(bits)
  }

  lemma {:induction false} BytesSnoc(bits: Bits, n: nat, high: seq<Byte>, low: Byte)
    requires n + 8 == |bits| && BitsOf(high) == bits[..n] && ToBits(low, 8) == bits[n..]
    ensures BitsOf(high + [low]) == bits
  {
    BitsOfSnoc(high, low);
    assert bits == bits[..n] + bits[n..];
  }

  /** Every bit string of a whole number of bytes is an address. */
  lemma {:induction false} BitsOfBytesOf(bits: Bits)
    requires |bits| % 8 == 0
    ensures BitsOf(BytesOf(bits)) == bits
  {
    if bits != [] {
      var n := |bits| - 8;
      BitsOfBytesOf(bits[..n]);
      BytesSnoc(bits, n, BytesOf(bits[..n]), ByteOf(bits[n..]));
    }
  }

  lemma {:induction false} BitsOfByte(a: seq<Byte>, i: nat)
    requires i < |a|
    ensures BitsOf(a)[8 * i..8 * i + 8] == ToBits(a[i], 8)
  {
    BitsOfSlice(a, i + 1);
    assert a[..i + 1][..i] == a[..i];
    assert BitsOf(a)[8 * i..8 * i + 8] == BitsOf(a[..i + 1])[8 * i..];
  }

  lemma {:induction false} ByteBitAt(x: Byte, j: nat)
    requires j < 8
    ensures ToBits(x, 8)[j] == BitAt(x, j)
  {
    ToBitsAt(x, 8, j);
  }

  lemma {:induction false} BitInBlock(a: seq<Byte>, i: nat, j: nat)
    requires i < |a| && j < 8
    ensures BitsOf(a)[8 * i + j] == ToBits(a[i], 8)[j]
  {
    BitsOfByte(a, i);
    assert BitsOf(a)[8 * i..8 * i + 8][j] == BitsOf(a)[8 * i + j];
  }

  /** Bit `8i + j` of an address is bit `j` of byte `i`. */
  lemma {:induction false} BitsOfAt(a: seq<Byte>, i: nat, j: nat)
    requires i < |a| && j < 8
    ensures BitsOf(a)[8 * i + j] == BitAt(a[i], j)
  {
    BitInBlock(a, i, j);
    ByteBitAt(a[i], j);
  }

  lemma {:induction false} ByteEqual(x: Byte, y: Byte)
    requires ToBits(x, 8) == ToBits(y, 8)
    ensures x == y
  {
    assert Pow2(8) == 256;
    ValOfToBits(x, 8);
    ValOfToBits(y, 8);
  }

  lemma {:induction false} BitsOfInjective(a: seq<Byte>, b: seq<Byte>)
    requires BitsOf(a) == BitsOf(b)
    ensures a == b
  {
    if a != [] {
      var n := |a| - 1;
      BitsOfSlice(a, n);
      BitsOfSlice(b, n);
      BitsOfInjective(a[..n], b[..n]);
      BitsOfByte(a, n);
      BitsOfByte(b, n);
      ByteEqual(a[n], b[n]);
    }
  }

  lemma SplitEqual(x: Bits, y: Bits, m: nat, n: nat)
    requires m <= n <= |x| == |y|
    ensures x[..n] == y[..n] <==> x[..m] == y[..m] && x[m..n] == y[m..n]
  {
    assert x[..n] == x[..m] + x[m..n] && y[..n] == y[..m] + y[m..n];
    assert x[..n][..m] == x[..m] && x[..n][m..] == x[m..n];
    assert y[..n][..m] == y[..m] && y[..n][m..] == y[m..n];
  }

  lemma {:induction false} SameBytes(a: seq<Byte>, b: seq<Byte>, f: nat)
    requires f <= |a| == |b|
    ensures BitsOf(a)[..8 * f] == BitsOf(b)[..8 * f] <==> a[..f] == b[..f]
  {
    BitsOfSlice(a, f);
    BitsOfSlice(b, f);
    if BitsOf(a)[..8 * f] == BitsOf(b)[..8 * f] {
      BitsOfInjective(a[..f], b[..f]);
    }
  }

  lemma {:induction false} PartOfByte(a: seq<Byte>, f: nat, r: nat)
    requires f < |a| && r <= 8
    ensures BitsOf(a)[8 * f..8 * f + r] == ToBits(a[f], 8)[..r]
  {
    BitsOfByte(a, f);
    assert BitsOf(a)[8 * f..8 * f + r] == BitsOf(a)[8 * f..8 * f + 8][..r];
  }

  lemma {:induction false} HighBitsBits(x: Byte, r: nat)
    requires r <= 8
    ensures ToBits(HighBits(x, r), 8) == ToBits(x, 8)[..r] + Repeat(false, 8 - r)
  {
    ClearLowBits(x, 8, 8 - r);
  }

  lemma {:induction false} MaskedEqual(x: Byte, y: Byte, r: nat)
    requires r <= 8
    ensures HighBits(x, r) == HighBits(y, r) <==> ToBits(x, 8)[..r] == ToBits(y, 8)[..r]
  {
    HighBitsBits(x, r);
    HighBitsBits(y, r);
    TopOf(ToBits(x, 8), ToBits(y, 8), r);
    if ToBits(x, 8)[..r] == ToBits(y, 8)[..r] {
      ByteEqual(HighBits(x, r), HighBits(y, r));
    }
  }

  lemma TopOf(x: Bits, y: Bits, r: nat)
    requires r <= |x| == |y|
    ensures x[..r] + Repeat(false, |x| - r) == y[..r] + Repeat(false, |y| - r) ==> x[..r] == y[..r]
  {
    assert (x[..r] + Repeat(false, |x| - r))[..r] == x[..r];
    assert (y[..r] + Repeat(false, |y| - r))[..r] == y[..r];
  }

  /** Agreement on the first `8f + r` bits, tested the C way: whole bytes, then one masked byte. */
  lemma {:induction false} AgreeByBytes(a: seq<Byte>, b: seq<Byte>, f: nat, r: nat)
    requires |a| == |b| && r < 8 && 8 * f + r <= 8 * |a|
    ensures r > 0 ==> f < |a|
    ensures BitsOf(a)[..8 * f + r] == BitsOf(b)[..8 * f + r] <==>
      a[..f] == b[..f] && (r > 0 ==> HighBits(a[f], r) == HighBits(b[f], r))
  {
    SameBytes(a, b, f);
    if r > 0 {
      SplitEqual(BitsOf(a), BitsOf(b), 8 * f, 8 * f + r);
      PartsEqual(a, b, f, r);
    }
  }

  lemma {:induction false} PartsEqual(a: seq<Byte>, b: seq<Byte>, f: nat, r: nat)
    requires f < |a| == |b| && r < 8
    ensures BitsOf(a)[8 * f..8 * f + r] == BitsOf(b)[8 * f..8 * f + r] <==> HighBits(a[f], r) == HighBits(b[f], r)
  {
    PartOfByte(a, f, r);
    PartOfByte(b, f, r);
    MaskedEqual(a[f], b[f], r);
  }

  /** Two strings that agree up to one block differ first where the blocks do. */
  lemma DifferByBlock(a: Bits, b: Bits, at: nat, to: nat, e: nat)
    requires at <= to <= |a| == |b|
    requires a[..at] == b[..at] && DifferAt(a[at..to], b[at..to], e)
    ensures DifferAt(a, b, at + e) && a[at + e] == a[at..to][e] && b[at + e] == b[at..to][e]
  {
    assert a[..at + e] == a[..at] + a[at..to][..e];
    assert b[..at + e] == b[..at] + b[at..to][..e];
  }

  lemma DigitDiffers(x: Byte, y: Byte) returns (e: nat)
    requires x < y
    ensures DifferAt(ToBits(x, 8), ToBits(y, 8), e) && ToBits(y, 8)[e]
  {
    assert Pow2(8) == 256;
    ValOfToBits(x, 8);
    ValOfToBits(y, 8);
    ValOrder(ToBits(x, 8), ToBits(y, 8));
    e :| DifferAt(ToBits(x, 8), ToBits(y, 8), e) && ToBits(y, 8)[e];
  }

  /** At the first differing byte, the smaller byte has the first differing bit clear. */
  lemma ByteDiffers(a: seq<Byte>, b: seq<Byte>, d: nat) returns (e: nat)
    requires |a| == |b| && DifferAt(a, b, d) && a[d] < b[d]
    ensures DifferAt(BitsOf(a), BitsOf(b), e) && BitsOf(b)[e]
  {
    SameBytes(a, b, d);
    BitsOfByte(a, d);
    BitsOfByte(b, d);
    var f := DigitDiffers(a[d], b[d]);
    var x, y, at := BitsOf(a), BitsOf(b), 8 * d;
    assert x[at..at + 8] == ToBits(a[d], 8) && y[at..at + 8] == ToBits(b[d], 8);
    DifferByBlock(x, y, at, at + 8, f);
    e := at + f;
  }
}
