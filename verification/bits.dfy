/** Bit strings: the common language of every module below.

An address of `L` bytes is read as a bit string of length `8 * L`, most significant bit of the
first byte first, and a prefix is read as the bit string of its first `pfxlen` bits. "Prefix `k`
contains address `a`" is then just `k <= a`, Dafny's prefix order on sequences. */
module BitStrings {
  datatype Option<+T> = None | Some(value: T)

  type Bits = seq<bool>

  // ----- Orders -----

  /** The first place where two strings differ is index `d`. */
  predicate DifferAt<T(==)>(a: seq<T>, b: seq<T>, d: nat) {
    d < |a| && d < |b| && a[..d] == b[..d] && a[d] != b[d]
  }

  /** Lexicographic order on bit strings; a proper prefix comes first. */
  ghost predicate BitsLe(a: Bits, b: Bits) {
    a <= b || exists d: nat :: DifferAt(a, b, d) && b[d]
  }

  /** Lexicographic order on digit strings; a proper prefix comes first. */
  ghost predicate LexLe(a: seq<int>, b: seq<int>) {
    a <= b || exists d: nat :: DifferAt(a, b, d) && a[d] < b[d]
  }

  lemma DifferOnce<T>(a: seq<T>, b: seq<T>, d: nat, e: nat)
    requires DifferAt(a, b, d) && DifferAt(a, b, e)
    ensures d == e
  {
    assert forall i | 0 <= i < d :: a[i] == a[..d][i] == b[..d][i] == b[i];
    assert forall i | 0 <= i < e :: a[i] == a[..e][i] == b[..e][i] == b[i];
  }

  lemma DifferNotPrefix<T>(a: seq<T>, b: seq<T>, d: nat)
    requires DifferAt(a, b, d)
    ensures !(a <= b) && !(b <= a)
  {
  }

  /** Strings with a common prefix differ only past it. */
  lemma DifferBeyond<T>(path: seq<T>, a: seq<T>, b: seq<T>, d: nat)
    requires path <= a && path <= b && DifferAt(a, b, d)
    ensures d >= |path|
    ensures |path| < d ==> a[|path|] == b[|path|]
  {
    assert path == a[..|path|] == b[..|path|];
    assert forall i | 0 <= i < |path| :: a[i] == path[i] == b[i];
    assert forall i | 0 <= i < d :: a[i] == a[..d][i] == b[..d][i] == b[i];
  }

  /** Two strings are related by the prefix order or differ somewhere first. */
  lemma {:induction false} Compare<T>(a: seq<T>, b: seq<T>) returns (d: nat)
    ensures a <= b || b <= a || DifferAt(a, b, d)
  {
    d := 0;
    while d < |a| && d < |b| && a[d] == b[d]
      invariant d <= |a| && d <= |b| && a[..d] == b[..d]
    {
      d := d + 1;
    }
    assert d == |a| ==> a == a[..d];
    assert d == |b| ==> b == b[..d];
  }

  lemma DifferTransitive<T>(a: seq<T>, b: seq<T>, c: seq<T>, d: nat, e: nat)
    requires DifferAt(a, b, d) && DifferAt(b, c, e)
    ensures d < e ==> DifferAt(a, c, d) && c[d] == b[d]
    ensures e < d ==> DifferAt(a, c, e) && a[e] == b[e]
    ensures d == e && a[d] != c[d] ==> DifferAt(a, c, d)
  {
    var m := if d < e then d else e;
    assert a[..m] == a[..d][..m] == b[..d][..m] == b[..m] == b[..e][..m] == c[..e][..m] == c[..m];
    assert d < e ==> b[..e][d] == c[..e][d];
    assert e < d ==> a[..d][e] == b[..d][e];
  }

  /** A difference survives extending either string past it. */
  lemma DifferExtends<T>(a: seq<T>, b: seq<T>, c: seq<T>, d: nat)
    requires DifferAt(a, b, d)
    ensures b <= c ==> DifferAt(a, c, d) && c[d] == b[d]
    ensures a <= c ==> DifferAt(c, b, d) && c[d] == a[d]
  {
    if b <= c { assert c[..d] == b[..d]; }
    if a <= c { assert c[..d] == a[..d]; }
  }

  /** Cutting the end of the right string keeps a difference or makes it a prefix of the left one. */
  lemma DifferCut<T>(a: seq<T>, b: seq<T>, c: seq<T>, d: nat)
    requires DifferAt(a, b, d) && c <= b
    ensures d < |c| ==> DifferAt(a, c, d) && c[d] == b[d]
    ensures |c| <= d ==> c <= a
  {
    if d < |c| {
      assert c[..d] == b[..d];
    } else {
      assert c == b[..d][..|c|] == a[..d][..|c|] == a[..|c|];
    }
  }

  lemma BitsLeTransitive(a: Bits, b: Bits, c: Bits)
    requires BitsLe(a, b) && BitsLe(b, c)
    ensures BitsLe(a, c)
  {
    if a <= b {
      if !(b <= c) {
        var e: nat :| DifferAt(b, c, e) && c[e];
        if e < |a| {
          assert a[..e] == b[..e];
          assert DifferAt(a, c, e);
        } else {
          assert a == b[..e][..|a|] == c[..e][..|a|];
        }
      }
    } else {
      var d: nat :| DifferAt(a, b, d) && b[d];
      if b <= c {
        DifferExtends(a, b, c, d);
      } else {
        var e: nat :| DifferAt(b, c, e) && c[e];
        DifferTransitive(a, b, c, d, e);
      }
    }
  }

  lemma BitsLeAntisymmetric(a: Bits, b: Bits)
    requires BitsLe(a, b) && BitsLe(b, a)
    ensures a == b
  {
    if !(a <= b) {
      var d: nat :| DifferAt(a, b, d) && b[d];
      DifferNotPrefix(a, b, d);
      var e: nat :| DifferAt(b, a, e) && a[e];
      assert DifferAt(a, b, e);
      DifferOnce(a, b, d, e);
    }
  }

  lemma LexLeAntisymmetric(a: seq<int>, b: seq<int>)
    requires LexLe(a, b) && LexLe(b, a)
    ensures a == b
  {
    if !(a <= b) {
      var d: nat :| DifferAt(a, b, d) && a[d] < b[d];
      DifferNotPrefix(a, b, d);
      var e: nat :| DifferAt(b, a, e) && b[e] < a[e];
      assert DifferAt(a, b, e);
      DifferOnce(a, b, d, e);
    }
  }

  // ----- Bit strings and numbers -----

  function Pow2(n: nat): (r: nat)
    ensures r >= 1
  {
    if n == 0 then 1 else 2 * Pow2(n - 1)
  }

  /** The low `w` bits of a number, most significant first: bit `j` is `(n >> (w - j - 1)) & 1`. */
  function ToBits(n: nat, w: nat): (r: Bits)
    ensures |r| == w
  {
    if w == 0 then [] else ToBits(n / 2, w - 1) + [n % 2 == 1]
  }

  /** The number spelled by a bit string, most significant bit first. */
  function Val(pat: Bits): (r: nat)
    ensures r < Pow2(|pat|)
  {
    if pat == [] then 0 else 2 * Val(pat[..|pat| - 1]) + if pat[|pat| - 1] then 1 else 0
  }

  lemma {:induction false} ToBitsOfVal(pat: Bits)
    ensures ToBits(Val(pat), |pat|) == pat
  {
    if pat != [] {
      ToBitsOfVal(pat[..|pat| - 1]);
    }
  }

  lemma {:induction false} ValOfToBits(n: nat, b: nat)
    requires n < Pow2(b)
    ensures Val(ToBits(n, b)) == n
  {
    if b > 0 {
      ValOfToBits(n / 2, b - 1);
      assert ToBits(n, b)[..b - 1] == ToBits(n / 2, b - 1);
    }
  }

  lemma DoubleMul(x: nat, y: nat)
    ensures x * (2 * y) == 2 * (x * y)
  {
  }

  lemma {:induction false} ToBitsSplit(x: nat, n: nat, j: nat, m: nat)
    requires n < Pow2(m)
    ensures ToBits(x * Pow2(m) + n, j + m) == ToBits(x, j) + ToBits(n, m)
  {
    if m > 0 {
      var s, h := x * Pow2(m) + n, x * Pow2(m - 1);
      Pow2Step(x, m - 1);
      HalfOf(h, n);
      assert s == 2 * h + n;
      ToBitsSplit(x, n / 2, j, m - 1);
      ToBitsSnoc(s, j + m);
      ToBitsSnoc(n, m);
    }
  }

  lemma HalfOf(h: nat, n: nat)
    ensures (2 * h + n) / 2 == h + n / 2 && (2 * h + n) % 2 == n % 2
  {
  }

  lemma ToBitsSnoc(n: nat, w: nat)
    requires w > 0
    ensures ToBits(n, w) == ToBits(n / 2, w - 1) + [n % 2 == 1]
  {
  }

  lemma {:induction false} Pow2Adds(j: nat, m: nat)
    ensures Pow2(j + m) == Pow2(j) * Pow2(m)
  {
    if m > 0 {
      Pow2Adds(j, m - 1);
      DoubleMul(Pow2(j), Pow2(m - 1));
    }
  }

  /** `n >> s`. */
  function Shr(n: nat, s: nat): (r: nat)
    ensures r <= n
  {
    if s == 0 then n else Shr(n / 2, s - 1)
  }

  lemma {:induction false} ShrTwice(n: nat, s: nat, k: nat)
    ensures Shr(n, s + k) == Shr(Shr(n, s), k)
  {
    if s > 0 { ShrTwice(n / 2, s - 1, k); }
  }

  lemma {:induction false} ToBitsHigh(n: nat, w: nat, s: nat)
    requires s <= w
    ensures ToBits(Shr(n, s), w - s) == ToBits(n, w)[..w - s]
  {
    if s > 0 {
      ToBitsHigh(n / 2, w - 1, s - 1);
      var low := ToBits(n / 2, w - 1);
      assert (low + [n % 2 == 1])[..w - s] == low[..w - s];
    }
  }

  lemma {:induction false} ToBitsAt(n: nat, w: nat, k: nat)
    requires k < w
    ensures ToBits(n, w)[k] == (Shr(n, w - 1 - k) % 2 == 1)
  {
    ToBitsHigh(n, w, w - 1 - k);
    assert ToBits(Shr(n, w - 1 - k), k + 1)[k] == ToBits(n, w)[..k + 1][k];
  }

  lemma {:induction false} ValConcat(a: Bits, b: Bits)
    ensures Val(a + b) == Val(a) * Pow2(|b|) + Val(b)
  {
    if b == [] {
      assert a + b == a;
    } else {
      var n := |b| - 1;
      var low, bit := b[..n], b[n];
      assert b == low + [bit] && a + b == (a + low) + [bit];
      ValConcat(a, low);
      ValSnoc(a + low, bit);
      ValSnoc(low, bit);
      Pow2Step(Val(a), n);
    }
  }

  lemma Pow2Step(x: nat, n: nat)
    ensures x * Pow2(n + 1) == 2 * (x * Pow2(n))
  {
    DoubleMul(x, Pow2(n));
  }

  lemma {:induction false} ValSnoc(a: Bits, bit: bool)
    ensures Val(a + [bit]) == 2 * Val(a) + if bit then 1 else 0
  {
    assert (a + [bit])[..|a|] == a;
  }

  // ----- Numbers in a base -----

  function Power(base: nat, k: nat): nat {
    if k == 0 then 1 else base * Power(base, k - 1)
  }

  /** The last `k` of the digits `ds` as a number: the digit `i` from the end counts `base` to the `i`. */
  function PlaceSum(base: nat, ds: seq<int>, k: nat): int
    requires k <= |ds|
  {
    if k == 0 then 0 else PlaceSum(base, ds, k - 1) + Power(base, k - 1) * ds[|ds| - k]
  }

  lemma PowerStep(base: nat, k: nat, d: int)
    ensures Power(base, k + 1) * d == base * (Power(base, k) * d)
  {
  }

  lemma Distribute(x: int, y: int, z: int)
    ensures x * (y + z) == x * y + x * z
  {
  }

  /** One digit more shifts the others by one place. */
  lemma {:induction false} PlaceSumSnoc(base: nat, ds: seq<int>, k: nat)
    requires k < |ds|
    ensures PlaceSum(base, ds, k + 1) == base * PlaceSum(base, ds[..|ds| - 1], k) + ds[|ds| - 1]
  {
    if k == 0 {
      assert Power(base, 0) * ds[|ds| - 1] == ds[|ds| - 1];
      assert PlaceSum(base, ds, 1) == PlaceSum(base, ds, 0) + Power(base, 0) * ds[|ds| - 1];
    } else {
      var n, d := |ds| - 1, ds[|ds| - 1 - k];
      PlaceSumSnoc(base, ds, k - 1);
      PowerStep(base, k - 1, d);
      Distribute(base, PlaceSum(base, ds[..n], k - 1), Power(base, k - 1) * d);
      assert ds[..n][|ds[..n]| - k] == d;
    }
  }

  function Repeat(bit: bool, n: nat): Bits {
    seq(n, _ => bit)
  }

  lemma {:induction false} ValRepeat(n: nat)
    ensures Val(Repeat(false, n)) == 0 && Val(Repeat(true, n)) == Pow2(n) - 1
  {
    if n > 0 {
      ValRepeat(n - 1);
      assert Repeat(false, n)[..n - 1] == Repeat(false, n - 1);
      assert Repeat(true, n)[..n - 1] == Repeat(true, n - 1);
    }
  }

  lemma {:induction false} ToBitsZero(w: nat)
    ensures ToBits(0, w) == Repeat(false, w)
  {
    if w > 0 { ToBitsZero(w - 1); }
  }

  /** Equal-length bit strings are ordered as the numbers they spell. */
  lemma {:induction false} ValOrder(a: Bits, b: Bits)
    requires |a| == |b|
    ensures BitsLe(a, b) <==> Val(a) <= Val(b)
    ensures a == b <==> Val(a) == Val(b)
  {
    var d := Compare(a, b);
    if DifferAt(a, b, d) {
      if b[d] {
        ValDiffer(a, b, d);
      } else {
        ValDiffer(b, a, d);
        forall e: nat | DifferAt(a, b, e)
          ensures e == d
        {
          DifferOnce(a, b, d, e);
        }
      }
    } else {
      assert a == b;
    }
  }

  lemma {:induction false} ValDiffer(a: Bits, b: Bits, d: nat)
    requires |a| == |b| && DifferAt(a, b, d) && b[d]
    ensures Val(a) < Val(b)
  {
    var n := |a| - 1;
    assert a == a[..n] + [a[n]] && b == b[..n] + [b[n]];
    assert a[..d] == a[..n][..d] && b[..d] == b[..n][..d];
    if d < n {
      ValDiffer(a[..n], b[..n], d);
    }
  }
}
