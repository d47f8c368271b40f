/** The two sort orders as orders of addresses and lengths, without the sort keys. */
module SortOrders {
  import opened BitStrings
  import opened Bytes
  import opened Prefixes
  import opened BulkSort
  import opened PrefixArithmetic
  import opened SubnetIteration

  /** Byte strings of one length are ordered as the numbers they spell. */
  lemma {:induction false} BytesOrder(a: seq<Byte>, b: seq<Byte>)
    requires |a| == |b|
    ensures LexLe(a, b) <==> Num(a) <= Num(b)
    ensures a == b <==> Num(a) == Num(b)
  {
    var d := Compare(a, b);
    SameNum(a, b);
    if DifferAt(a, b, d) {
      FirstByteDecides(a, b, d);
      FirstByteDecides(b, a, d);
      assert DifferAt(b, a, d);
      if LexLe(a, b) && b[d] < a[d] {
        LexLeAntisymmetric(a, b);
      }
    }
  }

  lemma {:induction false} LexCons(x: int, a: seq<int>, y: int, b: seq<int>)
    ensures LexLe([x] + a, [y] + b) <==> x < y || (x == y && LexLe(a, b))
  {
    var p, q := [x] + a, [y] + b;
    assert p[1..] == a && q[1..] == b;
    if x < y {
      assert DifferAt(p, q, 0);
    } else if x == y {
      if a <= b {
        assert p <= q;
      }
      forall d: nat
        ensures DifferAt(p, q, d + 1) <==> DifferAt(a, b, d)
      {
        ConsDiffer(x, a, b, d);
      }
      if d: nat :| DifferAt(a, b, d) && a[d] < b[d] {
        assert DifferAt(p, q, d + 1) && p[d + 1] < q[d + 1];
      }
      if d: nat :| DifferAt(p, q, d) && p[d] < q[d] {
        assert DifferAt(p, q, d - 1 + 1);
      }
    } else {
      assert DifferAt(p, q, 0);
      forall d: nat | DifferAt(p, q, d)
        ensures d == 0
      {
        DifferOnce(p, q, d, 0);
      }
    }
  }

  lemma ConsDiffer(x: int, a: seq<int>, b: seq<int>, d: nat)
    ensures DifferAt([x] + a, [x] + b, d + 1) <==> DifferAt(a, b, d)
  {
    var p, q := [x] + a, [x] + b;
    if d < |a| && d < |b| {
      assert p[..d + 1] == [x] + a[..d] && q[..d + 1] == [x] + b[..d];
      assert p[..d + 1] == q[..d + 1] ==> a[..d] == p[..d + 1][1..] == q[..d + 1][1..] == b[..d];
    }
  }

  lemma {:induction false} LexSnoc(a: seq<int>, x: int, b: seq<int>, y: int)
    requires |a| == |b|
    ensures LexLe(a + [x], b + [y]) <==> LexLe(a, b) && (a == b ==> x <= y)
    decreases |a|
  {
    if a == [] {
      assert a + [x] == [x] + [] && b + [y] == [y] + [];
      LexCons(x, [], y, []);
    } else {
      assert a == [a[0]] + a[1..] && b == [b[0]] + b[1..];
      assert a + [x] == [a[0]] + (a[1..] + [x]) && b + [y] == [b[0]] + (b[1..] + [y]);
      LexCons(a[0], a[1..], b[0], b[1..]);
      LexCons(a[0], a[1..] + [x], b[0], b[1..] + [y]);
      LexSnoc(a[1..], x, b[1..], y);
    }
  }

  /** CIDR_SORT_PFXLEN_DESC: longer prefixes first, then lower addresses, then earlier entries. */
  predicate Descends(p: Prefix, i: nat, q: Prefix, j: nat) {
    || p.pfxlen > q.pfxlen
    || (p.pfxlen == q.pfxlen && Num(p.addr) < Num(q.addr))
    || (p.pfxlen == q.pfxlen && p.addr == q.addr && i < j)
  }

  lemma {:induction false} DescKeyOrder(p: Prefix, q: Prefix)
    requires |p.addr| == |q.addr|
    ensures LexLe(DescKey(p), DescKey(q)) <==>
      p.pfxlen > q.pfxlen || (p.pfxlen == q.pfxlen && Num(p.addr) <= Num(q.addr))
  {
    LexCons(255 - p.pfxlen, p.addr, 255 - q.pfxlen, q.addr);
    BytesOrder(p.addr, q.addr);
  }

  lemma {:induction false} DescBeforeIff(p: Prefix, i: nat, q: Prefix, j: nat)
    requires |p.addr| == |q.addr|
    ensures DescBefore(p, i, q, j) <==> Descends(p, i, q, j)
  {
    DescKeyOrder(p, q);
    BytesOrder(p.addr, q.addr);
    SamePrefixIsDescKey(p, q);
  }

  /** The descending sort is stable and in the order of lengths, then addresses: exactly so. */
  lemma {:induction false} StableDescIff(s: seq<Prefix>, r: seq<Prefix>, order: seq<nat>, len: nat)
    requires SameWidth(r, len)
    ensures StableDesc(s, r, order) <==>
      && |s| == |r| == |order|
      && (forall k :: 0 <= k < |r| ==> order[k] < |s| && r[k] == s[order[k]])
      && (forall m: nat :: m < |s| ==> m in order)
      && (forall k, l :: 0 <= k < l < |r| ==> Descends(r[k], order[k], r[l], order[l]))
  {
    if |r| == |order| {
      forall k, l | 0 <= k < l < |r|
        ensures DescBefore(r[k], order[k], r[l], order[l]) <==> Descends(r[k], order[k], r[l], order[l])
      {
        DescBeforeIff(r[k], order[k], r[l], order[l]);
      }
    }
  }

  /** CIDR_SORT_NETWORK_ASC: lower addresses first, then shorter prefixes. */
  predicate Ascends(p: Prefix, q: Prefix) {
    Num(p.addr) < Num(q.addr) || (p.addr == q.addr && p.pfxlen <= q.pfxlen)
  }

  lemma {:induction false} NetworkSortedIff(ps: seq<Prefix>, len: nat)
    requires SameWidth(ps, len)
    ensures NetworkSorted(ps) <==> forall i, j :: 0 <= i < j < |ps| ==> Ascends(ps[i], ps[j])
  {
    forall i, j | 0 <= i < j < |ps|
      ensures LexLe(NetworkKey(ps[i]), NetworkKey(ps[j])) <==> Ascends(ps[i], ps[j])
    {
      LexSnoc(ps[i].addr, ps[i].pfxlen, ps[j].addr, ps[j].pfxlen);
      BytesOrder(ps[i].addr, ps[j].addr);
    }
  }
}
