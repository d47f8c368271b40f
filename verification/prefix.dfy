/** The prefix record and its bit-string meaning.

The key of a prefix is its network part. A prefix is valid when its address has the given
number of bytes, its length fits them, and its host bits are zero. */
module Prefixes {
  import opened BitStrings
  import opened Bytes

  const AF_UNSPEC: nat := 0
  const AF_INET: nat := 4
  const AF_INET6: nat := 6

  /** Address bytes of a family. */
  function AddrLen(family: nat): nat {
    if family == AF_INET then 4 else 16
  }

  /** `cidr_err_t`, as far as the model returns it. */
  datatype Status = Ok | ErrInval | ErrParse | ErrPfxlen | ErrHostBits | ErrFamily | ErrOverflow | ErrDone

  /** `cidr_addr_t`. */
  datatype Address = Address(family: nat, bytes: seq<Byte>)

  /** The union holds as many bytes as the family says. */
  predicate ValidAddress(a: Address) {
    (a.family == AF_INET || a.family == AF_INET6) && |a.bytes| == AddrLen(a.family)
  }

  /** `cidr_prefix_t`. The sorts stash an order tag in `family`, so it is a plain number. */
  datatype Prefix = Prefix(family: nat, addr: seq<Byte>, pfxlen: Byte)

  /** A prefix of `len` address bytes: length in range, host bits zero. */
  predicate ValidPrefix(p: Prefix, len: nat) {
    && |p.addr| == len
    && p.pfxlen <= 8 * len
    && BitsOf(p.addr)[p.pfxlen..] == Repeat(false, 8 * len - p.pfxlen)
  }

  /** What every public operation takes and returns: a known family, and valid for it. */
  predicate Proper(p: Prefix) {
    (p.family == AF_INET || p.family == AF_INET6) && ValidPrefix(p, AddrLen(p.family))
  }

  ghost predicate AllValid(ps: seq<Prefix>, len: nat) {
    forall i :: 0 <= i < |ps| ==> ValidPrefix(ps[i], len)
  }

  /** The bits of the network part. */
  function Key(p: Prefix): (k: Bits)
    requires p.pfxlen <= 8 * |p.addr|
    ensures |k| == p.pfxlen
  {
    BitsOf(p.addr)[..p.pfxlen]
  }

  /** `p` contains the address `a`. */
  predicate Contains(p: Prefix, a: seq<Byte>)
    requires p.pfxlen <= 8 * |p.addr|
  {
    Key(p) <= BitsOf(a)
  }

  lemma {:induction false} AgreeIsContains(pfx: Prefix, addr: seq<Byte>)
    requires |pfx.addr| == |addr| && pfx.pfxlen <= 8 * |addr|
    ensures Contains(pfx, addr) <==> BitsOf(pfx.addr)[..pfx.pfxlen] == BitsOf(addr)[..pfx.pfxlen]
  {
  }

  /** `prefixes_equal_key`: the same prefix, whatever the families or tags. */
  predicate SamePrefix(p: Prefix, q: Prefix) {
    p.addr == q.addr && p.pfxlen == q.pfxlen
  }

  /** A valid prefix is determined by its key. */
  lemma KeyInjective(p: Prefix, q: Prefix, len: nat)
    requires ValidPrefix(p, len) && ValidPrefix(q, len) && Key(p) == Key(q)
    ensures SamePrefix(p, q)
  {
    assert BitsOf(p.addr) == Key(p) + BitsOf(p.addr)[p.pfxlen..];
    assert BitsOf(q.addr) == Key(q) + BitsOf(q.addr)[q.pfxlen..];
    BitsOfInjective(p.addr, q.addr);
  }

  /** Sort key of `CIDR_SORT_NETWORK_ASC`: address bytes, then length. */
  function NetworkKey(p: Prefix): seq<int> {
    p.addr + [p.pfxlen]
  }

  /** Sorting by network key sorts the bit strings: an ancestor before its descendants. */
  lemma NetworkOrder(p: Prefix, q: Prefix, len: nat)
    requires ValidPrefix(p, len) && ValidPrefix(q, len) && LexLe(NetworkKey(p), NetworkKey(q))
    ensures BitsLe(Key(p), Key(q))
  {
    var x, y := NetworkKey(p), NetworkKey(q);
    if x <= y {
      assert x == y && p.addr == x[..len] == y[..len] == q.addr && x[len] == y[len];
    } else {
      var d: nat :| DifferAt(x, y, d) && x[d] < y[d];
      if d == len {
        assert p.addr == x[..len] == y[..len] == q.addr;
        assert Key(p) == Key(q)[..p.pfxlen];
      } else {
        assert p.addr[..d] == x[..d] == y[..d] == q.addr[..d];
        assert DifferAt<Byte>(p.addr, q.addr, d);
        var e := ByteDiffers(p.addr, q.addr, d);
        KeysDiffer(p, q, len, e);
      }
    }
  }

  lemma HostBit(p: Prefix, len: nat, e: nat)
    requires ValidPrefix(p, len) && p.pfxlen <= e < 8 * len
    ensures !BitsOf(p.addr)[e]
  {
    assert BitsOf(p.addr)[p.pfxlen..][e - p.pfxlen] == BitsOf(p.addr)[e];
  }

  lemma KeysDiffer(p: Prefix, q: Prefix, len: nat, e: nat)
    requires ValidPrefix(p, len) && ValidPrefix(q, len)
    requires DifferAt(BitsOf(p.addr), BitsOf(q.addr), e) && BitsOf(q.addr)[e]
    ensures BitsLe(Key(p), Key(q))
  {
    if e >= q.pfxlen {
      HostBit(q, len, e);
    }
    if e < p.pfxlen {
      assert Key(p)[..e] == BitsOf(p.addr)[..e] && Key(q)[..e] == BitsOf(q.addr)[..e];
      assert DifferAt(Key(p), Key(q), e);
    } else {
      assert Key(p) == BitsOf(p.addr)[..e][..p.pfxlen] == BitsOf(q.addr)[..e][..p.pfxlen] == Key(q)[..p.pfxlen];
    }
  }
}
