/** `cidr_bulk_contains`: the first prefix of the array that contains each address. */
module BulkContains {
  import opened BitStrings
  import opened Bytes
  import opened Prefixes
  import opened BulkSort

  /** `bulk_prefix_contains`: whole bytes, then one masked byte; the mask-free test. */
  predicate BulkPrefixContains(pfx: Prefix, addr: seq<Byte>): (r: bool)
    requires |pfx.addr| == |addr| && pfx.pfxlen <= 8 * |addr|
    ensures r <==> Contains(pfx, addr)
  {
    AgreeByBytes(pfx.addr, addr, pfx.pfxlen / 8, pfx.pfxlen % 8);
    AgreeIsContains(pfx, addr);
    pfx.pfxlen == 0 ||
    (var full, rem := pfx.pfxlen / 8, pfx.pfxlen % 8;
     pfx.addr[..full] == addr[..full] &&
     (rem > 0 ==> HighBits(pfx.addr[full], rem) == HighBits(addr[full], rem)))
  }

  ghost predicate ForWidth(ps: seq<Prefix>, len: nat) {
    forall i :: 0 <= i < |ps| ==> |ps[i].addr| == len && ps[i].pfxlen <= 8 * len
  }

  /** `m` is the lowest index of a prefix that contains `a`, or -1 when none does. */
  ghost predicate IsFirstMatch(ps: seq<Prefix>, len: nat, a: seq<Byte>, m: int)
    requires ForWidth(ps, len)
  {
    && -1 <= m < |ps|
    && (m >= 0 ==> Contains(ps[m], a))
    && forall j :: 0 <= j < (if m >= 0 then m else |ps|) ==> !Contains(ps[j], a)
  }

  /** The scan of `cidr_bulk_contains` over valid, same-family input. */
  method ScanAll(addrs: seq<seq<Byte>>, ps: seq<Prefix>, ghost len: nat, matches: array<int>)
    requires ForWidth(ps, len) && |addrs| == matches.Length
    requires forall i :: 0 <= i < |addrs| ==> |addrs[i]| == len
    modifies matches
    ensures forall i :: 0 <= i < |addrs| ==> IsFirstMatch(ps, len, addrs[i], matches[i])
  {
    for i := 0 to |addrs|
      invariant forall k :: 0 <= k < i ==> IsFirstMatch(ps, len, addrs[k], matches[k])
    {
      var match_ := -1;
      for j := 0 to |ps|
        invariant match_ == -1
        invariant forall k :: 0 <= k < j ==> !Contains(ps[k], addrs[i])
      {
        if BulkPrefixContains(ps[j], addrs[i]) {
          match_ := j;
          break;
        }
      }
      matches[i] := match_;
    }
  }

  /** First match after the descending sort is longest-prefix match on the caller's own array: a
      longest containing prefix and, among equal ones, the earliest. */
  lemma SortedScanIsLongestMatch(s: seq<Prefix>, r: seq<Prefix>, order: seq<nat>, len: nat, a: seq<Byte>, m: int,
      i: nat)
    requires ForWidth(s, len) && ForWidth(r, len) && StableDesc(s, r, order) && IsFirstMatch(r, len, a, m)
    requires i < |s| && Contains(s[i], a)
    ensures m >= 0 && s[order[m]] == r[m] && Contains(s[order[m]], a)
    ensures s[i].pfxlen <= s[order[m]].pfxlen
    ensures s[i].pfxlen == s[order[m]].pfxlen ==> Key(s[i]) == Key(s[order[m]])
    ensures SamePrefix(s[i], s[order[m]]) ==> order[m] <= i
  {
    assert i in order;
    var k :| 0 <= k < |order| && order[k] == i;
    assert r[k] == s[i];
    assert Key(s[i]) == BitsOf(a)[..s[i].pfxlen] && Key(r[m]) == BitsOf(a)[..r[m].pfxlen];
    if m < k {
      assert DescBefore(r[m], order[m], r[k], order[k]);
      DescKeyLonger(r[m], r[k]);
      SamePrefixIsDescKey(r[m], r[k]);
      assert SamePrefix(s[i], s[order[m]]) ==> SamePrefix(r[m], r[k]);
    }
    assert m <= k;
  }

  lemma DescKeyLonger(p: Prefix, q: Prefix)
    requires LexLe(DescKey(p), DescKey(q))
    ensures q.pfxlen <= p.pfxlen
  {
    var x, y := DescKey(p), DescKey(q);
    assert x[0] == 255 - p.pfxlen && y[0] == 255 - q.pfxlen;
    if !(x <= y) {
      var d: nat :| DifferAt(x, y, d) && x[d] < y[d];
      assert d > 0 ==> x[0] == x[..d][0] == y[..d][0] == y[0];
    }
  }
}
