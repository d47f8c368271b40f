/** The radix partition is not stable, so the first tag of a run need not be the lowest.

A concrete run of the swap loop, and the tag that duplicate resolution then picks. */
module UnstablePartition {
  import opened Bytes
  import opened Prefixes
  import opened RadixSort
  import opened SortLaws
  import opened BulkSort
  import opened PrefixIndex

  /** Bucket starts of four elements, two with digit 0 and two with digit 1. */
  function Starts(): (s: seq<nat>)
    ensures |s| == BUCKETS && s[0] == 0 && s[1] == 2
    ensures forall d :: 2 <= d < BUCKETS ==> s[d] == 4
  {
    seq(BUCKETS, d => if d == 0 then 0 else if d == 1 then 2 else 4)
  }

  /** Leading digits 1, 0, 1, 0. */
  ghost predicate Alternating(s: seq<Prefix>) {
    && |s| == 4 && NetworkDigit(s[0], 0) == 1 && NetworkDigit(s[1], 0) == 0
    && NetworkDigit(s[2], 0) == 1 && NetworkDigit(s[3], 0) == 0
  }

  lemma {:induction false} TallyNext(x: seq<Prefix>, k: nat, d: nat)
    requires k < |x|
    ensures Tally(x[..k + 1], 0, d, NetworkDigit)
      == Tally(x[..k], 0, d, NetworkDigit) + if NetworkDigit(x[k], 0) == d then 1 else 0
  {
    assert x[..k + 1][..k] == x[..k];
  }

  lemma StartsFit(s: seq<Prefix>, d: nat)
    requires Alternating(s) && d < BUCKETS
    ensures Fits(s, 0, Starts(), 4, d, 0, NetworkDigit)
  {
    TallyNext(s, 0, d);
    TallyNext(s, 1, d);
    TallyNext(s, 2, d);
    TallyNext(s, 3, d);
    assert s[..0] == [] && s[0..4] == s[..4];
  }

  lemma StartsBuckets()
    ensures Buckets(Starts(), 0, 4)
  {
  }

  /** Six turns of the swap loop bring the two elements of digit 0 out in reverse. */
  lemma Reversed(s: seq<Prefix>)
    requires Alternating(s)
    ensures Parted(s, 0, 4, 0, NetworkDigit) == [s[3], s[1], s[0], s[2]]
  {
    var starts := Starts();
    StartsBuckets();
    forall d: nat | d < BUCKETS
      ensures Fits(s, 0, starts, 4, d, 0, NetworkDigit)
    {
      StartsFit(s, d);
    }
    var s1, s2 := [s[2], s[1], s[0], s[3]], [s[3], s[1], s[0], s[2]];
    var n1, n2 := starts[1 := 3], starts[1 := 3][1 := 4];
    var st := SwapState(s, 0, starts);
    ReachesItself(st, starts, 4, 0, NetworkDigit);
    TurnSwaps(s, 0, starts, 1, starts, 4, 0, NetworkDigit);
    assert Swapped(s, 0, 2) == s1;
    ReachesNext(st, st, SwapState(s1, 0, n1), starts, 4, 0, NetworkDigit);
    TurnSwaps(s1, 0, n1, 1, starts, 4, 0, NetworkDigit);
    assert Swapped(s1, 0, 3) == s2;
    ReachesNext(st, SwapState(s1, 0, n1), SwapState(s2, 0, n2), starts, 4, 0, NetworkDigit);
    StepsOver(st, s2, 0, 4, n2, starts, 4, 0, NetworkDigit);
    ReachesEnd(s, s2, n2, 0, 4, starts, 0, NetworkDigit);
  }

  /** `a`.0.0.0/8. */
  function Eight(a: Byte, tag: nat): Prefix {
    Prefix(tag, [a, 0, 0, 0], 8)
  }

  /** 1.0.0.0/8, 0.0.0.0/8, 1.0.0.0/8, 0.0.0.0/8, tagged with their indices. */
  const TAGGED: seq<Prefix> := [Eight(1, 0), Eight(0, 1), Eight(1, 2), Eight(0, 3)]

  lemma TaggedBelow()
    ensures Alternating(TAGGED) && DecidedAt(TAGGED, 0, 4, 0, 0, 5, NetworkDigit)
  {
    assert TAGGED[0..4] == TAGGED;
    forall e, f | e in TAGGED && f in TAGGED && NetworkDigit(e, 0) == NetworkDigit(f, 0)
      ensures SameDigits(e, f, 0, 5, NetworkDigit)
    {
      assert e.addr == f.addr && e.pfxlen == f.pfxlen;
    }
  }

  /** The sort and duplicate steps of `cidr_index_create` on that table: 0.0.0.0/8 gets index 3, not
      the lower index 1. */
  method FirstTagIsNotLowest() returns (origMap: seq<nat>)
    ensures origMap == [3, 3, 0, 0]
  {
    var copy := new Prefix[4];
    copy[0], copy[1], copy[2], copy[3] := Eight(1, AF_INET), Eight(0, AF_INET), Eight(1, AF_INET), Eight(0, AF_INET);
    PrepareTags(copy);
    assert copy[..] == TAGGED;
    SortNetwork(copy, 4);
    ghost var sorted := copy[..];
    TaggedBelow();
    Reversed(TAGGED);
    SortIsPartition(TAGGED, 0, 4, 0, 0, 5, NetworkDigit);
    assert sorted == [Eight(0, 3), Eight(0, 1), Eight(1, 0), Eight(1, 2)];
    ResolveDuplicates(copy);
    FrontTags(sorted, copy[..]);
    origMap := [copy[0].family, copy[1].family, copy[2].family, copy[3].family];
  }

  lemma FrontTags(s: seq<Prefix>, t: seq<Prefix>)
    requires s == [Eight(0, 3), Eight(0, 1), Eight(1, 0), Eight(1, 2)] && Retagged(s, t)
    ensures t[0].family == t[1].family == 3 && t[2].family == t[3].family == 0
  {
    assert RetaggedAt(s, t, 0) && RetaggedAt(s, t, 1) && RetaggedAt(s, t, 2) && RetaggedAt(s, t, 3);
    assert !SamePrefix(s[1], s[2]) && SamePrefix(s[0], s[1]) && SamePrefix(s[2], s[3]);
  }
}
