# libcidr, modelled and proved in Dafny

This project models the algorithmic core of libcidr, a C library for IPv4 and IPv6 addresses and
CIDR prefixes, and proves what the library promises about it.

An address of `L` bytes (4 or 16) is read as a bit string of length `8L`, most significant bit
first, and a prefix as the bit string of its network part (`Key`). "Prefix `p` contains address `a`"
is then `Key(p) <= BitsOf(a)`, Dafny's prefix order on sequences; every byte-level test in the
library is proved equal to it. Prefixes carry the library's invariant that host bits are zero.

Four parts of the library are covered.

- **The LC-trie index** (`patricia.dfy`, `level.dfy`, `lookup.dfy`, `monotone.dfy`, `arena.dfy`,
  `dp.dfy`, `pack.dfy`, `index.dfy`, `table.dfy`). A table is tagged, sorted and built into a Patricia
  trie in a node arena; a dynamic programme picks branch factors; the trie is packed, with
  duplication, into one flat array; a lookup walks that array. Each layer is a method over an array,
  proved against the trie as a value. The packed array has exactly the least size any choice of
  branch factors allows, every cell is written once, and the walk stays inside the array and ends.
- **The bulk engine** (`radix.dfy`, `sortlaws.dfy`, `sort.dfy`, `order.dfy`, `contains.dfy`, `cover.dfy`,
  `merge.dfy`, `mask.dfy`, `aggregate.dfy`). The in-place radix sort, as a method and as the function of the array that
  it computes, what it does to equal keys, the tag repair that makes the descending order stable,
  first-match containment, and aggregation to a minimal, unique normal form.
- **Prefix arithmetic** (`arith.dfy`, `subnets.dfy`). Masks, containment, last address, overlap, host
  prefixes, the big-endian increment, and the subnet iterator as a class with its run.
- **Address and prefix text** (`dotted.dfy`, `hextext.dfy`, `parse6.dfy`, `print6.dfy`, `roundtrip.dfy`,
  `canonical.dfy`, `grammar.dfy`, `prefixtext.dfy`, `case.dfy`). The parsers accept an exactly stated language,
  the printer writes the canonical form of RFC 5952, and parsing undoes printing. Digits, numbers and the
  canonical form are also pinned by character codes and place values, independently of the functions that
  the code shares.

`bits.dfy`, `bytes.dfy` and `prefix.dfy` hold the shared vocabulary.

## Where the code does less than its comments say

The model follows the code. Each of these has a concrete input, and a condition that says when the
promise does hold.

- **Lookup is not longest-prefix match on every table** (ARCHITECTURE.md promises it). Level
  compression steps over Patricia nodes without keeping their prefix. A lookup is right for every
  address if and only if the built trie is `LossFree`, a decidable check on its slots
  (`LookupIsRightIffLossFree`); a table without nested prefixes always is (`UnnestedLookupIsRight`). On a
  single address it is right if and only if every slot on the walk that steps past a stored prefix falls
  back on a covering node or has a match behind it (`AnswerIsRightIff`).
  `NestedPrefixIsLost` is a six-entry table on which 10.0.0.1 is answered -1 although 0.0.0.0/1
  contains it, and `LookupLosesMatch` creates the index of that table and looks the address up.
- **The radix partition is not stable**, although the comment at `src/cidr_bulk.c:218-221` says so.
  `Reversed` shows it swapping two equal digits. `cidr_index_create` therefore does not always report the
  lowest index of a duplicated prefix, as ARCHITECTURE.md promises (`FirstTagIsNotLowest`: index 3 rather
  than 1). It does whenever entries that are out of order share their leading key bytes with no
  duplicates (`OrderlyIsLowest`), so on every table in network order (`SortedIsLowest`) and on every table
  without duplicates (`DistinctIsLowest`). On a table of two prefixes it does if and only if the table
  starts with the lower prefix, or its first entries, as many as the lower one has copies, are all the
  higher one (`TwoPrefixesIff`). Every table in which a prefix other than the last one is duplicated can be
  rearranged into a failing one: put it in network order and exchange the first copy of that prefix with
  the next later prefix (`ExchangedIsNotLowest`). For three or more prefixes an exact condition on the
  order of the entries is left open: the first element pushed into a bucket depends on which bucket's
  slots the swap loop has visited before, and no statement shorter than that run was found.
- **Lookup and first-match containment can disagree on a table sorted by CIDR_SORT_PFXLEN_DESC**, which
  ARCHITECTURE.md excludes. On such a table first match is exactly the first entry of the longest match
  (`FirstMatchIs`), and the two agree at every address if and only if the trie is loss-free and every
  prefix that is some address's longest match is recorded under its lowest index (`AgreeIff`); the index
  of a prefix that longer ones cover altogether does not matter. On a table without duplicates they agree
  if and only if the trie is loss-free (`DistinctAgreeIff`). `DescTableDisagrees` is a three-entry sorted
  table without nesting on which they answer 1 and 2; `LookupMissesFirst` creates its index and looks up.
- **A subnet run over the topmost block of a space stops after one subnet.** A run ends at the first step
  at which the stop test fires; it hands out all subnets if and only if the parent is /0 or ends below
  the top of the space (`RunIsCompleteIff`, `Drain`), that is, unless its network bits are all ones
  (`TopBlocks`). `TopHalfStopsEarly` iterates over 128.0.0.0/1.
- **The pure IPv6 parser lets one trailing colon pass after a group** (`src/cidr_addr.c:453-458`). The
  grammar `WellFormed` has that colon, and the parser accepts exactly that grammar (`Ipv6LanguageIff`); such
  a text is accepted exactly if it is without the colon (`TrailingColonIgnored`).

- **A failed `cidr_prefix_parse` does not unset the family of its output**, although the comment at
  `src/cidr_prefix.c:130-131` says so: every error path returns before `out` is written. After a call the
  promise holds if and only if the parse succeeds or the caller had unset the family before
  (`ParsePrefix`); `FailedParseKeepsFamily` parses the empty text.

The packed `skip` field is an 8-bit value that really wraps: a slot may resolve to a node above its
own depth. The model keeps the arithmetic modulo 256, and `CellFacts` shows that the walk then stops.

## Model

| member | source | states |
|---|---|---|
| `Patricia.HeldOnce` | src/cidr_index.c:244-364 | each distinct stored prefix sits at exactly one node, under one index |
| `Patricia.Canonical` | src/cidr_index.c:244-364 | the stored prefixes determine the whole Patricia trie, node by node |
| `Patricia.NodeBound` | src/cidr_index.c:850-862 | a trie with n storing nodes has at most 2n-1 nodes, so the 2n+2 arena is enough |
| `Patricia.StoredIsKeys` | src/cidr_index.c:244-364 | a trie has exactly one storing node for each different stored prefix |
| `Patricia.BestIsLongest` | src/cidr_index.c:244-364 | plain one-bit descent of the trie yields the longest stored prefix of every address, or none exactly when none contains it |
| `Arena.AddrBit` | src/cidr_index.c:111-125 | a tested bit is that bit of the address, and 0 past its end |
| `Arena.FindDivergence` | src/cidr_index.c:290-303 | true exactly when two longer prefixes of the range differ at the bit |
| `Arena.FindSplit` | src/cidr_index.c:273-311 | the chosen bit is the first at which a prefix of the range ends or two diverge; all agree below it |
| `Arena.SubtreeBuild` | src/cidr_index.c:244-364 | the range has a well-formed trie that stores each distinct prefix once under its first index; the build gives up exactly when that trie's nodes pass the limit, and otherwise at most 2n-1 reserved arena cells hold the trie in preorder and all other cells are untouched |
| `Arena.RangeTrie` | src/cidr_index.c:244-364 | every sorted range has such a trie, also when there is no room to build it |
| `BranchChoice.MatchCompressed` | src/cidr_index.c:417-431 | compares the slot pattern with the compressed bits and stops at the first mismatch, at the end of the pattern or of the path |
| `BranchChoice.FindSlotTarget` | src/cidr_index.c:388-453 | finds the arena cell of exactly the subtree that the slot pattern leads to, or none for a dead slot; always a proper descendant |
| `BranchChoice.PriceBranch` | src/cidr_index.c:513-533 | the cost of one branch factor, reported valid exactly when it fits the node limit |
| `BranchChoice.ChooseBranch` | src/cidr_index.c:504-546 | the cheapest factor, the larger one on a tie; a factor dropped for overflow never hides a cheaper one |
| `BranchChoice.DpCompute` | src/cidr_index.c:472-552 | succeeds exactly when the least packed size fits the limit, and then every cell of the subtree carries its least size and factor |
| `CostMonotone.ChildCheaper` | src/cidr_index.c:480-496 | a child never costs more than its parent, so a child that is over the limit rightly fails the whole programme |
| `LevelCompression.BestUpToIsMin` | src/cidr_index.c:504-546 | the chosen factor costs no more than any admissible one, and no larger factor costs the same |
| `LevelCompression.CostIsLeast` | src/cidr_index.c:472-552 | no assignment of branch factors, even one that treats duplicates differently, packs the trie into fewer nodes |
| `LevelCompression.CostIsAttained` | src/cidr_index.c:472-552 | the chosen factors give a packing of exactly the least size |
| `LevelCompression.CostBound` | src/cidr_index.c:472-552 | the least packed size is at most 2n-1 for n stored prefixes |
| `Packing.PackSubtree` | src/cidr_index.c:592-646 | packs a subtree at its cell and the next cost-1 free cells, returns the next free cell, writes each of those cells and no other |
| `Packing.PackSlots` | src/cidr_index.c:617-644 | the slot block and the regions below its slots are disjoint, in range and filled in order |
| `CompressedLookup.FoundSound` | src/cidr_index.c:964-1059 | whatever the walk records is a stored prefix that contains the address |
| `CompressedLookup.LossFreeIsExact` | src/cidr_index.c:964-1059 | on a loss-free trie the walk finds what one-bit descent finds, for every address |
| `CompressedLookup.LossIsObservable` | src/cidr_index.c:388-453 | on any other trie some address is answered differently from one-bit descent |
| `CompressedLookup.LookupIsLongestMatchIff` | src/cidr_index.c:964-1059 | the walk finds the longest match of every address if and only if no slot loses a stepped-over prefix |
| `CompressedLookup.WalkIsRightIff` | src/cidr_index.c:964-1059 | for every trie and address: the walk finds what one-bit descent finds if and only if every slot on its way that steps past a stored prefix falls back on a covering node or has a match for the address behind it |
| `CompressedLookup.NoNestingIsLossFree` | src/cidr_index.c:388-453 | a trie whose stored prefixes do not nest loses nothing |
| `PrefixIndex.TriePrefixMatches` | src/cidr_index.c:139-173 | true exactly when the prefix contains the address |
| `PrefixIndex.ResolveDuplicates` | src/cidr_index.c:717-753 | every entry keeps its prefix and takes the tag of the first entry of its run of equal prefixes |
| `PrefixIndex.SortTable` | src/cidr_index.c:838-848 | the copy is a valid table in network order, each sorted entry maps back to a caller's entry with the same prefix, no caller's prefix is lost, and each entry's index is the tag that the sort left in front of its run |
| `PrefixIndex.StoresTable` | src/cidr_index.c:838-866 | the built trie holds exactly the prefixes of the caller's array |
| `PrefixIndex.BuildPacked` | src/cidr_index.c:850-896 | fails exactly when the trie's nodes or its least packed size pass the limit; otherwise the array has exactly the least size, every cell is written, and the final size check never fails |
| `PrefixIndex.ExtractSlot` | src/cidr_index.c:1041-1050 | the extracted number is the value of the address bits at the position |
| `PrefixIndex.RecordMatch` | src/cidr_index.c:999-1018 | the recorded match is the node's own prefix when it contains the address, reported as a caller's index of that prefix |
| `PrefixIndex.Visit` | src/cidr_index.c:998-1054 | one round of the walk: in bounds, at a higher cell on a strictly smaller subtree, or stopping with the final answer |
| `PrefixIndex.CellFacts` | src/cidr_index.c:1020-1030 | a cell without branch bits, or whose bits run past the address, also by a wrapped skip, ends the walk; any other is an interior node at or below the bit position |
| `PrefixIndex.Walk` | src/cidr_index.c:989-1054 | the walk ends inside the array and reports what the trie's walk finds |
| `TableLookup.CheckFamilies` | src/cidr_index.c:976-981 | the first entry of another family decides the error |
| `TableLookup.Create` | src/cidr_index.c:766-896 | rejects empty, oversized and mixed input; any other table fails exactly when its trie or its least packed size passes the limit, never when 2n-1 for its n different prefixes fits; the index is valid, of the caller's table, and shares nothing with the caller's array |
| `TableLookup.PackedBound` | src/cidr_index.c:850-896 | neither the trie nor the packed array has more than 2n-1 nodes for n different prefixes |
| `TableLookup.CidrIndex.Lookup` | src/cidr_index.c:964-1059 | writes nothing unless every address has the index's family; then each slot gets the walk's answer on the caller's table, an index from the stored map |
| `TableLookup.LookupIsSound` | src/cidr_index.c:964-1059 | a non-negative answer is the index of a caller's prefix that contains the address |
| `TableLookup.RightAnswer` | src/cidr_index.c:964-1059 | an answer is a longest containing prefix of the caller's table exactly when the walk finds the longest stored key |
| `TableLookup.AnswerIsRightIff` | src/cidr_index.c:964-1059 | on one address, the answer is a longest match of the caller's table if and only if the walk loses nothing on its way |
| `TableLookup.LookupIsRightIffLossFree` | src/cidr_index.c:964-1059 | every lookup is longest-prefix match on the caller's table if and only if the trie is loss-free |
| `TableLookup.IndexIsRightIffLossFree` | src/cidr_index.c:964-1059 | for every valid index: lookup is longest-prefix match on its caller's table if and only if its trie is loss-free |
| `TableLookup.LossyAnswer` | src/cidr_index.c:410-450 | a trie that is not loss-free has an address whose answer is not a longest match |
| `TableLookup.UnnestedLookupIsRight` | src/cidr_index.c:964-1059 | on a table without nested prefixes every lookup is longest-prefix match |
| `TableLookup.FirstMatchIs` | ARCHITECTURE.md:990-997 | on a table in descending order, first match is exactly the first entry of the longest match |
| `TableLookup.LookupAgreesWithScan` | ARCHITECTURE.md:990-1004 | on such a table lookup and first match give the same index if the trie is loss-free and every prefix that is some address's longest match is recorded under its lowest index |
| `TableLookup.AgreeIff` | ARCHITECTURE.md:990-1004 | on such a table they give the same index for every address if and only if that is so |
| `TableLookup.DistinctAgreeIff` | ARCHITECTURE.md:990-1004 | on such a table without duplicates they agree for every address if and only if the trie is loss-free |
| `TableLookup.IndexAgreesIff` | ARCHITECTURE.md:990-1004 | both equivalences for every valid index and its own table |
| `TableLookup.ExposedIsFound` | src/cidr_index.c:964-1059 | on a loss-free trie, an address that has a table's prefix as its longest match is answered with that prefix |
| `Counterexamples.NestedPrefixIsLost` | src/cidr_index.c:388-453 | six prefixes for which the root takes two branch bits (cost 5) and 10.0.0.1 is answered -1 although 0.0.0.0/1 contains it |
| `Counterexamples.IndexedTrie` | src/cidr_index.c:766-896 | every index of that table holds the one trie on which the loss is shown |
| `Counterexamples.LookupLosesMatch` | src/cidr_index.c:766-1059 | creating an index of that table and looking 10.0.0.1 up answers -1 |
| `Counterexamples.DescRecorded` | src/cidr_index.c:704-753 | 5.0.0.0/16, 1.0.0.0/8, 1.0.0.0/8 records index 2 for both copies of 1.0.0.0/8 |
| `Counterexamples.DescTableDisagrees` | ARCHITECTURE.md:990-1004 | on that table, in descending order and without nesting, first match of 1.0.0.1 is 1 and lookup answers 2 |
| `Counterexamples.LookupMissesFirst` | ARCHITECTURE.md:990-1004 | creating an index of that table and looking 1.0.0.1 up answers 2 |
| `RadixSort.CountDigits` | src/cidr_bulk.c:193-196 | the histogram counts each digit of the segment |
| `RadixSort.BucketStarts` | src/cidr_bulk.c:198-208 | the buckets partition the segment in digit order, each as long as its count |
| `RadixSort.SwapLoop` | src/cidr_bulk.c:223-233 | the swap loop ends with every element in its digit's bucket, a rearrangement of the segment, and is a run of single turns |
| `RadixSort.SwapInto` | src/cidr_bulk.c:230-231 | the element goes to the next slot of its bucket, which lies inside the bucket; exactly two entries are exchanged |
| `RadixSort.TurnKeeps` | src/cidr_bulk.c:223-233 | every turn keeps the partition state and either advances or uses up room |
| `RadixSort.PartitionUnique` | src/cidr_bulk.c:193-233 | every run of the swap loop that comes to the end leaves the same array: the partition is a function |
| `RadixSort.PartedSettled` | src/cidr_bulk.c:193-233 | that function puts every element into its digit's bucket |
| `RadixSort.ResultSorted` | src/cidr_bulk.c:171-246 | the function that the whole sort computes gives a permutation of the segment in key order |
| `RadixSort.SortSegment` | src/cidr_bulk.c:171-246 | the segment becomes what that function makes of it: a permutation of itself in key order, and nothing outside moves |
| `SortLaws.OrderedParted` | src/cidr_bulk.c:193-233 | a segment in digit order is left alone by its partition |
| `SortLaws.OrderedStays` | src/cidr_bulk.c:171-246 | a segment in key order is left alone by the sort |
| `SortLaws.TwinsKeepOrder` | src/cidr_bulk.c:171-246 | equal keys keep their order when elements that are out of order share the digits up to that point with no equal keys |
| `SortLaws.SwappedBack` | src/cidr_bulk.c:171-246 | exchanging the first of a run of equal keys with the next later key is undone exactly: the run then starts with the element from behind it |
| `SortLaws.TwoDigitsParted` | src/cidr_bulk.c:193-233 | on a segment of two digits, which element comes first in each bucket |
| `BulkSort.SortNetwork` | src/cidr_bulk.c:362-373 | network order: address bytes, then length; the sort function's permutation of the input |
| `BulkSort.PrepareTags` | src/cidr_bulk.c:69-76 | every entry carries its index |
| `BulkSort.FindRun` | src/cidr_bulk.c:337-345 | the maximal run of equal keys from a position |
| `BulkSort.SortPfxlenDesc` | src/cidr_bulk.c:381-422 | the descending sort is a stable permutation of the input, the family restored everywhere |
| `SortOrders.StableDescIff` | src/cidr_bulk.c:109-126 | the descending order without its sort key: longer prefixes first, as long ones by ascending address number, equal ones in input order; exactly that |
| `SortOrders.NetworkSortedIff` | src/cidr_bulk.c:109-126 | the network order without its sort key: ascending address number, then shorter prefixes first; exactly that |
| `BulkSort.StableDescUnique` | src/cidr_bulk.c:381-422 | the input determines the result of the stable descending sort |
| `BulkContains.BulkPrefixContains` | src/cidr_bulk.c:558-589 | the mask-free test is containment |
| `BulkContains.ScanAll` | src/cidr_bulk.c:708-721 | each address gets the lowest index of a prefix that contains it, or -1 |
| `BulkContains.SortedScanIsLongestMatch` | src/cidr_bulk.c:629-724 | after the descending sort, first match is a longest containing prefix and, among equal ones, the caller's earliest |
| `Masking.SupernetInto` | src/cidr_bulk.c:795-825 | the parent prefix, one bit shorter, valid again |
| `Aggregation.DropDuplicates` | src/cidr_bulk.c:899-911 | strictly ascending, same cover |
| `Aggregation.DropCovered` | src/cidr_bulk.c:913-936 | disjoint and ascending, same cover |
| `Aggregation.SiblingsTest` | src/cidr_bulk.c:742-773 | on neighbours in order, the test holds exactly for the two halves of one parent |
| `Aggregation.MergePass` | src/cidr_bulk.c:944-965 | one pass keeps the cover, the order and disjointness, merges every longest sibling pair, and leaves a normal form when nothing merged |
| `Aggregation.MergeAll` | src/cidr_bulk.c:938-967 | at most W+1 passes, then a normal form with the same cover |
| `Aggregation.Aggregate` | src/cidr_bulk.c:857-971 | the output is a normal form of the input's family that covers exactly the input's addresses |
| `Aggregation.AggregateUnique` | src/cidr_bulk.c:857-971 | two inputs with the same address set aggregate to the same list |
| `Aggregation.AggregateIdempotent` | src/cidr_bulk.c:857-971 | aggregating an aggregate changes nothing |
| `Aggregation.AggregateMinimal` | src/cidr_bulk.c:857-971 | no list of prefixes with the same address set is shorter |
| `Cover.NormalFormIsMinimal` | src/cidr_bulk.c:828-843 | a normal form is no longer than any list with the same cover |
| `Cover.NormalFormIsUnique` | src/cidr_bulk.c:828-843 | normal forms with the same cover are equal |
| `UnstablePartition.Reversed` | src/cidr_bulk.c:210-233 | on leading digits 1, 0, 1, 0 the swap loop brings the two zeros out in reverse |
| `UnstablePartition.FirstTagIsNotLowest` | src/cidr_index.c:704-753 | the sort and duplicate steps give the second of two equal prefixes' index to both |
| `LowestIndex.OrderlyIsLowest` | src/cidr_index.c:704-753 | every prefix is recorded under its lowest index when entries out of order share their leading key bytes with no duplicates |
| `LowestIndex.SortedIsLowest` | src/cidr_index.c:704-753 | so it is on every table in network order, duplicates included |
| `LowestIndex.DistinctIsLowest` | src/cidr_index.c:704-753 | without duplicates the recorded index is the only, hence the lowest, one |
| `LowestIndex.ExchangedIsNotLowest` | src/cidr_index.c:704-753 | in every table in network order, exchanging the first of several copies of a prefix with the next later prefix makes the recorded index not the lowest |
| `LowestIndex.TwoPrefixesIff` | src/cidr_index.c:704-753 | on a table of two prefixes the lowest indices are recorded if and only if it starts with the lower one, or its first entries, as many as the lower one has copies, are all the higher one |
| `Masking.MaskApply` | src/cidr_prefix.c:51-84 | keeps the first pfxlen bits and clears the rest, in place |
| `PrefixArithmetic.MaskCompute` | src/cidr_prefix.c:379-412 | pfxlen ones, then zeros |
| `PrefixArithmetic.PrefixContains` | src/cidr_prefix.c:590-631 | the masked comparison is containment; errors for unset and different families |
| `PrefixArithmetic.PrefixLast` | src/cidr_prefix.c:548-582 | the network bits followed by ones |
| `PrefixArithmetic.ContainsIsRange` | src/cidr_prefix.c:521-582 | containment is first <= address <= last as numbers |
| `PrefixArithmetic.PrefixOverlaps` | src/cidr_prefix.c:640-676 | true exactly when the two prefixes share an address |
| `PrefixArithmetic.OverlapIsNesting` | src/cidr_prefix.c:640-676 | sharing an address is one containing the other's network address, and then the one contains all of the other |
| `PrefixArithmetic.PrefixFromHost` | src/cidr_prefix.c:257-288 | a valid prefix of that length that contains the address, exactly when there is one; else the range error |
| `PrefixArithmetic.HostPrefixUnique` | src/cidr_prefix.c:257-288 | there is only one valid prefix of a given length around an address |
| `PrefixArithmetic.UnmaskedIsNetwork` | src/cidr_prefix.c:204-223 | masking changes nothing exactly when the address is a network address |
| `SubnetIteration.BigEndianInc` | src/cidr_prefix.c:431-466 | adds 2^k modulo the address space, carries and wrap included |
| `SubnetIteration.Memcmp` | src/cidr_prefix.c:831-850 | the byte comparison is the comparison of the numbers |
| `SubnetIteration.SubnetIter.Init` | src/cidr_prefix.c:722-779 | starts a run over the parent exactly when the family is known and some valid prefix of the target length lies strictly inside it; else the range error |
| `SubnetIteration.SplitsIff` | src/cidr_prefix.c:736-740 | a prefix can be split to a length if and only if some valid prefix of its family and of that length lies strictly inside it |
| `SubnetIteration.SubnetIter.Next` | src/cidr_prefix.c:789-853 | hands out exactly the next subnet of the parent; once done, reports the end for ever and changes nothing |
| `SubnetIteration.SubnetNum` | src/cidr_prefix.c:789-853 | subnet i starts i steps of 2^(W-target) after the parent |
| `SubnetIteration.SubnetsAscend` | src/cidr_prefix.c:789-853 | the subnets are strictly ascending and share no address |
| `SubnetIteration.SubnetsCover` | src/cidr_prefix.c:789-853 | an address is in the parent exactly when it is in one of the 2^(target-pfxlen) subnets |
| `SubnetIteration.StopsAtLength` | src/cidr_prefix.c:828-850 | the run ends at the first step at which the stop test fires |
| `SubnetIteration.StopsWhen` | src/cidr_prefix.c:828-850 | the stop test fires at the last subnet, or at once if the limit has wrapped to zero |
| `SubnetIteration.RunIsCompleteIff` | src/cidr_prefix.c:771-772 | the first step at which the stop test fires is the last subnet if and only if the parent is /0 or ends below the top of the space, else it is the first |
| `SubnetIteration.TopBlocks` | src/cidr_prefix.c:771-772 | the parents that end at the top are those whose network bits are all ones |
| `SubnetIteration.Drain` | src/cidr_prefix.c:722-853 | calling next until the end collects the run's subnets in order: all of them if and only if the parent is /0 or ends below the top, else one |
| `Counterexamples.FailedParseKeepsFamily` | src/cidr_prefix.c:130-131 | parsing the empty text fails and leaves a set family set |
| `Counterexamples.TopHalfStopsEarly` | src/cidr_prefix.c:847-849 | initialising and draining an iterator over 128.0.0.0/1 yields one subnet at every target length |
| `DottedDecimal.DecOfStrict` | src/cidr_addr.c:562-580 | a digit string without a leading zero is the printed form of its value |
| `DottedDecimal.DecIsDecimal` | src/cidr_addr.c:562-580 | the decimal form is the shortest text of digits whose place-value sum of character codes is the number |
| `DottedDecimal.OctetFirstIff` | src/cidr_addr.c:80-101 | a text starts with an octet if and only if all its first digits are the shortest decimal form of a byte, by character codes |
| `DottedDecimal.DottedIsQuad` | src/cidr_addr.c:68-129 | the dotted text of four octets is their shortest decimal forms, by character codes, with dots between |
| `DottedDecimal.Uint8ToDec` | src/cidr_addr.c:562-580 | writes the shortest decimal form, at most three characters, whose place-value sum of character codes is the number |
| `DottedDecimal.ReadOctet` | src/cidr_addr.c:80-101 | accepts exactly a run of digits without a leading zero and of value at most 255, the place-value sum of its character codes |
| `DottedDecimal.ParseDotted` | src/cidr_addr.c:68-129 | accepts exactly the canonical dotted text of four octets, also by character codes, and returns those octets |
| `DottedDecimal.DottedIff` | src/cidr_addr.c:150-198 | the octet scan yields b exactly on the canonical text of b |
| `DottedDecimal.FormatIpv4` | src/cidr_addr.c:677-692 | the canonical text, by character codes too, and its terminator |
| `HexGroups.DigitOrder` | src/cidr_addr.c:20-43 | the digits 0 to f in order have the values 0 to 15, in both cases, and the printed ones are the lower-case ones |
| `HexGroups.HexNumByCodes` | src/cidr_addr.c:422-434 | the value of a hexadecimal string is the place-value sum of its digits by character codes, in either case |
| `HexGroups.HexIsText` | src/cidr_addr.c:586-608 | the printed form of a number is its shortest lower-case text, by character codes |
| `HexGroups.PureIff` | src/cidr_addr.c:403-480 | the pure form accepts exactly eight groups, or fewer with one `::` for at least one zero group, and one trailing colon after a group; with the values of those groups |
| `HexGroups.MixedIff` | src/cidr_addr.c:278-357 | the hexadecimal part of the mixed form accepts exactly six such groups, whose `::` may straddle its end, with their values |
| `AddressParser.ReadGroup` | src/cidr_addr.c:422-434 | reads the whole run of hex digits; up to four digits the value is their place-value sum by character codes, in either case |
| `AddressParser.ScanPure` | src/cidr_addr.c:403-463 | the array-based loop computes the group scan of the pure form |
| `AddressParser.ScanMixed` | src/cidr_addr.c:278-341 | the array-based loop computes the group scan of the mixed form |
| `AddressParser.BuildBytes` | src/cidr_addr.c:465-497 | checks the group count and writes groups before, zeros and groups after in network byte order |
| `AddressParser.ParseIpv6` | src/cidr_addr.c:253-501 | the whole parser is the text function whose language `Ipv6LanguageIff` states |
| `AddressParser.ParseAddress` | src/cidr_addr.c:529-554 | a colon selects IPv6; the family is unset on failure |
| `AddressPrinter.Uint16ToHex` | src/cidr_addr.c:586-608 | the shortest lower-case hexadecimal form by character codes, at most four characters |
| `AddressPrinter.FindZeroCompress` | src/cidr_addr.c:622-662 | the leftmost longest zero run of length at least two, or none exactly when there is no such run |
| `AddressPrinter.BestRunUnique` | src/cidr_addr.c:622-662 | there is only one leftmost longest run |
| `AddressPrinter.FormatIpv6` | src/cidr_addr.c:717-794 | writes the canonical text of sections 4 and 5 of RFC 5952 and its terminator within 46 characters |
| `CanonicalForm.CanonicalIff` | src/cidr_addr.c:717-794 | the canonical text is the one of sections 4 and 5 of RFC 5952, stated on the bytes and characters: the first of the longest runs of at least two zero groups as `::`, shortest lower-case groups, the mapped block with a dotted tail |
| `CanonicalForm.CanonicalCharacters` | src/cidr_addr.c:586-608 | a canonical text holds digits, lower-case a to f, colons and dots only, and no number in it has a leading zero |
| `AddressPrinter.CanonicalUnique` | src/cidr_addr.c:717-794 | an address has one canonical text |
| `TextLaws.Ipv6LanguageIff` | src/cidr_addr.c:253-501 | a text is accepted with bytes b exactly when it is a pure text that denotes b or a mixed text whose groups spell the IPv4-mapped block and whose tail gives the last four bytes |
| `TextLaws.AddressLanguageIff` | src/cidr_addr.c:529-554 | a text parses to an address exactly when it spells it, as dotted text or in one of the IPv6 forms |
| `TextLaws.TrailingColonIgnored` | src/cidr_addr.c:453-458 | one colon behind a hexadecimal text that ends with a digit changes nothing |
| `GrammarLaws.DoubleColonMeans` | src/cidr_addr.c:403-497 | groups around one `::` are accepted exactly when there are at most seven, as the address with their values around zeros |
| `GrammarLaws.EightGroupsMean` | src/cidr_addr.c:403-497 | groups without a `::` are accepted exactly when there are eight, as the address with their values |
| `GrammarLaws.DotMeansMapped` | src/cidr_addr.c:390-402 | an accepted IPv6 text with a dot stands for an IPv4-mapped address whose last four bytes are its dotted tail |
| `LetterCase.ParseIgnoresCase` | src/cidr_addr.c:20-43 | a text and its lower-case form parse alike |
| `LetterCase.PrefixIgnoresCase` | src/cidr_prefix.c:144-229 | so do a prefix text and its lower-case form, with the same outcome and result |
| `TextLaws.Ipv6RoundTrip` | src/cidr_addr.c:717-794 | parsing the canonical text of an IPv6 address gives it back |
| `TextLaws.Ipv4RoundTrip` | src/cidr_addr.c:677-692 | parsing the canonical text of an IPv4 address gives it back |
| `PrefixText.FormatAddress` | src/cidr_addr.c:816-838 | the canonical text of either family, or the error for an unset family or a short buffer |
| `PrefixText.AddressRoundTrip` | src/cidr_addr.c:529-554 | parsing the printed form of any address gives the same address |
| `PrefixText.AddressTextFits` | src/cidr_addr.c:816-838 | every canonical text fits 46 characters with its terminator |
| `PrefixText.PutPfxlen` | src/cidr_prefix.c:342-360 | the length's shortest decimal form, by character codes |
| `PrefixText.FormatPrefix` | src/cidr_prefix.c:310-363 | address text, slash, length, within 50 characters |
| `PrefixText.ParsePfxlen` | src/cidr_prefix.c:99-119 | accepts exactly the digit strings whose place-value sum of character codes is at most 128, and returns that sum |
| `PrefixText.ParsePrefix` | src/cidr_prefix.c:144-229 | computes the outcome and writes the result whose language `PrefixLanguageIff` and the three error lemmas state; a failed parse leaves the output as it was, so its family is unset exactly if it was before |
| `PrefixText.PrefixLanguageIff` | src/cidr_prefix.c:144-229 | a strict parse accepts exactly an address text, a slash and a decimal length that spell a valid prefix, and returns that prefix |
| `PrefixText.ParseErrorIff` | src/cidr_prefix.c:168-183 | a parse error is reported exactly when no address text stands in front of the last slash |
| `PrefixText.PfxlenErrorIff` | src/cidr_prefix.c:185-192 | a length error is reported exactly when an address stands in front of the last slash, and no decimal length that its family allows behind it |
| `PrefixText.HostBitsErrorIff` | src/cidr_prefix.c:194-223 | a host-bits error is reported exactly when such a length follows the address, and the address has a bit set past it |
| `PrefixText.GuardRejectsNothing` | src/cidr_prefix.c:172-174 | the 46-character guard never turns away an address that would parse |
| `PrefixText.ParsableFits` | src/cidr_prefix.c:172-174 | every accepted address text has at most 45 characters and no slash |
| `PrefixText.StrictIffFromHost` | src/cidr_prefix.c:204-223 | a strict parse succeeds exactly when the address equals the one `cidr_prefix_from_host` builds |
| `PrefixText.PrefixRoundTrip` | src/cidr_prefix.c:310-363 | parsing the printed form of any prefix gives it back |

## Left out

- OrderlyIsLowest: one direction; the exact tables of three or more different prefixes on which the lowest indices are recorded are open (`TwoPrefixesIff` settles two, `ExchangedIsNotLowest` gives failing tables for all sizes).
- SortSegment: the histogram, bucket starts and next pointers are sequences rather than fixed C arrays; the sorts are one method, generic over the digit function.
- SubtreeBuild: the sorted prefixes and the addresses are read-only sequences; only the node arena is an array.
- Create: the node limit (UINT32_MAX - 1 in the code) is a parameter below 2^32; the UINT32_MAX sentinels are `None`.
- ParseIpv6: a C string is a sequence of characters whose end stands for the terminating NUL; a wrapping `uint16_t` beyond four digits is kept although such a group is rejected.
- FormatPrefix: the position after the address is the formatter's own result rather than `strlen` of the buffer.
- NULL pointers, out-of-memory paths, `errs` arrays and the freeing of an index.
- `cidr_bulk_parse`, `cidr_addr_cmp`, `cidr_prefix_cmp`, `cidr_addr_to_v4`, `cidr_prefix_broadcast`, `cidr_prefix_mask`, `cidr_prefix_first`, `cidr_prefix_supernet`: facts of one branch, or the same byte loop as a modelled function.
- The family and order checks at the head of `cidr_bulk_sort`, `cidr_bulk_contains` and `cidr_bulk_aggregate`: the same loop as `CheckFamilies`.
- `src/cidr_classify.c`: a scan of a fixed table by containment.
- The Python extension, the benchmarks, and the debug assertions.
