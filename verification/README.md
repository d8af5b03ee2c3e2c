# Verified models of five PostgreSQL contrib modules

This project models the index and checker logic of five contrib modules and proves what that logic is
there for:

* **btree_gist**, variable-length keys (`GistVar*`, `ByteStrings`): inner keys are pairs of bounds cut to a
  common prefix plus two bytes, and the search makes up for the cut. The search of a tree answers every
  query like a scan of all rows exactly if each inner key is prune-safe for the rows below it. Keys made by
  unions and by splits that shadow no entry always are. One split loses a row exactly if an entry is leaky.
* **bloom** (`Bloom*`, `Words`): the signatures never give a false negative; page compaction, insertion,
  vacuum, scan and build as sequential code; the interleaved protocol of inserts, vacuums and scans as a
  state machine with safety over all runs from a built index; that a process which nothing interrupts does
  there what the sequential code does; and, put together, that a row which satisfies the scan keys is in the
  answer.
* **cube** (`Cube*`): boxes of mixed dimension under zero-padding; index consistency, Guttman's split,
  the comparison, the distances behind nearest-neighbour search, and `cube_enlarge`.
* **amcheck** (`Nbt*`, `Heap*`, `Pigeonhole`): what a B-tree level or a heap page looks like when the checker
  raised nothing, and for heap pages exactly then: link walks, item order across pages, uniqueness along a level, the lockstep of parent and
  child level and the order it imposes, update chains, TOAST chunks, transaction id widening.
* **btree_gin** (`GinScan`): a range query as start key plus callback equals plain filtering.
* `Filtering` and `Optional` are shared.

`dafny verify dfyconfig.toml` checks everything. Data that the source updates in place is held in classes
and arrays, and each such method is proved against a function or predicate on values; the theorems are
about those.

## Where the code does less than one would expect

Each of these has a theorem that says exactly when the property holds. A lemma with a concrete input goes
with it, except for `g_cube_union` and the toast pointer, where the input is the one named.

* `gbt_var_picksplit` cuts both sides at the longer of the two common prefixes. On an inner page this can
  lose a row (`InnerSplitCanLoseARow`); it does so for some row exactly if an entry is `Leaky`
  (`SplitKeepsRowsExactly`). Leaf pages are safe (`LeafSplitIsSafe`).
* `mySrand` maps the two seeds 0xFFFFFFFF and 0x80000001 to zero, where the generator stays and draws the
  bit number -1 (`BitsInRangeExactly`). The scan still misses no row (`NoFalseNegatives`).
* `cube <@` through the index misses cubes with fewer dimensions than the query, if the query stays away
  from zero in an excess dimension (`ContainedByLosesARow`, `ContainedByExactly`).
* `cube_cmp_v0` is transitive among dimensions l <= m <= n exactly if l = m, or l = 0 and m = n
  (`TransitiveExactly`).
* `g_cube_union` of a single entry returns no key (`UnionEntries`).
* The walk along a B-tree level can run forever, exactly if right links over passable pages lead from the
  leftmost block to a half-dead page and back to it over another page (`ForeverIsLasso`,
  `HalfDeadCycleRunsForever`).
* An accepted B-tree level is sorted exactly if it is sorted across the gaps that live pages without real
  items leave (`AcceptedLevelIsSorted`, `EmptyPageHidesDisorder`). The level above closes the gaps between
  children of one page. With it accepted too, the level is sorted exactly if it is so across the other gaps and
  those next to a split under way (`ChildLevelSorted`); an index that is accepted in full, without any split,
  can still have key 4 before key 1 (`CousinsHideDisorder`). Below a single page, with no page excused from
  having a downlink, there are no other gaps (`SortedBelowOnePage`).
* A downlink to block 0 in a first item looks like the call that ends a level. When all calls are accepted, the
  child level is in lockstep exactly if there is no such downlink (`LockstepExactly`,
  `ZeroDownlinkIsAccepted`).
* Right links that are invalid make the lockstep start anew. Its walk is one chain exactly if no page with a
  downlink but the last has one (`PlainExactly`, `RestartIsAccepted`); it is so whenever the child level was
  walked to its end too (`LockstepIsChildWalk`).
* A page is checked for uniqueness with the first item of its right sibling only. On a level whose pages all
  pass, two visible entries share a key exactly if they do across a border where the sibling is not looked at
  or its first item has no visible entry (`UniqueLevelExactly`, `InvisibleEntryHidesDuplicate`).
* The update-chain passes accept heap-only tuples that are each other's next version (`CycleIsAccepted`); on
  a clean page a chain has a root exactly if it is not a cycle (`RootedExactly`).
* A toast pointer of size 0 is checked as if the size were 2^32 (`AcceptedIsCut`, `ZeroSizeIsNeverShort`).
* Along an update chain an aborted version can be followed by a committed one, but only with a version of the
  checker's own transaction in between (`OwnVersionBetween`, `UnsettledHidesAbort`).
* A transaction id cache that is far enough behind rejects a genuine id, or accepts a future one, exactly if
  its own range takes the id for another one (`AcceptedExactly`, `StaleCacheRaisesAlarm`,
  `FutureReportedExactly`, `StaleCacheHidesFuture`). Both inputs need the next id to run 2^31 past the cached
  range. A server does not get there while the check holds its snapshot, and short of that neither happens
  (`NearCacheAccepts`, `NearCacheReportsFuture`).

## Model

| member | source | states |
|---|---|---|
| ByteStrings.CmpSign | src/backend/utils/adt/bytea.c:959-978 | negative exactly if the first string is a proper prefix or has the smaller byte at the first difference, positive exactly the other way round |
| ByteStrings.Sandwich | src/backend/utils/adt/bytea.c:959-978 | the byte order is transitive, and what lies between two strings shares their common prefix |
| ByteStrings.PrefixBetween | contrib/btree_gist/btree_utils_var.c:179-194 | everything between a prefix and its extension extends the prefix |
| GistVarKey.LeafTestIsExact | contrib/btree_gist/btree_utils_var.c:564-622 | on a leaf entry the consistency test is the operator, for all six strategies |
| GistVarKey.NeverLostExactly | contrib/btree_gist/btree_utils_var.c:564-622 | an inner key passes every query that a row satisfies, exactly if the row is prune-safe for the key |
| GistVarKey.AcceptsExactly | contrib/btree_gist/btree_utils_var.c:564-622 | the test on an inner key accepts exactly if some prune-safe row satisfies the query, or in one of four idle cases; so it rejects exactly when neither holds, for all six strategies |
| GistVarKey.AdmitsIsPruneSafe | contrib/btree_gist/btree_utils_var.c:201-206 | being admitted (between the bounds or matching a bound as prefix) implies prune-safe |
| GistVarKey.TruncateCovers | contrib/btree_gist/btree_utils_var.c:214-238 | cutting beyond the common prefix keeps order, common prefix and the rows covered |
| GistVarKey.UnionAllBounds | contrib/btree_gist/btree_utils_var.c:243-287 | the folded union bounds every operand |
| GistVarKey.UnionAllAttained | contrib/btree_gist/btree_utils_var.c:243-287 | each bound of the union is a bound of an operand |
| GistVarKey.UnionAdmits | contrib/btree_gist/btree_utils_var.c:332-367 | what an operand admits, the truncated union admits |
| GistVarKey.UnionKeyExactly | contrib/btree_gist/btree_utils_var.c:332-367 | each bound of the union is the full bound or its first bytes up to two past the common prefix, and never longer |
| GistVarSplit.CommonPrefixLength | contrib/btree_gist/btree_utils_var.c:123-172 | the loop computes the longest common prefix of the two bounds |
| GistVarSplit.FoldKeys | contrib/btree_gist/btree_utils_var.c:332-367 | the loop over the entries is the fold of the binary union |
| GistVarSplit.Union | contrib/btree_gist/btree_utils_var.c:332-367 | the result is the folded union cut to common prefix plus two bytes |
| GistVarSplit.DealOut | contrib/btree_gist/btree_utils_var.c:468-557 | the first half of the sorted offsets goes left, the rest right |
| GistVarSplit.PickSplit | contrib/btree_gist/btree_utils_var.c:468-557 | each side gets its half and the union of its keys cut at the longer common prefix plus two bytes; neither side is empty |
| GistVarSplit.TruncateBoth | contrib/btree_gist/btree_utils_var.c:535-557 | both datums are cut at the same length, one more than the common prefix of one of them and beyond the common prefix of both |
| GistVarSplit.SplitCut | contrib/btree_gist/btree_utils_var.c:535-557 | the cut is past both common prefixes, and one past one of them |
| GistVarSplit.UnshadowedAdmits | contrib/btree_gist/btree_utils_var.c:468-557 | a side keeps a row of one of its entries unless the entry is shadowed and the row extends its upper bound |
| GistVarSplit.LeakyLoses | contrib/btree_gist/btree_utils_var.c:468-557 | a leaky entry has a row that some query finds through the entry and not through the side |
| GistVarSplit.SplitKeepsRowsExactly | contrib/btree_gist/btree_utils_var.c:468-557 | a side keeps every row its entries could hold exactly if no entry is leaky |
| GistVarSplit.LeafSplitIsSafe | contrib/btree_gist/btree_utils_var.c:468-557 | splitting a page of leaf entries never loses a row |
| GistVarSplit.InnerSplitCanLoseARow | contrib/btree_gist/btree_utils_var.c:468-557 | four concrete inner keys whose split hides the row 010109 from an equality search |
| GistVarSplit.WitnessKeysAreUnions | contrib/btree_gist/btree_utils_var.c:332-367 | each of those four keys is the union of two rows |
| GistVarTree.KeyAdmitsItsRows | contrib/btree_gist/btree_utils_var.c:332-367 | a key made by any nesting of unions and non-shadowing splits admits every row that went into it |
| GistVarTree.LeafPageSplitIsFormed | contrib/btree_gist/btree_utils_var.c:468-557 | keys from splits of leaf pages are among those |
| GistVarTree.SearchExactly | contrib/btree_gist/btree_utils_var.c:564-622 | the search of a tree answers every query like a filter over its rows, in tree order, exactly if every inner key is prune-safe for every row below it |
| GistVarTree.UnsoundMisses | contrib/btree_gist/btree_utils_var.c:564-622 | otherwise there is a query for which it returns fewer rows |
| GistVarTree.SearchIsExact | contrib/btree_gist/btree_utils_var.c:564-622 | the search of a tree with keys made by unions and non-shadowing splits returns exactly the rows satisfying the operator |
| GistVarLayout.LittleEndianRoundTrip | contrib/btree_gist/btree_utils_var.c:54-101 | a size written byte by byte is read back |
| GistVarLayout.SizeRoundTrip | contrib/btree_gist/btree_utils_var.c:54-101 | SET_VARSIZE and VARSIZE agree wherever the varlena lies in the buffer |
| GistVarLayout.IntAlignLeast | contrib/btree_gist/btree_utils_var.c:85-101 | INTALIGN gives the least multiple of 4 that is not less |
| GistVarLayout.SecondStart | contrib/btree_gist/btree_utils_var.c:85-101 | the second varlena of an inner key starts at the first multiple of 4 not before the end of the first |
| GistVarLayout.LeafKeyRoundTrip | contrib/btree_gist/btree_utils_var.c:54-83 | a leaf key reads back as its one value, and as a leaf |
| GistVarLayout.KeyCopyRoundTrip | contrib/btree_gist/btree_utils_var.c:54-101 | an inner key reads back as its two bounds and never as a leaf |
| GistVarLayout.NodeTruncateRefines | contrib/btree_gist/btree_utils_var.c:214-238 | truncating the stored bytes is truncating the two bounds, whenever the result is small enough to be allocated |
| GistVarLayout.TruncatedBytes | contrib/btree_gist/btree_utils_var.c:214-238 | the bytes laid out are those of a key copy of the shorter bounds |
| GistVarLayout.InnerCutFits | contrib/btree_gist/btree_utils_var.c:214-238 | for an inner key it always is |
| Words.AndContains | contrib/bloom/blscan.c:162-170 | (a & q) = q says that every bit of q is set in a |
| Words.XorBit | contrib/bloom/blutils.c:284-285 | a bit of the exclusive or is set exactly if the two operands differ in it |
| BloomRandom.AdvanceIsLehmer | contrib/bloom/blutils.c:228-252 | away from zero, one step is x := 16807 x mod 2^31 - 1, within 32 bits and never zero |
| BloomRandom.StateIsPower | contrib/bloom/blutils.c:228-252 | after n steps the state is 16807^n times the start, modulo 2^31 - 1 |
| BloomRandom.SeededRange | contrib/bloom/blutils.c:255-260 | seeding stays in range and gives zero for exactly two seeds |
| BloomRandom.SeededExactly | contrib/bloom/blutils.c:255-260 | a seed below 2^31 gives the seed modulo 2^31 - 2, plus one; others count back from one |
| BloomRandom.StaysInRange | contrib/bloom/blutils.c:228-252 | from a non-zero state the generator stays in [1, 2^31 - 2] for ever |
| BloomRandom.BitsInRangeExactly | contrib/bloom/blutils.c:225-293 | all bit numbers drawn are positions of the signature exactly unless the seed is one of the two |
| BloomRandom.BitNumberExactly | contrib/bloom/blutils.c:266-293 | each bit number drawn, as a formula in the seed and how many were drawn before |
| BloomRandom.Generator.Srand | contrib/bloom/blutils.c:255-260 | the state becomes the seeded value |
| BloomRandom.Generator.Rand | contrib/bloom/blutils.c:228-252 | the state advances by one Lehmer step and the result is one less; from zero it stays at zero and gives -1 |
| BloomSignature.MatchesIsContainment | contrib/bloom/blscan.c:162-170 | the word-wise test holds exactly if the query's bits are among the tuple's |
| BloomSignature.SignValue | contrib/bloom/blutils.c:266-293 | for every hash value, exactly the bits of the value are added to the signature; `ValueBitsExactly` says which those are |
| BloomSignature.SeedBits | contrib/bloom/blutils.c:266-285 | the seed has exactly the bits in which the hash and the first number of the column's own sequence differ |
| BloomSignature.SeedsDiffer | contrib/bloom/blutils.c:266-285 | different hashes of a column have different seeds |
| BloomSignature.ValueBitsExactly | contrib/bloom/blutils.c:284-293 | a bit belongs to a value exactly if it is one of the first positions, as many as the column asks for, drawn from its seed |
| BloomSignature.HashOneSetsBit55 | contrib/bloom/blutils.c:266-293 | in an 80-bit signature with one bit per value, hash 1 in the first column sets bit 55 and no other |
| BloomSignature.SetBit | contrib/bloom/blutils.c:27-30 | the one bit is added; for bit number -1, whatever the shift yields is added to the first word |
| BloomSignature.FormTuple | contrib/bloom/blutils.c:299-317 | the signature has exactly the bits of the non-null columns |
| BloomSignature.RowBitsExactly | contrib/bloom/blutils.c:299-317 | a bit belongs to a row exactly if it is one of a column that is not null |
| BloomSignature.FormQuery | contrib/bloom/blscan.c:88-114 | the scan signature has exactly the bits of the keys; a null key finds nothing |
| BloomSignature.KeyBitsExactly | contrib/bloom/blscan.c:88-114 | a bit belongs to the scan signature exactly if it is one of a key's value, for the key's column |
| BloomSignature.TestTuple | contrib/bloom/blscan.c:162-170 | the inner loop decides the word-wise test |
| BloomSignature.NoFalseNegatives | contrib/bloom/blscan.c:88-170 | a row that satisfies all keys passes the test, for every hash function that respects equality |
| BloomPage.EmptyPageHasRoom | contrib/bloom/bloom.h:149-152 | an empty page takes a tuple of any permitted signature length |
| BloomPage.SpaceIsProduct | contrib/bloom/bloom.h:149-152 | the space counted tuple by tuple is the number of tuples times their size |
| BloomPage.RoomExactly | contrib/bloom/bloom.h:149-152 | one more tuple fits exactly if all of them fit into the 8160 bytes between header and opaque data |
| BloomPage.SurvivorsInOrder | contrib/bloom/blvacuum.c:99-155 | survivors are the items at an increasing choice of positions |
| BloomPage.VacuumedExactly | contrib/bloom/blvacuum.c:99-155 | a page in use keeps exactly the tuples that are not dead, is touched only if one is, and is marked deleted exactly if all are |
| BloomPage.PageCopy.AddItem | contrib/bloom/blutils.c:324-351 | the tuple is appended exactly if it fits, and nothing else changes |
| BloomPage.PageCopy.Compact | contrib/bloom/blvacuum.c:99-155 | two cursors in place leave exactly the survivors, in order |
| BloomIndex.Index.constructor | contrib/bloom/blutils.c:452-475 | a metapage alone, with an empty list |
| BloomIndex.Index.NewBuffer | contrib/bloom/blutils.c:359-399 | the first usable page the free space map offers, the next block exactly if there is none; no tuple is touched |
| BloomIndex.FreeBlockIsFirst | contrib/bloom/blutils.c:359-399 | the page chosen is that of the first hint that names a free one, or the next block |
| BloomIndex.Index.Insert | contrib/bloom/blinsert.c:175-342 | the tuple is appended to the first listed page, from the start of the list, that has room for it, and the list then starts there; if there is none, it is alone on a free or new page, and that page becomes the list; all other tuples stay |
| BloomIndex.Index.InsertSlowly | contrib/bloom/blinsert.c:246-342 | the same, from a given index of the list on |
| BloomIndex.Index.TryListed | contrib/bloom/blinsert.c:267-304 | the loop stops at the first listed page with room, having appended the tuple, or at the end of the list, having changed nothing |
| BloomIndex.Index.VacuumPage | contrib/bloom/blvacuum.c:76-155 | one page keeps its survivors, and is marked deleted when nothing is left |
| BloomIndex.Index.BulkDelete | contrib/bloom/blvacuum.c:31-180 | exactly the dead entries go, the others keep their order, and the list becomes the pages with room |
| BloomIndex.RoomyExactly | contrib/bloom/blvacuum.c:121-155 | the list is ascending, names only kept pages with tuples and room for one more, and leaves such a page out only when it is full of earlier ones |
| BloomIndex.Index.GetBitmap | contrib/bloom/blscan.c:77-190 | the TIDs of exactly the tuples whose signature contains the query's |
| BloomIndex.VacuumedPages | contrib/bloom/blvacuum.c:76-176 | vacuuming every page leaves the survivors of the whole index, in order |
| BloomIndex.Build | contrib/bloom/blinsert.c:121-159 | the built index holds the tuples of the heap scan, in scan order, on pages in use of which all but the last are full, with an empty list |
| BloomIndex.BuildRow | contrib/bloom/blinsert.c:75-116 | one more row is on the pages or the cached page, behind all others |
| BloomIndex.Flush | contrib/bloom/blinsert.c:48-59 | the cached page is appended to the index |
| BloomSafety.StepKeepsInv | contrib/bloom/blinsert.c:207-342 | every step of any insert, vacuum or scan keeps the protocol invariant |
| BloomSafety.LockMetaKeeps | contrib/bloom/blinsert.c:246-290 | re-reading the metapage list under lock keeps it |
| BloomSafety.InitIsInv | contrib/bloom/blinsert.c:121-159 | a built index, whatever rows it holds, satisfies the protocol invariant |
| BloomSafety.VacuumPageKeeps | contrib/bloom/blvacuum.c:76-155 | vacuuming one page among concurrent inserts and scans keeps it |
| BloomSafety.StoredExactlyOnce | contrib/bloom/blinsert.c:207-342 | in every state reachable from a built index each live row is stored exactly once, on one page that is not deleted; the metapage list stays within bounds |
| BloomSafety.VacuumRemovesAll | contrib/bloom/blvacuum.c:76-176 | a vacuum that reaches its end has left none of its TIDs in the index |
| BloomOrder.StepKeepsOrder | contrib/bloom/blvacuum.c:99-155 | no step of any process makes one entry of a page overtake another |
| BloomOrder.OrderKept | contrib/bloom/blvacuum.c:99-155 | in every run two entries of a page stay on it in the same order for as long as both are stored |
| BloomSafety.ScanMissesNothing | contrib/bloom/blscan.c:143-183 | a scan that reaches its end has emitted every row that was live when it began, was not killed since, and whose signature contains the query |
| BloomSafety.ScanEmitsOnlyMatches | contrib/bloom/blscan.c:143-183 | a TID that a scan among other processes has emitted was stored, when the scan looked at some page, with a signature that contains the query |
| BloomAlone.InsertAlone | contrib/bloom/blinsert.c:175-342 | the steps of an insert that nothing comes between leave the pages and the list that the sequential insert leaves |
| BloomAlone.InsertFinishes | contrib/bloom/blinsert.c:175-342 | whenever no one else holds the metapage, an insert can go through to its end, in a bounded number of steps |
| BloomAlone.VacuumAlone | contrib/bloom/blvacuum.c:31-180 | the steps of a vacuum that nothing comes between vacuum every page and leave the list that the sequential one leaves |
| BloomAlone.ScanAlone | contrib/bloom/blscan.c:77-190 | the steps of a scan that nothing comes between emit what the sequential scan returns |
| BloomAnswers.GetBitmap | contrib/bloom/blscan.c:77-190 | from keys to TIDs: nothing for a null key, otherwise the TIDs whose signature has all bits of the keys, and among them every indexed row that satisfies the keys |
| BloomAnswers.HitsByBits | contrib/bloom/blscan.c:143-183 | the TIDs emitted are those of the tuples whose signature has all bits of the keys |
| BloomAnswers.SatisfyingRowIsEmitted | contrib/bloom/blscan.c:77-190 | among other processes, a scan for keys that reaches its end has emitted every row that satisfies them, was live when it began and was not killed since |
| BloomAnswers.BuildIsInit | contrib/bloom/blinsert.c:121-159 | what the build leaves for rows with distinct TIDs is a state that runs start from, with these rows live |
| CubeBoxes.OverlapIsCommonPoint | contrib/cube/cube.c:1201-1236 | two cubes overlap exactly if they share a point, whatever their dimensions |
| CubeBoxes.CoversIsSubset | contrib/cube/cube.c:752-810 | covering is having enough dimensions and containing every point |
| CubeBoxes.ContainsIsSubset | contrib/cube/cube.c:1131-1166 | contains() is inclusion of points on the dimensions of the second cube only |
| CubeBoxes.UnionIsLeast | contrib/cube/cube.c:752-810 | the union covers both cubes, and whatever covers both covers it |
| CubeBoxes.IntersectionIsCommonPoints | contrib/cube/cube.c:827-900 | of overlapping cubes, the intersection holds exactly the common points |
| CubeBoxes.Finish | contrib/cube/cube.c:1538-1558 | the point form is used exactly if all corners coincide, with the same coordinates |
| CubeBoxes.Union | contrib/cube/cube.c:752-810 | the two loops compute the hull, dimension by dimension, absent ones being zero |
| CubeBoxes.Inter | contrib/cube/cube.c:827-900 | the two loops compute the meet, and for disjoint cubes the box between them |
| CubeBoxes.Size | contrib/cube/cube.c:914-937 | the size is the product of the side lengths, the shortcut for points included |
| CubeBoxes.StretchedVolume | contrib/cube/cube.c:914-937 | stretching one side by c multiplies the volume by c |
| CubeBoxes.UnitVolume | contrib/cube/cube.c:914-937 | a box with sides of length 1 has volume 1, the box without dimensions volume 0 |
| CubeBoxes.ContainsTest | contrib/cube/cube.c:1131-1166 | the loops with early return decide containment |
| CubeBoxes.OverlapTest | contrib/cube/cube.c:1201-1236 | the loops with early return decide overlap |
| CubeOrder.CompareRange | contrib/cube/cube.c:943-1021 | lower bounds first, then upper bounds, as a lexicographic comparison |
| CubeOrder.Compare | contrib/cube/cube.c:943-1021 | common dimensions, then the others against zero, then the number of dimensions |
| CubeOrder.EqualIsSameBox | contrib/cube/cube.c:943-1021 | cubes compare equal exactly if dimensions and bounds agree |
| CubeOrder.CmpAntisymmetric | contrib/cube/cube.c:943-1021 | swapping the arguments negates the result |
| CubeOrder.CmpAtLow | contrib/cube/cube.c:943-1021 | of the common dimensions, the first lower bounds that differ decide |
| CubeOrder.CmpAtHigh | contrib/cube/cube.c:943-1021 | if there are none, the first upper bounds that differ |
| CubeOrder.CmpBeyond | contrib/cube/cube.c:943-1021 | where all common bounds agree, the cube with more dimensions is the greater one, exactly unless its first lower bound that is not zero is negative |
| CubeOrder.CircleAboveTwo | contrib/cube/cube.c:943-1021 | for 0 < l < m <= n, three cubes of these dimensions that each precede the next, in a circle |
| CubeOrder.CircleAboveNone | contrib/cube/cube.c:943-1021 | for 0 < m < n, such a circle with a cube of dimension 0 |
| CubeOrder.TransitiveExactly | contrib/cube/cube.c:943-1021 | among dimensions l <= m <= n the comparison is transitive exactly if l = m, or l = 0 and m = n |
| CubeIndex.UnionEntries | contrib/cube/cube.c:430-454 | no key for one entry, otherwise the least box that covers all entries |
| CubeIndex.Consistent | contrib/cube/cube.c:395-422 | leaf and inner tests dispatch to the operators by strategy number, false for unknown ones |
| CubeIndex.KeyAdmits | contrib/cube/cube.c:683-737 | a key covering a cube that satisfies the query passes the inner test, contained-by under its condition |
| CubeIndex.AcceptsExactly | contrib/cube/cube.c:718-737 | the test on an inner key accepts exactly if some box below it is sought by the query, or, for equality, if it contains the query without covering it; so it rejects exactly otherwise, for every strategy |
| CubeIndex.ContainedByExactly | contrib/cube/cube.c:683-737 | for contained-by, every covering key passes exactly if the query reaches zero in its excess dimensions |
| CubeIndex.ContainedByLosesARow | contrib/cube/cube.c:683-737 | a one-row tree whose row contained-by accepts and the search does not return |
| CubeIndex.UnionKeyed | contrib/cube/cube.c:430-454 | a page whose key covers its entries, as a union does, is keyed |
| CubeIndex.KeyCoversRows | contrib/cube/cube.c:430-454 | a key covers all rows below it, at any depth |
| CubeIndex.SearchIsExact | contrib/cube/cube.c:395-422 | the search of a keyed tree returns exactly the rows the operator accepts |
| CubeSplit.PickSeeds | contrib/cube/cube.c:515-582 | the seeds are the first pair of greatest waste among all entries but the last |
| CubeSplit.PairWaste | contrib/cube/cube.c:555-566 | waste is the size of the union less that of the intersection |
| CubeSplit.WasteExactly | contrib/cube/cube.c:555-566 | waste is the volume of the least box over the two entries less that of their intersection |
| CubeSplit.Partitioned | contrib/cube/cube.c:598-652 | each offset is in exactly one of two ascending lists, each seed in its own, whatever the placement rule |
| CubeSplit.BoxesTight | contrib/cube/cube.c:598-652 | each box is the least one that covers its side |
| CubeSplit.Choose | contrib/cube/cube.c:606-651 | an entry that is no seed goes where the enlargement is smaller, ties to the right, and boxes and sizes follow; `PickSplit` says what that makes of the lists |
| CubeSplit.SplitVector.Place | contrib/cube/cube.c:598-652 | one round adds one offset to the distribution |
| CubeSplit.SplitVector.Close | contrib/cube/cube.c:653-658 | the sentinels are written in bounds and leave the lists alone, which are those of a good split |
| CubeSplit.PickSplit | contrib/cube/cube.c:515-660 | the seeds are the best ones; each offset is in exactly one ascending list, with a sentinel behind it; an offset that is no seed is on the left exactly if the least box over the left seed and the left offsets before it grows strictly less in volume, to take it in, than that on the right; each box is the least one over its list |
| CubeSplit.SplitAt | contrib/cube/cube.c:584-658 | the same for given seeds, and the arrays, boxes and sizes are those of the distribution by least enlargement |
| CubeSplit.GoodSplitIsUnique | contrib/cube/cube.c:584-658 | for given seeds these conditions leave one pair of lists and boxes only |
| CubeSplit.BoxesExist | contrib/cube/cube.c:584-652 | the least boxes they speak of exist |
| CubeSplit.BoxesAgree | contrib/cube/cube.c:584-652 | and are unique |
| CubeSplit.SplitIsSound | contrib/cube/cube.c:515-660 | both lists non-empty and ascending, every offset once, each box least for its list |
| CubeDistance.Distance1D | contrib/cube/cube.c:1511-1524 | the result is the gap between the two intervals, whichever way round they are given |
| CubeDistance.SumDistance | contrib/cube/cube.c:1262-1404 | the loops add up the gaps, absent dimensions counting as zero |
| CubeDistance.ComputeDistance | contrib/cube/cube.c:1262-1404 | the three distances, symmetric in their arguments |
| CubeDistance.DistanceAdmissible | contrib/cube/cube.c:1406-1509 | a key that covers a cube is never farther from the query, for all three metrics and any dimensions |
| CubeDistance.ZeroIsOverlap | contrib/cube/cube.c:1262-1404 | each distance is zero exactly between overlapping cubes |
| CubeDistance.DistanceIsNearest | contrib/cube/cube.c:1262-1404 | each distance of two cubes is the least one between a point of the one and a point of the other, and is attained |
| CubeDistance.DistanceOnLine | contrib/cube/cube.c:1262-1404 | between two numbers it is the absolute difference, or its square |
| CubeDistance.DistanceOfConcat | contrib/cube/cube.c:1262-1404 | over independent dimensions, taxicab and squared Euclidean distances add up and of the Chebyshev distances the greater one counts |
| CubeDistance.DistanceScales | contrib/cube/cube.c:1262-1404 | scaling both cubes by c scales the squared Euclidean distance by c * c and the other two by the absolute value of c |
| CubeDistance.MeetsIsGap | contrib/cube/cube.c:827-900 | where two cubes are apart, the intersection has the length of the gap |
| CubeDistance.CoordLlur | contrib/cube/cube.c:1653-1708 | the bound a 32-bit coordinate number stands for, negated for negative numbers, an error for zero |
| CubeDistance.BoundExactly | contrib/cube/cube.c:1653-1708 | coordinate 2k + 1 is the lower and 2k + 2 the upper bound of dimension k, and a negative number negates |
| CubeDistance.MagnitudeIsAbs | contrib/cube/cube.c:1667-1677 | for every 32-bit coordinate number, the least one included, negation, unsigned comparison and index come out as over unbounded integers |
| CubeDistance.CoordDistance | contrib/cube/cube.c:1406-1509 | the operator's value on leaf pages, a bound for all cubes below on inner pages |
| CubeDistance.CoordAdmissible | contrib/cube/cube.c:1406-1509 | the value at a key is at most the operator's value for any covered cube, in both directions |
| CubeDistance.Enlarge | contrib/cube/cube.c:1711-1773 | each interval is pushed out by r, or pulled in as far as its midpoint; only r > 0 adds dimensions |
| CubeDistance.EnlargedExactly | contrib/cube/cube.c:1711-1773 | for any radius, each side keeps its middle and is longer by 2r, or a point where that is negative |
| CubeDistance.EnlargeIsChebyshevBall | contrib/cube/cube.c:1711-1773 | for r >= 0 the enlarged cube overlaps p exactly if the Chebyshev distance is at most r, up to the dimensions asked for |
| CubeDistance.EnlargeExactly | contrib/cube/cube.c:1711-1773 | with more dimensions, p also has to reach zero in them |
| CubeDistance.EnlargeMissesHigherDimensions | contrib/cube/cube.c:1711-1773 | a cube within the distance that is not reached |
| CubeDistance.ShrinkUndoesEnlarge | contrib/cube/cube.c:1711-1773 | enlarging by -r after r gives back the cube, zero-padded |
| CubeDistance.ShrinkStaysInside | contrib/cube/cube.c:1711-1773 | a negative radius stays inside the cube |
| NbtWalk.LeftmostIgnoringHalfDead | contrib/amcheck/verify_nbtree.c:1010-1061 | ends on every store; true exactly if only half-dead pages lie to the left, an error exactly at an unreadable page |
| NbtWalk.ChainDistinct | contrib/amcheck/verify_nbtree.c:1010-1061 | the pages passed on the way left are all different |
| NbtWalk.NeverTurnsBack | contrib/amcheck/verify_nbtree.c:1036-1039 | the guard against turning back never decides |
| NbtWalk.CheckLevel | contrib/amcheck/verify_nbtree.c:650-835 | the loop follows the walk, its outcome is that of the last visit, and if it finished, the walk has a completed trail |
| NbtWalk.FinishedIsCompleted | contrib/amcheck/verify_nbtree.c:650-835 | a walk whose last visit ends the level has visited the blocks of a completed trail |
| NbtWalk.CompletedExactly | contrib/amcheck/verify_nbtree.c:650-835 | the walk got over these blocks to the end of the level exactly if right links lead over them to the right end and nothing is wrong with any of them, said of links, levels and flags |
| NbtWalk.RejectedExactly | contrib/amcheck/verify_nbtree.c:650-835 | it raised an error after n pages exactly if such links over n good pages lead to one with which something is wrong |
| NbtWalk.LinksBack | contrib/amcheck/verify_nbtree.c:1191-1197 | a live page that was passed links back to the page before it |
| NbtWalk.LiveStretchDoesNotRepeat | contrib/amcheck/verify_nbtree.c:650-835 | a stretch of live pages comes back to none of them |
| NbtWalk.WalkEndsWithoutHalfDead | contrib/amcheck/verify_nbtree.c:650-835 | without half-dead pages the walk visits no block twice and ends within the size of the store |
| NbtWalk.ForeverIsLasso | contrib/amcheck/verify_nbtree.c:650-835 | the walk never ends exactly if the store has a lasso: right links over passable pages from the leftmost block to a half-dead page and, over another page, back to it |
| NbtWalk.ForeverExactly | contrib/amcheck/verify_nbtree.c:650-835 | that is, if the walk meets a half-dead page twice with another page in between |
| NbtOrder.HalfDeadCycleRunsForever | contrib/amcheck/verify_nbtree.c:650-835 | a root level of two linked pages that pass the page checks and on which it never ends |
| NbtOrder.InvariantLIsOrder | contrib/amcheck/verify_nbtree.c:3106-3156 | the strict test of neighbours is the order on keys with missing attributes as minus infinity, then heap TID |
| NbtOrder.InvariantGIsOrder | contrib/amcheck/verify_nbtree.c:3192-3213 | the test across pages holds exactly if the last TID of the left item precedes the right item |
| NbtOrder.InvariantLeqIsOrder | contrib/amcheck/verify_nbtree.c:3169-3179 | the test against the high key of a leaf page holds exactly if the last TID of the item is not beyond it |
| NbtOrder.ItemOkExactly | contrib/amcheck/verify_nbtree.c:1287-1706 | a real item passes exactly if its TIDs ascend, it is not beyond the high key (on an internal page strictly before it), and it is before the next item |
| NbtOrder.StepRight | contrib/amcheck/verify_nbtree.c:1865-1950 | the loop lands on the first page to the right that is not ignorable |
| NbtOrder.LastItemCheck | contrib/amcheck/verify_nbtree.c:1707-1752 | the last item is compared with the first one to the right, where there is one |
| NbtOrder.TargetPageCheck | contrib/amcheck/verify_nbtree.c:1287-1752 | accepts exactly pages with well-formed, ordered items within the high key and before the next page |
| NbtOrder.AcrossPages | contrib/amcheck/verify_nbtree.c:1707-1752 | without a gap, the last item of a page precedes the first one after it |
| NbtOrder.TrailSortedExactly | contrib/amcheck/verify_nbtree.c:1287-1752 | the keys along an accepted walk are sorted exactly if they are across the gaps |
| NbtOrder.AcceptedLevelIsSorted | contrib/amcheck/verify_nbtree.c:1287-1752 | the real items of an accepted level are strictly increasing exactly if they are across the gaps; always so without gaps |
| NbtOrder.EmptyPageHidesDisorder | contrib/amcheck/verify_nbtree.c:2040-2065 | an accepted root level, with splits under way, that has key 5 before key 3 |
| NbtUnique.EntryUniqueCheck | contrib/amcheck/verify_nbtree.c:911-1001 | an error exactly for a second visible entry, otherwise what has been seen is carried on |
| NbtUnique.UniquePass | contrib/amcheck/verify_nbtree.c:1648-1815 | the one lazy pass raises an error exactly if two visible entries of the page, or one of them and the first item of the right sibling where it has the key of the last item, share a non-null key |
| NbtUniqueLevel.LeafUniqueCheck | contrib/amcheck/verify_nbtree.c:1735-1815 | with the sibling read from the store: an ignorable one is not looked at, an internal one with that key is an error |
| NbtUniqueLevel.NoFalseAlarm | contrib/amcheck/verify_nbtree.c:1648-1815 | on a level without duplicates every page passes |
| NbtUniqueLevel.UniqueLevelExactly | contrib/amcheck/verify_nbtree.c:1648-1815 | a sorted level whose pages all pass has a duplicate exactly if one is hidden across a border that reveals nothing; where all borders are anchored, passing is being free of duplicates |
| NbtUniqueLevel.PassableOnLevel | contrib/amcheck/verify_nbtree.c:1287-1815 | on such a level every live page is a fit input for the pass and no sibling is an internal page |
| NbtUniqueLevel.InvisibleEntryHidesDuplicate | contrib/amcheck/verify_nbtree.c:1770-1815 | an accepted root level with two visible entries of the same key on neighbouring pages |
| NbtUnique.AcceptedPageIsGrouped | contrib/amcheck/verify_nbtree.c:1287-1692 | a leaf page that passed the order checks is a fit input for that pass |
| NbtLockstep.DownlinkMissingCheck | contrib/amcheck/verify_nbtree.c:2557-2722 | accepts exactly the root, a page after an incomplete split, and a page from which a chain of first downlinks leads over internal pages, level by level, to a half-dead leaf whose top parent it is |
| NbtLockstep.HeadsExactly | contrib/amcheck/verify_nbtree.c:2622-2706 | the descent succeeds exactly if there is such a chain |
| NbtLockstep.LeafExcusesOnePage | contrib/amcheck/verify_nbtree.c:2622-2706 | one half-dead leaf excuses one page, along one chain |
| NbtLockstep.PageCheck | contrib/amcheck/verify_nbtree.c:2212-2354 | a page passes exactly if level, links, downlink or excuse, and high key are as they should be |
| NbtLockstep.WalkTo | contrib/amcheck/verify_nbtree.c:2187-2375 | accepted, the pages walked lead to the downlink and are all excused; rejected, the walk is stuck after pages that are |
| NbtLockstep.Lockstep.HighkeyCheck | contrib/amcheck/verify_nbtree.c:2145-2376 | one call, for any downlink, adds one such stretch and remembers where it ended, or forgets everything after downlink 0, or says where it is stuck and changes nothing |
| NbtLockstep.Lockstep.PageDownlinks | contrib/amcheck/verify_nbtree.c:1359-1375 | one call per downlink of a page, left to right, with its separators |
| NbtLockstep.FinishLevel | contrib/amcheck/verify_nbtree.c:1830-1843 | the pages to the right of the last downlink are all excused, or the walk is stuck after pages that are |
| NbtLockstep.CheckDownlinks | contrib/amcheck/verify_nbtree.c:2145-2376 | accepted: every call arrived, each walking on from where the one before ended, and the last one at the right end; rejected: some call is stuck after calls that arrived |
| NbtLockstep.WalkedIsNotStuck | contrib/amcheck/verify_nbtree.c:2145-2376 | no store satisfies both descriptions, so they decide the verdict |
| NbtLevels.LockstepExactly | contrib/amcheck/verify_nbtree.c:2145-2376 | when every call arrived, the child level has a walk from its left end with the downlinks in order, every other live page excused and high keys equal to the next separator, exactly if no downlink is 0 |
| NbtLevels.Flattened | contrib/amcheck/verify_nbtree.c:2145-2376 | without downlink 0 the stretches join to such a walk |
| NbtLevels.PlainExactly | contrib/amcheck/verify_nbtree.c:2166-2201 | the walk is one chain of right links exactly if no page with a downlink, other than the last, has an invalid one |
| NbtLevels.LockstepIsChildWalk | contrib/amcheck/verify_nbtree.c:2145-2376 | if the child level was walked to its end as well, the lockstep went over exactly the pages of that walk, one chain of right links |
| NbtLevels.ZeroDownlinkIsAccepted | contrib/amcheck/verify_nbtree.c:2166-2201 | a root whose only downlink is 0 passes the whole check, and there is no child level |
| NbtLevels.RestartIsAccepted | contrib/amcheck/verify_nbtree.c:2166-2201 | two children that no right link joins, accepted by the calls of their parent level |
| NbtChildren.ChildCheck | contrib/amcheck/verify_nbtree.c:2392-2541 | accepts exactly readable pages, not deleted, whose real items are all above the separator |
| NbtChildren.ChildWithinSeparators | contrib/amcheck/verify_nbtree.c:2392-2541 | every real item of a checked child is strictly above its separator and, where the child's high key counts, at or below the next one |
| NbtChildren.SiblingsOrdered | contrib/amcheck/verify_nbtree.c:2392-2541 | the items of two children of one parent page are in order, whatever lies between the children |
| NbtChildren.ChildLevelSorted | contrib/amcheck/verify_nbtree.c:2145-2541 | when two levels are accepted, the lower one is sorted exactly if it is so across every gap whose sides do not hang under one page or whose left side is in a split |
| NbtChildren.SortedBelowOnePage | contrib/amcheck/verify_nbtree.c:2145-2541 | below a level of one page, such as the root, an accepted level is sorted, empty pages or not, if no page is excused from having a downlink |
| NbtCousins.CousinsHideDisorder | contrib/amcheck/verify_nbtree.c:1359-1375 | two accepted levels without a split under way, the lower one with key 4 before key 1 under different pages |
| NbtCousins.UpperLevelsAccepted | contrib/amcheck/verify_nbtree.c:650-835 | the root over them and its children are accepted as well |
| HeapChains.FirstPass | contrib/amcheck/verify_heapam.c:504-640 | successors and validity of all line pointers; nothing reported exactly if each is unused, dead or valid |
| HeapChains.CheckLink | contrib/amcheck/verify_heapam.c:683-790 | nothing reported exactly if the link is clean; `LinkExactly` says what that is of the two tuples |
| HeapChains.SecondPass | contrib/amcheck/verify_heapam.c:642-800 | predecessors are the first ones; nothing reported exactly if all links agree and none shares its target |
| HeapChains.ThirdPass | contrib/amcheck/verify_heapam.c:802-833 | nothing reported exactly if no live heap-only tuple lacks a predecessor |
| HeapChains.CheckPage | contrib/amcheck/verify_heapam.c:504-836 | the three passes report nothing exactly on clean pages |
| HeapReference.CleanExactly | contrib/amcheck/verify_heapam.c:504-836 | a page is clean exactly if its line pointers are well-formed, redirects lead to heap-only tuples, HOT flags agree along each update, no version whose inserter is unfinished or aborted was updated by one that got further, no two pointers lead to one tuple, and some pointer leads to every heap-only tuple whose inserter committed or is running |
| HeapReference.LinkExactly | contrib/amcheck/verify_heapam.c:683-790 | a link is clean exactly if a redirect leads to a heap-only tuple, and an update has the right flags and transactions on both ends |
| HeapReference.TargetExactly | contrib/amcheck/verify_heapam.c:655-736 | the links followed are exactly redirects to tuples, and updates told by ctid and by the same transaction on both ends |
| HeapChains.LinksMatch | contrib/amcheck/verify_heapam.c:642-800 | on a clean page nothing has two predecessors |
| HeapChains.HeapOnlyHasOnePredecessor | contrib/amcheck/verify_heapam.c:642-833 | a live heap-only tuple has exactly one predecessor, a redirect or a HOT-updated tuple |
| HeapChains.RootedExactly | contrib/amcheck/verify_heapam.c:504-836 | following links back ends at a root exactly if the tuple is not on a cycle |
| HeapChains.RootKinds | contrib/amcheck/verify_heapam.c:802-833 | a root is a redirect, a tuple that is not heap-only, or one not known to be live |
| HeapChains.CycleIsAccepted | contrib/amcheck/verify_heapam.c:504-836 | a clean page with two live heap-only tuples on a cycle |
| HeapChains.AbortedStaysAborted | contrib/amcheck/verify_heapam.c:768-790 | along a stretch of settled versions, everything after an aborted version is aborted |
| HeapChains.HiddenBetween | contrib/amcheck/verify_heapam.c:768-790 | a settled version that is not aborted comes after an aborted one only with an unsettled one in between |
| HeapChains.OwnVersionBetween | contrib/amcheck/verify_heapam.c:768-790 | if nothing was reported about any xmin, that one is a version of the checker's own transaction |
| HeapChains.UnsettledHidesAbort | contrib/amcheck/verify_heapam.c:768-790 | such a page, on which nothing is reported about xmin, links or roots |
| HeapToast.CheckToastTuple | contrib/amcheck/verify_heapam.c:1555-1639 | nothing reported exactly if number, header and size are the expected ones |
| HeapToast.CheckToastedAttribute | contrib/amcheck/verify_heapam.c:1861-1910 | nothing reported exactly if the chunks are 0..last, each of its size |
| HeapToast.AcceptedIsCut | contrib/amcheck/verify_heapam.c:1861-1910 | that is so exactly if they are the claimed number of bytes cut into full chunks and a last non-empty one |
| HeapToast.ZeroSizeIsNeverShort | contrib/amcheck/verify_heapam.c:1861-1910 | a claimed size of 0 accepts only 2151788 chunks of 2^32 bytes |
| HeapXids.RoundTrip | contrib/amcheck/verify_heapam.c:1978-2014 | every normal id within 2^31 of the next one is recovered from its low word |
| HeapXids.WidenKeepsLowWord | contrib/amcheck/verify_heapam.c:1978-2014 | unless clamped, an id keeps its low word |
| HeapXids.WidenIsNormal | contrib/amcheck/verify_heapam.c:1978-2014 | normal ids widen to normal ids |
| HeapXids.ClampedExactly | contrib/amcheck/verify_heapam.c:1978-2014 | clamping happens in epoch 0, exactly for ids that no recent normal id stands for, for every next id |
| HeapXids.RefreshedVerdictIsTrue | contrib/amcheck/verify_heapam.c:2019-2151 | on refreshed values the verdict on a low word is the one about the 64-bit ids themselves, for ids within 2^31 of the next one |
| HeapXids.XidCache.GetXidStatus | contrib/amcheck/verify_heapam.c:2112-2180 | the verdict is that of the range then held; future and too-old verdicts only on refreshed values; status exactly if wanted and in bounds |
| HeapXids.AcceptedExactly | contrib/amcheck/verify_heapam.c:2112-2151 | for any cache, an id in the cluster's range and not before the table's horizon is accepted exactly if the cached range does not account for it or has widened it to something within the horizon |
| HeapXids.GenuineIdIsAccepted | contrib/amcheck/verify_heapam.c:2112-2151 | so it is if the cache is less than 2^32 ids behind and does not clamp the id |
| HeapXids.NearCacheAccepts | contrib/amcheck/verify_heapam.c:2112-2151 | and it always is if the cached range starts less than 2^31 ids before the next one |
| HeapXids.StaleCacheRaisesAlarm | contrib/amcheck/verify_heapam.c:2112-2151 | a cache taken at id 5 for which a genuine id is reported as before the horizon |
| HeapXids.FutureReportedExactly | contrib/amcheck/verify_heapam.c:2112-2151 | for any cache, an id beyond the next one is reported as future exactly if the cached range does not account for it |
| HeapXids.FutureIdIsReported | contrib/amcheck/verify_heapam.c:2112-2151 | so it is if the cached range starts less than 2^32 ids before the id and does not clamp it |
| HeapXids.NearCacheReportsFuture | contrib/amcheck/verify_heapam.c:2112-2151 | and it always is, less than 2^31 past the cached next id, if the cached range starts less than 2^31 ids before the shared next one |
| HeapXids.StaleCacheHidesFuture | contrib/amcheck/verify_heapam.c:2112-2151 | a cache one epoch behind for which a future id is accepted |
| GinScan.ExtractQuery | contrib/btree_gin/btree_gin.c:66-147 | start key and partial-match flag by strategy, an error for unknown ones |
| GinScan.CallbackIsOperator | contrib/btree_gin/btree_gin.c:149-233 | match exactly if the operator holds; stop only at or above the value, or off it for equality; go on only at or below it |
| GinScan.Scan | src/backend/access/gin/ginget.c:120-210 | the loop collects matches from the start key until the callback stops it |
| GinScan.StopIsFinal | contrib/btree_gin/btree_gin.c:149-233 | where the callback stops, nothing that follows would match |
| GinScan.ScanExactly | contrib/btree_gin/btree_gin.c:66-233 | scan equals filter on every index exactly if the start key is good |
| GinScan.ConvertedQueryIsFilter | contrib/btree_gin/btree_gin.c:66-233 | so it is for every strategy and every conversion exact on representable values that skips no key |
| GinScan.IntegerQueryIsFilter | contrib/btree_gin/btree_gin.c:272-366 | the integer clamps are such conversions |

## Left out

- GistVarSplit.PickSplit: takes the sorted offsets as input, because the sorting is `qsort_arg` of the core.
- BloomSignature.SignValue: the shift by -1 that the two bad seeds lead to is undefined in C; it stands for one word, unknown but always the same.
- BloomIndex.Index.NewBuffer: the free space map is a list of hints that may name any block; what a hint is worth is not modelled.
- BloomSafety.StepKeepsInv: steps that only update the free space map change nothing here, and write-ahead logging and crash recovery are absent.
- NbtWalk.CheckLevel: the number of iterations is bounded by a budget that stands for an interrupt; `ForeverExactly` is about the walk without one.
- NbtLockstep.CheckDownlinks: the number of pages one call passes is bounded by a budget that stands for an interrupt. The last call has no separator to match, so high keys to the right of the last downlink are unconstrained.
- CubeDistance.ComputeDistance: the Euclidean distance is squared, as the square root keeps the order.
- Floating point in cube: coordinates are reals, without rounding, NaN or infinities.
- Penalty functions of btree_gist and cube: they only steer where an entry goes.
- Multi-byte encodings and collations in btree_gist: the bytea operator class is modelled.
- The per-type files of btree_gist and its fixed-length keys: a plain-interval version of what is proved here.
- Text input of cubes.
- B-tree checks that are not read-only, heapallindexed, rootdescend, and INCLUDE columns.
- `check_tuple` of verify_heapam: its finding about the inserting transaction is an input; multixact ranges and attribute checks are not modelled.
- GIN null entries, pending list and posting trees, and the btree_gin conversions other than integers (any conversion that meets `GoodConversion` is covered).
