# Verified models of CHIME and DMTree

Two indexes over disaggregated memory are modelled: CHIME, a B-link tree whose leaves are hopscotch
hash tables, and DMTree, a B-link tree whose leaves carry a table of fingerprints. All sizes (span,
neighbourhood, entry, metadata and block sizes, number of vacancy bits, node capacities) are
parameters, and hash functions are arbitrary.

- **Hopscotch leaf** (`Hopscotch`, `HopscotchPath`, `HopscotchSplit`, `HopscotchRead`, `HopscotchTorn`,
  `HopscotchOps`): insertion by hopping with per-home bitmaps, the choice of the split key, the split, and the
  reader's bitmap check under torn reads.
- **Leaf node and chain** (`VacancyLock`, `ChimeLeaf`, `ChimeOps`, `ChimeChain`, `ChimeTwice`,
  `ChimeStaleWord`): the lock word with its lossy occupancy bitmap and the index of the greatest key, partial
  reads, turning right, and whole runs of inserts, updates and searches from root creation on.
- **Byte layout** (`VersionLayout`, `SegmentLayout`, `NodeLayout`, `MetadataLayout`, `LayoutOps`): a version
  byte per cache line and metadata per group of entries, for nodes and segments.
- **Internal nodes of CHIME** (`ChimeInternal`, `ChimeInternalLevel`, `ChimeInternalOps`), and leaves under their
  bottom level (`ChimeTree`), with what runs write and that they can always go on (`ChimeProgress`).
- **Leaves and leaf protocol of DMTree** (`DMLeaf`, `DMLeafOps`, `DMProtocol`, `DMProtocolRuns`, `DMSearch`,
  `DMWrites`, `DMProgress`):
  writers write entries, tables and parent records one remote write at a time, searches read
  optimistically through stale records and stale local tables.
- **Inner levels of DMTree** (`DMInner`, `DMInnerLevel`, `DMInnerOps`), leaves and bottom level together
  (`DMTree`), the whole tree with descents from the root pointer (`DMDescent`), and that it never deadlocks
  (`DMDeadlock`).
- **Lock handover and allocation** (`LockHandover`, `Allocator`): step systems over any number of threads
  or clients.

Code that changes arrays and objects in place is modelled by methods on arrays and classes (the `Ops`
modules, the lock word, the lock node, the allocators), each proved against a function on values; the
theorems are about those functions and about runs of state machines. A `None` result stands for a failing
assert of the source, and the theorems show when it cannot occur.

Remote memory is read and written in the units the designs rely on: pairs and bitmaps, or their bytes, for hop
snapshots, DMTree entries, cache lines for version checks, whole fingerprint tables and whole inner nodes where a checksum
guards them. Some state fields of the step systems record history: `store` and `dir` are the maps a tree or
a level stands for, `issued` holds every parent record ever written, and `said` every answer an inner node gave.

Properties that turned out not to hold as one would wish, each with its exact condition:

- Inserting a key that is already in a CHIME leaf (`ChimeOps.InsertExactIff`, and `ChimeChain.InsertCallIff`
  for whole chains): the partial read may not show the old entry, and then the key is stored twice. A run
  from the root gets there (`ChimeTwice.StoresTwice`).
- Updating a key in the last slot of a CHIME leaf (`ChimeOps.UpdateNodeKeepsIff`, and `ChimeChain.UpdateCallIff`
  for whole chains): the lock word is overwritten with whatever the lock buffer held. Contents and searches
  survive (`ChimeChain.UpdatesStore`, `ChimeChain.SearchFinds`), but the next insert may fail
  (`ChimeStaleWord.UpdateBreaksInsert`).
- Reading a leaf during an insert when a bitmap of more than eight bits lies in two cache lines
  (`HopscotchTorn.TornBytesIff`): a present key may be missed (`HopscotchTorn.WideMisses`).
- Recomputing the index of the greatest key from hopped slots (`ChimeLeaf.MaxIndexKeptIff`); the ghost key
  and the rule that a leaf ends just above its greatest key keep runs inside the condition.
- Splitting an internal node of span one or two (`ChimeInternal.SplitRoutesIff`).
- The second allocation attempt after a chunk fetch (`Allocator.RetryFitsIff`): blocks stay disjoint when
  every request fits into a chunk (`Allocator.LiveBlocksDisjoint`), and one that does not leads to an overlap
  (`Allocator.OversizedOverlaps`).

## Model
| member | source | states |
|---|---|---|
| `Hopscotch.SlotIsModulo` | CHIME/src/Tree.cpp:602-604 | the index arithmetic used throughout the proofs is the modulo of `get_entry` |
| `Hopscotch.MovableIff` | CHIME/src/Tree.cpp:627-643 | the bitmap scan for a hop candidate succeeds exactly when the key in that slot hashes to a home whose neighbourhood reaches the hole; the home it names is that one, above `j - N` and above the home of the new key |
| `Hopscotch.MoveKeeps` | CHIME/src/Tree.cpp:644-647 | one hop: bitmaps stay exact, the contents do not change, and the hole is now the slot hopped from, which is closer to the home of the new key |
| `Hopscotch.PlaceKeeps` | CHIME/src/Tree.cpp:621-626 | storing the key in a hole of its neighbourhood keeps the leaf exact and adds just that key; the bit set was clear, so the assert of `set_hop_bit` holds |
| `Hopscotch.LeafInsertKeeps` | CHIME/src/Tree.cpp:600-651 | every successful insert of an absent key, over any number of hops: bit z of home h is set iff slot h+z holds a key of home h, every key is near its home, and the contents are the old map plus the key |
| `HopscotchPath.HopToFrame` | CHIME/src/Tree.cpp:616-649 | an insert changes neither keys nor bitmaps outside the cyclic window from the home of the key to the first hole |
| `HopscotchPath.HopToCongruent` | CHIME/src/Tree.cpp:616-649 | verdict, path and window after an insert depend only on that window |
| `HopscotchPath.HopToHomes` | CHIME/src/Tree.cpp:627-649 | along the slots an insert changes, the homes of the moved keys increase strictly, because the farthest candidate is taken first |
| `HopscotchPath.HopPathDistinct` | CHIME/src/Tree.cpp:617-620 | the list of hopped slots has no repetition: the hole only moves backwards |
| `HopscotchPath.HopPathCovers` | CHIME/src/Tree.cpp:618-626 | keys outside the hopped slots stay where they were; the new key is in the last hopped slot |
| `HopscotchPath.HopPathChanges` | CHIME/src/Tree.cpp:618-649 | conversely every hopped slot gets another key, so the list is exactly the slots whose keys change |
| `HopscotchPath.HopToFills` | CHIME/src/Tree.cpp:609-626 | after an insert from the first hole the window has no hole left |
| `HopscotchSplit.SimFitsDownward` | CHIME/src/Tree.cpp:665-682 | if simulated hopping from a slot succeeds, it succeeds from every earlier slot |
| `HopscotchSplit.SimIsReal` | CHIME/src/Tree.cpp:665-682 | simulated hopping on the full leaf succeeds exactly when the real insert does on a leaf where that slot is empty |
| `HopscotchSplit.SplitKeyFreesSlot` | CHIME/src/Tree.cpp:654-688 | the list of critical keys is never empty, and the median of it and the new key leaves, on the side of the new key, a freed slot from which hopping succeeds |
| `HopscotchSplit.SplitKeyIsMedian` | CHIME/src/Tree.cpp:654-688 | the split key is one of the critical keys or the new key, and exactly half of them, rounded down, are below it; the critical keys are exactly those whose slot, once freed, would let hopping succeed |
| `HopscotchSplit.InsertIff` | CHIME/src/Tree.cpp:600-651 | an insert succeeds if and only if the window read has a hole and some legal hops, in whatever order they choose keys, bring the first hole into the neighbourhood of the key: taking the farthest key first loses nothing |
| `HopscotchSplit.SplitMakesRoom` | CHIME/src/Tree.cpp:654-774 | for every exact leaf that refused an absent key, the half the key belongs to takes it: the failing assert of `hopscotch_insert_locally` is never reached |
| `HopscotchSplit.SplitConserves` | CHIME/src/Tree.cpp:741-774 | both halves are exact and non-empty, their disjoint union is the old map plus the pair, and the split key divides them |
| `HopscotchRead.ReadNeighborhood` | CHIME/src/Tree.cpp:1909-1928 | the loop of the reader: found, or absent with a matching bitmap, or read again |
| `HopscotchRead.ReadExact` | CHIME/src/Tree.cpp:1909-1928 | on an undisturbed leaf one pass answers with the contents of the leaf, and with nothing else |
| `HopscotchRead.OneMoverPerHome` | CHIME/src/Tree.cpp:616-649 | one insert moves at most one key of any home, and none of the home of the new key |
| `HopscotchRead.TornReadSound` | CHIME/src/Tree.cpp:1909-1928 | for every mixture of pairs from before and after one insert, with either bitmap of the home: a value returned is one the key had, and absent is never answered for a key that was there |
| `HopscotchTorn.TornBytesIff` | CHIME/src/Tree.cpp:1909-1928 | byte by byte, the bitmap of a home that got no new version may itself be torn: some such read misses a present key if and only if the bits of that key before and after the insert are in different bytes of the bitmap and the home is neither on the path nor has its bitmap in one line; never with neighbourhoods of at most eight slots |
| `HopscotchTorn.WideMisses` | CHIME/src/Tree.cpp:627-647 | the counterexample: a leaf with neighbourhoods of ten slots and an insert during which a reader may miss a key that is there all the time |
| `HopscotchRead.PartialInsertRefinesFull` | CHIME/src/Tree.cpp:609-649 | inserting on any buffer that agrees with the leaf on a window with a hole, and writing back only that window, gives the leaf and the verdict of the insert on the whole leaf |
| `HopscotchOps.ScanHomes` | CHIME/src/Tree.cpp:631-642 | the innermost loop finds the first home, farthest first, that `HomeDistance` names, or the sentinel |
| `HopscotchOps.FindCandidate` | CHIME/src/Tree.cpp:627-643 | the loop over offsets takes the farthest slot that may hop |
| `HopscotchOps.HopEntry` | CHIME/src/Tree.cpp:644-647 | copying the entry and flipping the two bits in place is the hop; the asserts of the bit operations hold in every buffer that shows the window of an exact leaf, read in whole or in part |
| `HopscotchOps.HopLoop` | CHIME/src/Tree.cpp:616-650 | on every such buffer the in-place loop ends, and computes path, verdict and buffer of `HopTo` |
| `HopscotchOps.Insert` | CHIME/src/Tree.cpp:600-651 | the whole in-place insert on a buffer of which a window of the leaf was read: its verdict is that of the leaf, and the window it leaves is that of an exact leaf with the pair added |
| `HopscotchOps.InsertLocally` | CHIME/src/Tree.cpp:691-738 | the split-time insert, and the slot of the new key it returns |
| `HopscotchOps.SimulateHop` | CHIME/src/Tree.cpp:664-682 | the simulation loop ends and tells whether hopping from the assumed hole would succeed |
| `HopscotchOps.GetSplitKey` | CHIME/src/Tree.cpp:654-688 | the chooser loop computes the split key that `SplitKeyIsMedian` is about, for every exact leaf |
| `HopscotchOps.Divide` | CHIME/src/Tree.cpp:753-770 | the loop that moves entries and bits leaves exactly the two halves of the leaf |
| `HopscotchOps.Split` | CHIME/src/Tree.cpp:741-774 | the in-place split: two exact leaves whose union is the old contents plus the pair |
| `VacancyLock.BucketsInverse` | CHIME/include/Metadata.h:90-110 | a slot is in a bucket iff the index range of the bucket covers it, for all sizes; ranges are non-empty, adjacent and never cut off |
| `VacancyLock.SweepAfterInsert` | CHIME/include/Metadata.h:48-63 | setting the bits of a window, also when it wraps, keeps "a clear bit means a hole" if only the end of the window was filled |
| `VacancyLock.SweepWholeLeaf` | CHIME/src/Tree.cpp:806-822 | sweeping a whole leaf with all its holes makes the bitmap exact |
| `VacancyLock.SweptBits` | CHIME/include/Metadata.h:48-63 | bucket by bucket, for every window from l to r, also one that wraps: a bucket with a listed hole ends clear, any other bucket with a slot of the window ends set, and all others keep their bits; only a window that wraps into the bucket it starts in sets just that bucket |
| `VacancyLock.BucketsBalanced` | CHIME/include/Metadata.h:90-110 | every bucket has the quotient of span and number of buckets as its size, or one slot more |
| `VacancyLock.ReadNumIs` | CHIME/include/Metadata.h:65-79 | the number of entries to read reaches just to the end of the first bucket whose bit is clear and whose slots all lie at or behind the start; without one it is the whole leaf |
| `VacancyLock.ReadHasHole` | CHIME/include/Metadata.h:65-79 | with a sound bitmap the number of entries to read is the whole leaf or reaches a hole |
| `VacancyLock.LockWord.constructor` | CHIME/include/Metadata.h:46-46 | a fresh lock word has a clear bitmap and the given index |
| `VacancyLock.LockWord.UpdateVacancy` | CHIME/include/Metadata.h:48-63 | `update_vacancy` on the lock word is the sweep that `SweptBits` describes bit by bit |
| `VacancyLock.LockWord.GetReadEntryNum` | CHIME/include/Metadata.h:65-79 | the loop over buckets with its wrap-around computes `ReadNum` |
| `ChimeLeaf.MaxIndexKeptIff` | CHIME/src/Tree.cpp:1037-1048 | recomputing the index of the greatest key from the hopped slots only is right if and only if the new key is below the greatest key or the slot of the greatest key was hopped |
| `ChimeLeaf.ReadSizeHasHole` | CHIME/src/Tree.cpp:556-561 | the assert after the partial read holds: the window, extended to a metadata copy, is the whole leaf or has a hole |
| `ChimeLeaf.ReadsMetadata` | CHIME/src/Tree.cpp:441-448 | the extended read always contains an entry that opens a group, and so a copy of the metadata, also when it wraps; a read of a whole neighbourhood does without extension |
| `ChimeLeaf.ReadsNoMore` | CHIME/src/Tree.cpp:441-448 | a read that has an entry which opens a group is not extended, and any other is extended to the first such entry and no further |
| `ChimeLeaf.InsertIntoIsFull` | CHIME/src/Tree.cpp:569-583 | inserting an absent key into any buffer that shows the window the bitmap points at, and writing that segment and the lock word back, equals the insert on the whole leaf, lock word included |
| `ChimeLeaf.FullInsertKeeps` | CHIME/src/Tree.cpp:1030-1062 | an insert that needs no split keeps exact bitmaps, the vacancy bitmap, the index of the greatest key and the range of the leaf |
| `ChimeLeaf.InsertBits` | CHIME/src/Tree.cpp:1030-1062 | an insert sets the vacancy bits of the buckets between the home of its key and the first hole, and no others |
| `ChimeLeaf.GreatestIdxIsMax` | CHIME/src/Tree.cpp:777-785 | the scan for the greatest key after a split finds it |
| `ChimeLeaf.FindGreatest` | CHIME/src/Tree.cpp:777-785 | the loop over listed slots finds the slot of their greatest key |
| `ChimeLeaf.WriteLock` | CHIME/src/Tree.cpp:1037-1060 | the in-place upkeep of the lock word after a segment write: index and bitmap are those of the model of the insert |
| `ChimeLeaf.SplitLock` | CHIME/src/Tree.cpp:806-822 | the in-place upkeep of the lock word of either half of a split |
| `ChimeLeaf.SplitNodeKeeps` | CHIME/src/Tree.cpp:741-822 | a split never fails and yields two valid nodes: adjacent ranges cut just above the greatest left key, linked siblings, sound lock words, and together the old contents plus the pair |
| `ChimeLeaf.SplitBits` | CHIME/src/Tree.cpp:806-822 | after a split the vacancy bitmaps of both halves are exact: a bit is clear if and only if its bucket has a hole |
| `ChimeOps.TurnsRightIff` | CHIME/src/Tree.cpp:482-516 | the decision to turn right, made from the window read and the entry of the greatest key, equals `k >= hi`, the end of the range of the leaf |
| `ChimeOps.BufferIs` | CHIME/src/Tree.cpp:489-505 | entry by entry what an insert reads: the window, and beyond it the entry of the greatest key if and only if the caller expects another sibling, the leaf is no root and no key of the window is as large as k |
| `ChimeOps.WindowHasEmpty` | CHIME/src/Tree.cpp:557-561 | with a sound bitmap the empty check of an insert holds |
| `ChimeOps.InsertExactIff` | CHIME/src/Tree.cpp:562-583 | inserting a present key never fails; it leaves a valid leaf with the new value if the entry of that key was read, and otherwise a leaf that is no longer exact |
| `ChimeOps.InsertSplitsIff` | CHIME/src/Tree.cpp:562-596 | an insert of an absent key splits the leaf if and only if no sequence of legal hops makes room for it |
| `ChimeOps.NearIffHas` | CHIME/src/Tree.cpp:1617-1633 | the neighbourhood is all an update has to search: it finds the key there exactly when the leaf holds it, and in its only slot |
| `ChimeOps.UpdateNodeStores` | CHIME/src/Tree.cpp:1615-1666 | whatever word its lock buffer was left with, an update of a present key meets its assert, keeps the leaf exact and changes just that value |
| `ChimeOps.UpdateNodeKeepsIff` | CHIME/src/Tree.cpp:1386-1412 | an update leaves the lock word right if and only if the key is not in the last slot, whose entry is written together with the unread word of the lock buffer, or that word is right for the leaf |
| `ChimeOps.CheckLarger` | CHIME/src/Tree.cpp:490-493 | the loop finds whether a slot of the range holds a key at or above k |
| `ChimeOps.HasLargeKey` | CHIME/src/Tree.cpp:489-495 | the two ranges checked are exactly the cyclic window read, also when it wraps |
| `ChimeOps.FindKey` | CHIME/src/Tree.cpp:562-563 | the loop over the buffer finds the first slot with the key |
| `ChimeOps.FindNear` | CHIME/src/Tree.cpp:1618-1622 | the loop over the neighbourhood finds the first distance with the key |
| `ChimeChain.RootInv` | CHIME/src/Tree.cpp:79-104 | the root leaf with its ghost key is a valid chain, and of its vacancy bits exactly that of the ghost key is set |
| `ChimeChain.InsertRouteFinds` | CHIME/src/Tree.cpp:429-516 | from any leaf and sibling an inner node may name, however stale, an insert reaches the leaf whose range holds its key |
| `ChimeChain.UpdateRouteFinds` | CHIME/src/Tree.cpp:1584-1633 | an update stops at a leaf that holds its key, or has passed all leaves up to the expected sibling, none of which does |
| `ChimeChain.InsertCallIff` | CHIME/src/Tree.cpp:429-596 | an insert never fails; it keeps every leaf valid, the chain contiguous and is a map update if its key is absent or shown by what it reads, and otherwise leaves a leaf that is no longer exact |
| `ChimeChain.UpdateCallIff` | CHIME/src/Tree.cpp:1548-1667 | an update meets its assert if and only if the key is present, and is then a map update, whatever its lock buffer was left with; the lock words stay right if and only if the key is not in the last slot of its leaf or the word in the buffer is right |
| `ChimeChain.RunKeeps` | CHIME/src/Tree.cpp:429-596 | every run of inserts of absent or shown keys and of updates of present keys that leave the lock words right, from any leaves inner nodes may name, leads to a valid chain that stands for the map of those operations |
| `ChimeChain.FreshRuns` | CHIME/src/Tree.cpp:429-596 | every sequence of inserts of new keys and updates of old ones goes through as such a run, with the right words in the lock buffers of the updates |
| `ChimeChain.UpdatesStore` | CHIME/src/Tree.cpp:1548-1667 | every run of updates, whatever their lock buffers were left with, keeps all leaves exact and stands for the map of those updates |
| `ChimeChain.SearchFinds` | CHIME/src/Tree.cpp:1850-1952 | in a chain of exact leaves, be their lock words right or not, a search from any leaf an inner node may name, with its right-moves, answers with the value of the key in the map and with nothing else |
| `ChimeChain.SearchAfterRun` | CHIME/src/Tree.cpp:1850-1952 | from root creation through any such run and any updates behind it, every search answers with the last value written to its key, or with absence |
| `ChimeTwice.StoresTwice` | CHIME/src/Tree.cpp:562-583 | the counterexample: from the root, inserting 2, 3 and 2 again, the last one through an inner node that knows leaf and sibling, stores key 2 in two slots |
| `ChimeStaleWord.UpdateBreaksInsert` | CHIME/src/Tree.cpp:1386-1395 | the counterexample: from the root, inserting 2 and 3 and updating 3 out of an unused lock buffer leaves an unsound bitmap, and inserting 4 then fails the empty check |
| `ChimeTree.AnswerGuides` | CHIME/src/Tree.cpp:393-425 | whatever node of the bottom level a search starts at, at or left of the key, it names a leaf at or left of the key and, as next child, none or one right of it |
| `ChimeTree.GuidesEnter` | CHIME/src/Tree.cpp:294-350 | such an answer, however old, is what operations on the leaves need to reach the leaf of their key |
| `ChimeTree.LeafGoesThrough` | CHIME/src/Tree.cpp:429-596 | no assert of an insert of an absent or shown key or of an update of a present key fails, whichever earlier answer it goes by |
| `ChimeTree.PublishAsserts` | CHIME/src/Tree.cpp:1168-1174 | the separator of a leaf split is new to the level: the node that covers it starts below it and has no entry with that key |
| `ChimeTree.StepKeeps` | CHIME/src/Tree.cpp:861-910 | leaf operations, the first internal node and separator insertions with their splits, in any interleaving: leaves and level stay valid, every child of the level is a leaf under its least key, and every leaf is a child or owed to the level |
| `ChimeTree.RunInv` | CHIME/src/Tree.cpp:861-910 | so does every run from the root leaf |
| `ChimeTree.SearchCorrect` | CHIME/src/Tree.cpp:1850-1952 | in every reachable state a search that goes by any answer an inner node ever gave for its key returns what the store holds for it, and nothing else |
| `ChimeTree.AllPublished` | CHIME/src/Tree.cpp:861-910 | once no separator is owed, the children of the level are exactly the leaves of the chain, in order |
| `ChimeProgress.StoreIsWritten` | CHIME/src/Tree.cpp:429-596 | in every run the store is the values of its inserts and updates, the last one of each key, over the pair of the ghost key |
| `ChimeProgress.SearchAnswersWritten` | CHIME/src/Tree.cpp:1850-1952 | so a search that goes by any answer ever given returns the value last written to its key, or misses a key never written |
| `ChimeProgress.OpCompletes` | CHIME/src/Tree.cpp:294-350 | every run goes on with any insert of an absent key and any update of a present one: some inner node answers, and the operation goes through with that answer |
| `ChimeProgress.AllInserted` | CHIME/src/Tree.cpp:861-910 | every run goes on, by separator insertions alone, to one in which the internal nodes know every leaf |
| `VersionLayout.RoundTrip` | CHIME/include/VersionManager.h:76-90 | stripping the cache-line versions undoes adding them, and every line passes its check |
| `VersionLayout.NodeRoundTrip` | CHIME/include/LeafVersionManager.h:32-96 | reading back a written node passes the line checks and the joint check and gives the node, every object with the next node version and everything else as it was |
| `VersionLayout.ObjectNotTorn` | CHIME/include/VersionManager.h:34-55 | for lines taken at will from before or after one write, a successful decode shows every object whose version changed wholly from one side |
| `VersionLayout.FieldNotTorn` | CHIME/include/VersionManager.h:34-55 | a field that lies in one line is read wholly from one side, version or not |
| `VersionLayout.BumpTimesIs` | CHIME/include/LeafVersionManager.h:141-157 | n increments of an entry version raise it by n modulo 16 and change nothing else, so the entry differs after 1 to 15 of them and is back after 16 |
| `VersionLayout.NodeNotTorn` | CHIME/include/LeafVersionManager.h:32-96 | a decode that passes the line checks and the joint check against a whole-node write is the node before or the node after it |
| `SegmentLayout.EncodeRangeSplit` | CHIME/include/LeafVersionManager.h:159-179 | adjacent segments tile the raw bytes: no gap and no overlap |
| `SegmentLayout.SegmentEncode` | CHIME/include/LeafVersionManager.h:159-179 | a segment encoded by itself is the raw range of that segment |
| `SegmentLayout.Tiling` | CHIME/include/LeafVersionManager.h:82-95 | the encoded node is any three consecutive ranges in a row, at the computed raw offsets |
| `SegmentLayout.SegmentWriteIsPatch` | CHIME/include/LeafVersionManager.h:137-180 | overwriting the raw range with the encoded segment equals encoding the updated node |
| `SegmentLayout.SegmentReadIsSlice` | CHIME/include/LeafVersionManager.h:183-211 | reading the raw range and decoding it passes and gives the segment |
| `NodeLayout.StructOffsetIs` | CHIME/include/LeafVersionManager.h:99-107 | the struct offsets of the grouped leaf are the closed form used for metadata |
| `NodeLayout.OffsetsAlign` | CHIME/include/LeafVersionManager.h:99-107 | entry boundaries never cut an object, for every start and end |
| `NodeLayout.OffsetInfoIs` | CHIME/include/LeafVersionManager.h:109-133 | `get_offset_info` gives the raw offset, raw length and first version of the segment |
| `NodeLayout.EncodedBytes` | CHIME/include/LeafVersionManager.h:81-95 | where the bytes of an encoded node come from: the first line has data only, every other line the version of the object it starts in and then its data bytes in order |
| `NodeLayout.FlatSegmentWrite` | CHIME/include/VersionManager.h:94-164 | the flat segment write, with the flat `get_offset_info`, is exactly the right patch |
| `MetadataLayout.SegmentLengthsAgree` | CHIME/include/MetadataManager.h:100-106 | the metadata manager's segment length is the version manager's decoded distance, for every start and count and for spans that are no multiple of the group |
| `MetadataLayout.HasCopyIff` | CHIME/include/MetadataManager.h:64-71 | a segment has a copy of the metadata exactly when one of its entries opens a group; every segment from entry 0 on and every segment of at least a group has one, as the asserts of `hopscotch_search` say |
| `MetadataLayout.MetadataRoundTrip` | CHIME/include/MetadataManager.h:26-97 | gathering undoes scattering, for nodes and segments |
| `MetadataLayout.MetadataCopies` | CHIME/include/MetadataManager.h:72-76 | every copy in a segment is the metadata, so the asserts of the gathering loop hold |
| `MetadataLayout.ScatterSlice` | CHIME/include/MetadataManager.h:87-97 | scattering a segment by itself gives its slice of the scattered node |
| `MetadataLayout.LeafSegmentWrite` | CHIME/include/LeafVersionManager.h:99-180 | metadata and versions together: the segment write is the encoding of the leaf with just those entries replaced |
| `MetadataLayout.LeafSegmentRead` | CHIME/include/LeafVersionManager.h:183-228 | reading back any segment of a written leaf passes the line checks and the joint check and gives its entries and the node version of the leaf |
| `MetadataLayout.SegmentNotTorn` | CHIME/include/LeafVersionManager.h:183-228 | a segment whose lines come at will from before or after a whole-node write, and that passes all checks, is wholly from before or wholly from after it, and the node version it reports tells which |
| `MetadataLayout.WrappedNotTorn` | CHIME/src/Tree.cpp:926-960 | the two segments of a neighbourhood that wraps, torn independently: if both pass and report the same node version, both are from before or both from after the write |
| `MetadataLayout.SegmentOwnerIs` | CHIME/include/LeafVersionManager.h:161-175 | the segment-relative rule for the version of a line names the same object as the rule for nodes |
| `MetadataLayout.EntryNotTorn` | CHIME/include/LeafVersionManager.h:32-52 | an entry whose version was bumped 1 to 15 times between the two states is read wholly old or wholly new |
| `MetadataLayout.BitmapTorn` | CHIME/include/LeafVersionManager.h:138-157 | an entry whose bitmap a write changes without a new version is read with each of the two bytes from before or after it, and with both from one side if they lie in one line |
| `LayoutOps.EncodeVersions` | CHIME/include/LeafVersionManager.h:81-95 | the encoding loop fills the output buffer with exactly the encoding of the input and returns its length |
| `LayoutOps.DecodeVersions` | CHIME/include/LeafVersionManager.h:35-52 | the decoding loop: it accepts exactly the buffers whose lines pass, and then outputs the decoded bytes |
| `LayoutOps.ScatterMetadata` | CHIME/include/MetadataManager.h:87-97 | the scattering loop fills the output buffer with exactly the scattered segment |
| `LayoutOps.ScatteredAgrees` | CHIME/include/MetadataManager.h:73-80 | a scattered segment meets the assert that all copies agree, and its first copy is the metadata |
| `LayoutOps.GatherMetadata` | CHIME/include/MetadataManager.h:65-83 | the gathering loop restores the entries of a scattered segment, tells whether the segment has a copy of the metadata, and returns the first |
| `LayoutOps.VersionPosIs` | CHIME/include/LeafVersionManager.h:141-157 | the index arithmetic for a hopped entry in a segment names the version byte of that entry |
| `LayoutOps.BumpHopped` | CHIME/include/LeafVersionManager.h:141-157 | exactly the versions of the hopped entries inside the segment are incremented, which `BumpTimesIs` gives a meaning |
| `LayoutOps.CheckNodeVersions` | CHIME/include/LeafVersionManager.h:53-64 | the joint check accepts exactly the nodes with one node version |
| `LayoutOps.CheckSegmentVersions` | CHIME/include/LeafVersionManager.h:212-228 | the joint check of a segment accepts exactly the segments with one node version, entries and copies of the metadata alike |
| `LockHandover.HandoverSafe` | CHIME/include/LocalLockTable.h:306-390 | in every run of any number of threads with colliding addresses: one thread inside at a time and it holds its remote lock; between holders the lock of `unique_addr`, and no other, is held iff the handover flag is set, and then a waiter exists; at most MAX_HOCL_HANDOVER + 1 handovers in a row |
| `LockHandover.NoDoubleLock` | CHIME/include/LocalLockTable.h:306-353 | no remote lock is taken while held or freed while not held |
| `LockHandover.HandsOverIff` | CHIME/include/LocalLockTable.h:333-342 | in every run, after a holder has decided, the handover flag is set if and only if another thread is queued and at most MAX_HOCL_HANDOVER handovers went before in a row |
| `LockHandover.Progress` | CHIME/include/LocalLockTable.h:306-353 | in every run, as long as threads want the lock, the one whose turn it is can take its next step, unless the remote lock it needs is held by another compute node |
| `LockHandover.ReleaseFormsAgree` | CHIME/include/LocalLockTable.h:330-390 | both address-based releases free the same locks, and the embedded one writes the data once |
| `LockHandover.LocalLockNode.constructor` | CHIME/include/LocalLockTable.h:63-65 | a fresh node has no ticket out and no handover |
| `LockHandover.LocalLockNode.FetchTicket` | CHIME/include/LocalLockTable.h:306-310 | taking a ticket in place is the arrival step of the system |
| `LockHandover.LocalLockNode.Poll` | CHIME/include/LocalLockTable.h:311-327 | the spin ends exactly when the ticket is served, modulo 2^32, and is then the entering step, handover verdict included |
| `LockHandover.LocalLockNode.DecideHandover` | CHIME/include/LocalLockTable.h:333-342 | the handover decision in place is the one `HandsOverIff` is about, counter included |
| `LockHandover.LocalLockNode.Release` | CHIME/include/LocalLockTable.h:330-353 | the in-place release is the three release steps of the system, and frees exactly the remote locks it unlocks |
| `Allocator.LiveBlocksDisjoint` | CHIME/include/LocalAllocator.h:22-58 | over any interleaving of clients, `DSM::alloc` calls, chunk fetches and frees, with every request fitting into every chunk after rounding up to its alignment, live blocks are pairwise disjoint, none touches chunk 0 and none goes past the last chunk handed out |
| `Allocator.AlignedFits` | CHIME/include/DSM.h:238-262 | where chunks start at multiples of the alignment, a request fits if and only if it is no larger than a chunk |
| `Allocator.OversizedOverlaps` | CHIME/include/DSM.h:238-262 | for every request that does not fit into the first chunk there is a run of two `DSM::alloc` calls whose live blocks overlap |
| `Allocator.DsmAllocate` | CHIME/include/DSM.h:238-262 | `DSM::alloc` on the two allocators in place: address, client and tail are those of the step, and running out of chunks is the failing assert |
| `Allocator.BumpAligned` | CHIME/include/LocalAllocator.h:25-35 | a block taken from the chunk is aligned |
| `Allocator.MallocIs` | CHIME/include/LocalAllocator.h:22-50 | malloc asks for a chunk if and only if no aligned place is left in its chunk and no free block is large enough; with room it hands out the least aligned place and moves just behind the block, without it the first free block that is large enough, which alone leaves the list |
| `Allocator.DsmAllocIs` | CHIME/include/DSM.h:238-262 | a chunk is fetched exactly when malloc has neither room nor a free block, the call fails exactly when there is none left, and the block is then the least aligned place of the new chunk |
| `Allocator.RetryFitsIff` | CHIME/include/DSM.h:238-262 | the retry after a chunk fetch stays inside the new chunk if and only if the block, rounded up to its alignment, fits into it |
| `Allocator.LocalAllocator.constructor` | CHIME/include/LocalAllocator.h:16-19 | no chunk and no free block |
| `Allocator.LocalAllocator.Malloc` | CHIME/include/LocalAllocator.h:22-50 | in-place allocation: bump first, then the first free block that fits, and otherwise a request for a chunk |
| `Allocator.LocalAllocator.Free` | CHIME/include/LocalAllocator.h:56-58 | freeing in place is the freeing step of the system |
| `Allocator.GlobalAllocator.constructor` | CHIME/include/GlobalAllocator.h:18-27 | chunk 0 is reserved |
| `Allocator.GlobalAllocator.FreeChunk` | CHIME/include/GlobalAllocator.h:55-57 | the bit of the chunk is cleared, every later chunk stays free and the tail never moves |
| `Allocator.GlobalAllocator.AllocChunk` | CHIME/include/GlobalAllocator.h:31-53 | the next chunk or running out; the second assert never fails |
| `ChimeInternal.SearchIsFloor` | CHIME/src/Tree.cpp:401-425 | in a node with records, the search returns the child whose range holds the key and the child after it, across the sibling pointer |
| `ChimeInternal.SplitFlat` | CHIME/src/Tree.cpp:1206-1255 | the children of the two nodes of a split are, in order, the children of the node and the new one |
| `ChimeInternal.SplitHeads` | CHIME/src/Tree.cpp:1256-1269 | fence keys, sibling pointers and `sibling_leftmost_ptr` form the chain again |
| `ChimeInternal.SplitIsMiddle` | CHIME/src/Tree.cpp:1212-1215 | the split key is that of a record, and half the records, rounded down, are below it |
| `ChimeInternal.SplitRoutes` | CHIME/src/Tree.cpp:1201-1269 | when both nodes keep a record, node-then-sibling sends every key, with its next child, where the unsplit node with the new separator would |
| `ChimeInternal.SplitRoutesIff` | CHIME/src/Tree.cpp:1201-1269 | routing survives for all keys if and only if the span is at least three, or is two and the new separator lies above the split key |
| `ChimeInternalLevel.InsertKeepsInv` | CHIME/src/Tree.cpp:1143-1198 | inserting into a level keeps nodes sound and the chain of siblings and leftmost children intact, and adds a node exactly when the one it inserts into is full |
| `ChimeInternalLevel.InsertIsShift` | CHIME/src/Tree.cpp:1143-1269 | inserting changes the ordered list of all children of the level by the new child only |
| `ChimeInternalLevel.WalkIsFloor` | CHIME/src/Tree.cpp:393-425 | from any node at or left of the key, the search that follows sibling addresses answers with the child for the key over the whole level and its successor |
| `ChimeInternalLevel.RunRoutes` | CHIME/src/Tree.cpp:1143-1269 | after any sequence of insertions, with whatever splits, the level is sound and every search answers as the ordered list of all separators does |
| `ChimeInternalOps.ShiftInsert` | CHIME/src/Tree.cpp:1244-1251 | shifting in place and storing the entry inserts it in front of the first greater key and touches nothing beyond |
| `ChimeInternalOps.InternalNode.constructor` | CHIME/src/Tree.cpp:1218-1220 | a new node has no records |
| `ChimeInternalOps.InternalNode.Find` | CHIME/src/Tree.cpp:411-425 | the loop over the array with its null entries returns the child and the next child of `Search` |
| `ChimeInternalOps.InternalNode.Insert` | CHIME/src/Tree.cpp:1175-1187 | in-place insertion into a node that is not full keeps the array packed and is `Shift` |
| `ChimeInternalOps.InternalNode.SplitNode` | CHIME/src/Tree.cpp:1206-1269 | the in-place split: node and new sibling are the two nodes of `Split`, arrays, fence keys and links included |
| `DMLeaf.Fingerprint` | DMTree/include/LeafNode.h:278-286 | no key has the fingerprint of an empty slot; every other hash is its own fingerprint |
| `DMLeaf.InsertKeeps` | DMTree/src/DMTree.cc:211-258 | inserting is a map update that keeps the leaf invariant; it asks for a resize exactly when the key is absent and no slot is empty |
| `DMLeaf.ResizeConserves` | DMTree/src/DMTree.cc:286-420 | for every sibling capacity not below the current one: no insert into table or entries fails, both leaves satisfy the invariant, their disjoint union is the old map plus the pair, divided at the new greatest key, with ranges, versions and right links as written |
| `DMLeaf.ResizeBalanced` | DMTree/src/DMTree.cc:322-333 | a sibling of the same capacity takes half the pairs, rounded up, and a larger one takes them all |
| `DMLeaf.AdaptCapacity` | DMTree/src/DMCache.cc:188-199 | leaves keep their capacity unless the cache is used up, and then double it up to 128; for capacities up to 128 the sibling is never smaller than the leaf |
| `DMLeafOps.FPTable.constructor` | DMTree/src/DMTree.cc:293-295 | a zeroed table |
| `DMLeafOps.FPTable.Search` | DMTree/include/LeafNode.h:180-188 | the first slot with a fingerprint |
| `DMLeafOps.FPTable.Insert` | DMTree/include/LeafNode.h:168-178 | the fingerprint goes to the first empty slot, if there is one |
| `DMLeafOps.FPTable.EntryNum` | DMTree/include/LeafNode.h:158-166 | the number of occupied slots |
| `DMLeafOps.LeafBuffer.constructor` | DMTree/src/DMTree.cc:340-347 | a zeroed sibling node |
| `DMLeafOps.LeafInsert` | DMTree/src/DMTree.cc:211-258 | in-place insertion under the table lock: entries and fingerprints become the leaf of `Insert`, and asking for a resize changes nothing |
| `DMLeafOps.Collect` | DMTree/src/DMTree.cc:301-320 | every valid entry is collected in slot order behind the new pair, and every entry is cleaned and moved to the next version |
| `DMLeafOps.FillSide` | DMTree/src/DMTree.cc:367-392 | the loop that hands pairs to an empty side with room for them never fails and packs them, in order, into the first slots |
| `DMLeafOps.LeafResize` | DMTree/src/DMTree.cc:286-399 | the in-place resize: the buffers are the two leaves of `Resize`, so all of `ResizeConserves` holds of them |
| `DMProtocolRuns.GrantedLive` | DMTree/src/DMTree.cc:184-209 | a writer that passed the version test under the lock works on an idle leaf whose range holds its key, also right after a resize released the lock before the parent was written |
| `DMProtocolRuns.StepKeeps` | DMTree/src/DMTree.cc:184-420 | every write of every writer, in any interleaving over any number of leaves, keeps the protocol invariant: entries, tables, versions, parent records and the map they stand for, which `DMWrites.StoreIsLog` reads off the steps, agree |
| `DMProtocolRuns.RunInv` | DMTree/src/DMTree.cc:184-420 | so does every run from the freshly created root |
| `DMSearch.RunLater` | DMTree/src/DMTree.cc:239-256 | while the version of a leaf lasts, fingerprints stay, slots keep their keys, and published records keep their ranges |
| `DMSearch.FoundIsHeld` | DMTree/src/DMTree.cc:60-94 | a value found is the value the key has when the entry is read, however old the cached record and the local fingerprint table |
| `DMSearch.MissIsAbsent` | DMTree/src/DMTree.cc:30-101 | a miss on the remote table means that the key was absent when that table was read |
| `DMSearch.SearchCorrect` | DMTree/src/DMTree.cc:7-101 | for every run and every search with its retries: a returned value was held, and a final miss was true, at some instant of the search |
| `DMSearch.FloorIsPath` | DMTree/src/DMTree.cc:45-58 | the record that a floor lookup in the parent level finds leads to the leaf of the key |
| `DMSearch.QuietLook` | DMTree/src/DMTree.cc:60-101 | while no writer is at the leaf one attempt with the current record decides, with the value or absence |
| `DMSearch.WriterAsserts` | DMTree/src/DMTree.cc:226-258 | the version assert of `leaf_insert` and the insert asserts of `leaf_resize` hold in every reachable state |
| `DMWrites.RunIsLabeled` | DMTree/src/DMTree.cc:211-420 | every run of the leaf protocol comes with a sequence of steps, so what is read off the steps holds of every run |
| `DMWrites.StoreIsLog` | DMTree/src/DMTree.cc:211-420 | in every run the store is the fold of the keys and values its steps carry, in the order in which their writes complete |
| `DMWrites.QuietAnswers` | DMTree/src/DMTree.cc:60-101 | while no writer is at the leaf, an attempt answers with the last value written to its key, or misses a key never written |
| `DMWrites.WriteShows` | DMTree/src/DMTree.cc:211-258 | right after a write of a key is complete such an attempt for that key answers with its value, and one for any other key as it would have before |
| `DMWrites.SearchAnswersWrites` | DMTree/src/DMTree.cc:7-101 | a search with all its retries, among concurrent writers, answers what was last written to its key at some instant of the search |
| `DMWrites.UpdateIsInsert` | DMTree/src/DMTree.cc:226-237 | rewriting an entry leaves the leaf of `DMLeaf.Insert` |
| `DMWrites.AddIsInsert` | DMTree/src/DMTree.cc:239-258 | so do the new entry and the fingerprint behind it, whatever happens to other leaves in between |
| `DMProgress.WritesComplete` | DMTree/src/DMTree.cc:184-420 | the leaf protocol never gets stuck: every run goes on to one in which all writers at work have finished and any given key holds any given value |
| `DMInner.PlaceKeeps` | DMTree/include/InnerTree.h:142-160 | insertion keeps a node packed, sorted and starting at its least key, replaces a record of equal key, and is refused exactly when the node is full and the key is new |
| `DMInner.FindIsGreatest` | DMTree/include/InnerTree.h:130-139 | the search takes the greatest record key at or below the query |
| `DMInner.SplitKeeps` | DMTree/src/DMInner.cc:331-373 | splitting a full node around a new record: no assert fails, both nodes are sound and together hold the old records and the new one |
| `DMInner.SplitIsMiddle` | DMTree/include/InnerTree.h:163-177 | the new bound is the key of a record, and half the records, rounded down, are below it |
| `DMInnerLevel.StepKeeps` | DMTree/src/DMInner.cc:255-380 | record writes and both writes of a split, in any interleaving over a level, keep it tiled, linked and equal to the directory of records written |
| `DMInnerLevel.RunInv` | DMTree/src/DMInner.cc:255-380 | so does every run |
| `DMInnerLevel.WalkFindsFloor` | DMTree/src/DMInner.cc:84-123 | a search with right-moves among concurrent inserts and splits takes, whenever it ends, the greatest record key at or below the query over the whole level at that moment; it never meets a missing sibling |
| `DMInnerLevel.UpdateAsserts` | DMTree/src/DMInner.cc:282-287 | the asserts of `inner_write` hold: the node of the new record already holds the record of the resized leaf |
| `DMInnerLevel.InitInv` | DMTree/src/DMInner.cc:45-58 | a new root with its first record is a sound level |
| `DMProtocol.InitInv` | DMTree/src/DMInner.cc:15-58 | a new root leaf with its record satisfies the protocol invariant |
| `DMTree.StepKeeps` | DMTree/src/DMTree.cc:401-420 | leaves and bottom level together: a resize is published by the inner node write that carries its two records, in one write or as the second write of an inner split, and the parent map of the leaf protocol stays the directory of the level |
| `DMTree.PublishAsserts` | DMTree/src/DMInner.cc:282-287 | in every reachable state, whichever bottom node covers the record of a new leaf also covers and holds the record of the leaf that was resized |
| `DMTree.RunProjects` | DMTree/src/DMInner.cc:297-328 | a run of the tree is a run of its leaves and a run of its bottom level |
| `DMTree.DescentLeads` | DMTree/src/DMInner.cc:155-219 | a walk along the bottom level, among concurrent splits, yields a record that leads to the leaf of the key |
| `DMTree.ReadCorrect` | DMTree/src/DMInner.cc:155-219 | a read that walks the bottom level from a node read there earlier, as cached descents do, and searches leaves, with all its retries and stale copies, returns a value the key had during the read, or misses a key that was absent during the read |
| `DMDescent.StepKeeps` | DMTree/src/DMInner.cc:297-425 | all levels together: leaf writes, record writes and splits on any level, the records that splits owe to the level above, and new roots, in any interleaving; every record above the bottom names a node of the level below with that least key |
| `DMDescent.RunInv` | DMTree/src/DMInner.cc:297-425 | so does every run from a new tree |
| `DMDescent.RootRecords` | DMTree/src/DMInner.cc:383-425 | the two insertions of `update_root` are not refused and give a root that starts with the old one |
| `DMDescent.LevelRuns` | DMTree/src/DMInner.cc:255-373 | each level, from its creation on, is a run of the level protocol |
| `DMDescent.Reaches` | DMTree/src/DMInner.cc:126-153 | a descent from the root pointer enters every level at a node whose least key is at or below the query, and `next_is_leaf` is set exactly on the bottom level |
| `DMDescent.ReadCorrect` | DMTree/src/DMTree.cc:555-594 | end to end from the root pointer: whatever writers do to leaves and all inner levels meanwhile, a read with all its retries returns a value the key had during the read, or misses a key that was absent during the read |
| `DMDescent.ReadAnswersWrites` | DMTree/src/DMTree.cc:555-594 | and so every such read answers what was last written to its key at some instant of the read, read off the steps of the run |
| `DMDeadlock.NoDeadlock` | DMTree/src/DMInner.cc:255-425 | in every state of every run of the whole tree, each write of a leaf, split of a node and record owed to the level above has an enabled step that changes the tree, or waits for the split of the node it needs, or for a new root, that has |
| `DMInnerOps.InnerNode.constructor` | DMTree/src/DMInner.cc:341-342 | an empty node |
| `DMInnerOps.InnerNode.SortNode` | DMTree/include/InnerTree.h:116-127 | the valid records end up sorted |
| `DMInnerOps.InnerNode.Insert` | DMTree/include/InnerTree.h:142-160 | in-place insertion with its sort: the array packs the records `Place` gives, and a refusal changes nothing |
| `DMInnerOps.InnerNode.Search` | DMTree/include/InnerTree.h:130-139 | the loop over the array returns the greatest record key at or below the query |
| `DMInnerOps.InnerNode.SplitOff` | DMTree/include/InnerTree.h:163-177 | the upper half of a full node leaves it, in order, and the lower half stays packed |
| `DMInnerOps.InnerNode.TakeIn` | DMTree/include/InnerTree.h:178-186 | an empty sibling packs the records that left the origin |
| `DMInnerOps.InnerNode.NodeSplit` | DMTree/src/DMInner.cc:331-373 | the in-place split of a full node: both arrays pack the two nodes of `SplitNode`, and its asserts hold |

## Left out
- RDMA verbs, queue pairs, coroutines, keepers, directory RPC and huge pages: remote memory is a map with atomic reads and writes of the units named above.
- Key-based read delegation and write combining of the local lock table.
- The caches of both indexes; a cached record or table is any record or table that existed earlier.
- Arithmetic on decimal-ASCII keys: keys are numbers with a successor.
- The doubles of `find_bucket` and `get_idx_range_in_bucket`: they are taken as exact quotients.
- Fence keys of CHIME leaves, which the scattered metadata drops; the ranges of a chain are part of its model.
- Levels of the CHIME tree above the bottom one: a descent reaches any node of the bottom level at or left of its key. The first internal node is created by the first leaf split.
- In DMTree a writer whose split of the root another writer's new root has overtaken fails the assert of `update_root` (DMTree/src/DMInner.cc:403); the model lets it insert its record into the new level instead.
- Speculative reads of CHIME and their cache of slot indexes.
- Range queries, scans, deletion and the variable-length value path.
- The FPTree and ROLEX copies of the same code.
- Hash functions and checksums: hashes are arbitrary functions, and a checksum that matches means an atomic read.
- Unordered internal nodes, an option of CHIME that is off by default.
- Widths of counters: versions of DMTree leaves, allocator offsets and handover counts are unbounded numbers.
- Whether retry and spin loops end under every schedule: a search is any finite number of attempts, and progress means that a step is enabled.
- LockHandover.HandoverSafe: assumes fewer than 2^32 threads queued at one lock node, so that tickets do not wrap onto each other.
- MetadataLayout.SegmentNotTorn: compares the states just before and just after one whole-node write.
- VersionLayout.NodeNotTorn: compares the states just before and just after one write, since versions wrap modulo 16.
- HopscotchTorn.TornBytesIff: is about one insert in flight.
- HopscotchRead.TornReadSound: is about one insert in flight and a read of one neighbourhood; reads torn across several inserts are not modelled.
- ChimeChain.RunKeeps: operations one after the other; the invalidation of cached inner nodes only restarts an operation.
- ChimeTree.RunInv: every leaf operation is one step, and an insert that would store a present key twice or an update that would leave a wrong lock word does not take part.
- ChimeOps.UpdateNodeKeepsIff: the word left in a lock buffer is any lock word; which one the ring of buffers holds is not modelled.
- ChimeInternalLevel.RunRoutes: levels of span three or more, one insertion after the other; concurrent readers are modelled for DMTree levels only.
- DMDescent.ReadCorrect: a descent from a cached bottom node starts from an address and a least key read there at an earlier time.
