# A verified model of littlefs, the memory heap and the kernel's queues

This Dafny project models the parts of the repository that other code has to be able to trust blindly: the power-safe
file system littlefs, the heap that serves every allocation, and the message queue, mailbox and scheduler of the
RT-Thread kernel. `dafny verify dfyconfig.toml` checks all of it.

The parts that change state in place are classes and methods with loops, as in the C sources; each method is proved
against a specification function or states its new state outright, and the lemmas beside it prove what that
specification is worth.

How the modules hang together:

- **Basics.** `Words` (32-bit words, exclusive-or, alignment, byte order), `Sequences`, `Wrappers`.
- **The metadata log.** `Tags` and `MetadataLog` define tags, the exclusive-or chain on disk and two meanings of a log:
  replaying it from the front and walking it back. `Lookup` refines the backward walk to the lookup on a block's
  bytes. `Compaction` proves that the filtered rewriting of a log means the same; `Traverse` is the traversal itself.
- **Commits and power loss.** `Crc32` is the table-driven checksum. `Commit` appends tags and checksums to a block.
  `Fetch` scans blocks, `EntryCount` says what the number of entries it counts means. `PowerLoss` and `PairUpdate` cut a
  commit or a compaction off at every byte and show what a fetch finds then. The one assumption is that an incomplete
  commit fails its checksum (`NoFalseCommit`). `Recovery` joins all of this: from pending attributes through traversal and
  commit to a cut, a fetch and a lookup, and for `lfs_dir_commit` as a whole, an attempt in place and the compaction it
  may end in (`DirCommitIsAtomic`).
- **Files.** `CtzMath` is the arithmetic of the backward skip list, `CtzList` its search, traversal and extension.
- **Blocks.** `BlockCache` is the read and program cache in front of flash, `Lookahead` the block allocator.
- **Global state.** `GlobalState` keeps a quantity spread over all directories.
- **The heap.** `Rings` and `HeapShape` hold the facts about doubly linked rings and block lists that `Memheap` needs;
  links are explicit maps over integer addresses.
- **The kernel.** `MessageQueue` and `Mailbox` are step relations over critical sections, run in any order. `Ffs` and
  `Scheduler` are the priority bitmap and the ready lists.

## Where the code does not keep a promise

Each of these is a theorem: the property with its exact condition, and mostly the cases in which it fails.

- The skip-list arithmetic is wrong from position 805306368 on for blocks of 104 bytes, which
  `packages/littlefs-latest/DESIGN.md:702` names as the minimum and the assertion in `lfs_init` admits. 32-bit positions
  are all right exactly from 116 bytes on, positions up to the largest file exactly from 112 on
  (`CtzMath.SafeBlockSizes`).
- `lfs_dir_getslice` does not shorten the copied length by its offset, so a slice can run past the attribute
  (`Lookup.SliceExactIffInside`).
- While an entry is being moved out of a directory, `lfs_dir_getslice` shifts the wrong ids: it compares the id asked for
  with the moved one the other way round (`lfs.c:507`), so that only the moved id itself reads the right entry
  (`Lookup.MovedLookups`).
- A commit that drops its directory while a move out of it is pending loses track of the global state
  (`GlobalState.FileSystem.CommitByDropping`), and so does one that falls back to compaction after merging the
  directory's own share, by exactly that share (`GlobalState.FileSystem.Commit`, `ShareLost`).
- A commit torn within its first word can be reported as erased flash. The condition is exact, and cannot arise with
  program units of four bytes or more (`PowerLoss.TornTailLooksErased`, `TornTailIsSeen`). On erased flash one or two
  bytes of any commit are enough if the last CRC tag is short and the block nearly full (`PowerLoss.FewBytesLookErased`).
- Compaction loses the removal of an attribute exactly if the same commit sets it before in a group of attributes and
  has another tag after it (`Compaction.Loses`, `CompactionPreservesMeaning`); no caller in the repository commits such
  a list (`DeletionsFirstLosesNothing`).
- Unvalidated programs followed by a validated flush leave a stale read cache exactly if they fill whole caches and
  change a byte it shows (`BlockCache.BlockDevice.RunAndFlush`, `StaleRead`). A read with hint 0 at an aligned offset
  makes no progress (`BlockCache.BlockDevice.LoadCovers`).
- The allocator's window slots are right exactly up to 2^31 blocks (`Lookahead.SlotsSafe`). `lfs_mount` places the
  first window by a remainder of the block size instead of the block count (`lfs.c:3702`); the proofs hold for any
  starting point.
- The heap rounds sizes above 0xfffffffc to a small number (`Memheap.AlignedCovers`), and the test for growing in place
  wraps above 0xfffffff3 (`Memheap.GrowTest`): with a free block behind, such a call overwrites its own block's header
  (`Memheap.Heap.GrowthWraps`).
- "The k-th ready thread runs within k + 1 calls" holds exactly if the running thread is not more urgent than the
  list (`Scheduler.Cpu.Turns`).

## Model

| member | source | states |
|---|---|---|
| Words.WordRoundTrip | packages/littlefs-latest/lfs_config.h:112-157 | a 32-bit word written big or little endian reads back as itself |
| Words.AlignDown | packages/littlefs-latest/lfs_config.h:60-62 | the multiple of `m` in the half-open interval of length `m` that ends at `a` |
| Words.AlignUp | packages/littlefs-latest/lfs_config.h:64-66 | the multiple of `m` in the half-open interval of length `m` that begins at `a` |
| Tags.FieldsOfMkTag | packages/littlefs-latest/lfs.c:266-306 | packing type, id and size into a tag word and taking them apart again is lossless, whatever the top bit; the size on disk is 4 plus the payload, which a deletion (0x3ff) does not have |
| Tags.MkTagOfFields | packages/littlefs-latest/lfs.c:266-306 | the other direction: the three fields determine every word but its top bit |
| MetadataLog.InsertAt | packages/littlefs-latest/lfs.c:526-537 | a create splice shifts every id from its own on up by one and leaves a new, empty entry there |
| MetadataLog.RemoveAt | packages/littlefs-latest/lfs.c:526-537 | a delete splice drops its entry and shifts every larger id down by one |
| MetadataLog.WriteAt | packages/littlefs-latest/lfs.c:1195-1238 | any other tag adds to the entry of its id and to no other |
| MetadataLog.BackScanIsReplay | packages/littlefs-latest/lfs.c:513-556 | for every log, starting directory, type mask and id: walking the log backwards with the id adjusted at each splice finds what replaying the log from the front leaves as the newest attribute of that entry |
| MetadataLog.BackScanConcat | packages/littlefs-latest/lfs.c:513-556 | a backward walk over two logs in a row is the walk over the second continued on the first |
| MetadataLog.ReplayConcat | packages/littlefs-latest/lfs.c:500-559 | replaying two logs in a row is replaying the second on what the first leaves |
| MetadataLog.EncodeConcat | packages/littlefs-latest/lfs.c:1195-1238 | the bytes of two logs in a row are the bytes of the first and then those of the second, keyed by the last tag of the first |
| MetadataLog.ReadTag | packages/littlefs-latest/lfs.c:517-524 | in a block holding a log, the word at each tag's offset is the tag exclusive-ored with its predecessor (0xffffffff before the first), and its payload follows |
| MetadataLog.DecodeForward | packages/littlefs-latest/lfs.c:819-820 | exclusive-or of a stored word with the previous tag gives the tag |
| MetadataLog.DecodeBackward | packages/littlefs-latest/lfs.c:524 | exclusive-or of a stored word with the tag itself gives the previous tag, up to the top bit |
| Lookup.StepBack | packages/littlefs-latest/lfs.c:514-524 | the word carried backwards is, up to its top bit, the tag in front of the cursor: its type, id and size are right, and exclusive-or with the word stored at its offset gives the tag before it |
| Lookup.AroundSplice | packages/littlefs-latest/lfs.c:526-537 | the id shift the loop keeps is the distance between the id asked for and the id the entry had at this point of the log; it stops exactly at the creation of the entry |
| Lookup.LoopGuard | packages/littlefs-latest/lfs.c:514 | the offset test of the loop fails exactly when no tag is left |
| Lookup.FindTag | packages/littlefs-latest/lfs.c:500-556 | the walk stops on the tag that answers the request, with the id shift between then and now, or finds none exactly if the log has no answer |
| Lookup.GetSlice | packages/littlefs-latest/lfs.c:500-559 | refinement: NOENT exactly if replaying the log from the front leaves no live attribute of that type and id; otherwise the tag returned has the type and size replay gives and the id asked for, and every buffer byte inside the attribute is the replayed byte; CORRUPT exactly if the bytes to copy, from where the attribute lies, pass the end of the block; while an entry is being moved away, all this for the id one up if the id is not above the moved one |
| Lookup.MovedLookups | packages/littlefs-latest/lfs.c:507-511 | while an entry is being moved away, lookups read the directory without it for the moved id itself and for ids past the end, and for no other id in all directories: below it they read the next entry, above it the entry before the one meant |
| Lookup.SliceExactIffInside | packages/littlefs-latest/lfs.c:544-552 | the bytes handed out are the requested slice on every block if and only if the slice lies inside the attribute or begins at its start: the copied length is not reduced by the offset |
| Lookup.IdsFitWhenFewDeletes | packages/littlefs-latest/lfs.c:526-537 | a sufficient condition for the ids met on the walk to fit ten bits: the id plus the number of deletions in the log does |
| Lookup.IdsFitInSmallDirs | packages/littlefs-latest/lfs.c:526-537 | the ids met on the walk fit ten bits for every existing entry of a log whose tags name existing entries and whose directories never have more entries than there are ids; entries may come in any order up to the first splice, as a compaction writes them |
| Compaction.SurviveIsBackScan | packages/littlefs-latest/lfs.c:629-655 | a tag passes the filter against what follows it, ending with id j, if and only if the backward walk for j over what follows meets nothing newer and comes down to the tag's id |
| Compaction.DiskKinds | packages/littlefs-latest/lfs.c:698-701 | a compaction selects the types below 0x400 but not the in-memory sources 0x100 to 0x1ff, a move the types 0x200 to 0x3ff; attributes from 0x300 on are told apart by the whole type, all others by the type without chunk |
| Compaction.CompactionPreservesMeaning | packages/littlefs-latest/lfs.c:657-756 | for every log, list of pending attributes (plain, moves from other directories, attribute lists, no-ops), pending move and id range: replaying what is written for [begin, end) shifted by -begin holds for every entry and every type below 0x400 that is not an in-memory source what replaying the whole log and the attributes holds, if and only if the pending list does not lose it; what is lost was removed by the commit and is held again afterwards |
| Compaction.ItemsOutcome | packages/littlefs-latest/lfs.c:698-753 | the exact loss: walking what is emitted for the pending list finds a live attribute where walking the list itself finds its removal, exactly if a group in the list sets the attribute for the entry that ends up with this id, the newest later record is its removal, and that removal is not the very last tag; otherwise the two walks agree |
| Compaction.DeletionsFirstLosesNothing | packages/littlefs-latest/lfs.c:698-753 | a list that removes attributes only before its groups loses nothing, whatever entry and type |
| Compaction.CompactionWritesNothingElse | packages/littlefs-latest/lfs.c:657-756 | the compacted log holds nothing for any id outside the shifted range |
| Compaction.MoveCarriesEntry | packages/littlefs-latest/lfs.c:728-739 | a FROM_MOVE attribute gives its target entry what the source directory holds for the moved entry, for every type from 0x200 to 0x3ff |
| Compaction.MoveLeavesRest | packages/littlefs-latest/lfs.c:728-739 | it leaves the target's name and all other entries as they were |
| Compaction.UserAttrsSet | packages/littlefs-latest/lfs.c:740-748 | a list of user attributes sets each of them to its last value in the list and leaves all others alone |
| Compaction.DeletionAfterGroupIsLost | packages/littlefs-latest/lfs.c:657-756 | the smallest loss: an attribute list, the removal of its attribute, one more tag; without the last tag nothing is lost |
| Traverse.FilterStep | packages/littlefs-latest/lfs.c:629-655 | one call of the filter on tag words agrees with the filter on tags: redundant or not, and the id after a splice |
| Traverse.FilterTags | packages/littlefs-latest/lfs.c:629-655 | the callback over a list of tags computes whether the tag survives them and its final id |
| Traverse.FilterDisk | packages/littlefs-latest/lfs.c:668-681 | the inner traversal over the rest of the log on disk filters against exactly the remaining tags |
| Traverse.FilterPending | packages/littlefs-latest/lfs.c:682-696 | the inner traversal over the attributes still to come filters against the tags they stand for and the deletion of a pending move |
| Traverse.Filter | packages/littlefs-latest/lfs.c:703-717 | the inner traversal filters against everything that follows the tag |
| Traverse.ReadNext | packages/littlefs-latest/lfs.c:668-681 | reading forward yields the next tag of the stored log with its payload |
| Traverse.EmitOne | packages/littlefs-latest/lfs.c:698-753 | one tag of the log is passed on exactly when it is selected, survives and lies in range, with its id shifted |
| Traverse.EmitDisk | packages/littlefs-latest/lfs.c:657-756 | the loop over the log on disk emits exactly the surviving tags in order |
| Traverse.EmitFirst | packages/littlefs-latest/lfs.c:682-753 | a pending attribute is emitted as its kind asks: as it is, expanded from another directory, expanded from a list, or not at all |
| Traverse.EmitPending | packages/littlefs-latest/lfs.c:682-753 | the loop over the pending attributes emits what each stands for |
| Traverse.TraverseCompact | packages/littlefs-latest/lfs.c:657-756 | the whole traversal, over the bytes of a block, emits exactly the compacted log of CompactionPreservesMeaning |
| Traverse.TraverseInPlace | packages/littlefs-latest/lfs.c:1746-1750 | the traversal of an in-place commit emits exactly the tags the pending attributes stand for |
| Traverse.RoomInSmallDirs | packages/littlefs-latest/lfs.c:629-655 | the id arithmetic of the filter stays inside ten bits for the tags of every log, compacted or moved from, whose directories never have more entries than there are ids |
| Traverse.PendingRoomInSmallDirs | packages/littlefs-latest/lfs.c:698-753 | so does it for the pending attributes, if groups name entries that exist or the next one |
| Crc32.TableEntry | packages/littlefs-latest/lfs_crc.c:5-10 | each of the 16 table entries is four steps of the bit-at-a-time division of its index by the reflected polynomial 0xedb88320 |
| Crc32.CrcByte | packages/littlefs-latest/lfs_crc.c:15-16 | two table steps are eight bit steps |
| Crc32.LfsCrc | packages/littlefs-latest/lfs_crc.c:4-20 | the loop computes the bit-at-a-time CRC of section 8 of RFC 1952 without its complements, for every start value and buffer |
| Crc32.CrcConcat | packages/littlefs-latest/lfs_crc.c:4-20 | the CRC of two buffers in a row is the CRC of the second begun with that of the first |
| Crc32.LeRoundTrip | packages/littlefs-latest/lfs.c:1269-1273 | the checksum survives being stored as four little-endian bytes |
| Crc32.LowByteFirst | packages/littlefs-latest/lfs.c:1269-1273 | the checksum is stored low byte first: byte k is bits 8k to 8k + 7 of the register |
| Crc32.SameXor | packages/littlefs-latest/lfs_crc.c:15-16 | exclusive-or of registers is that of the numbers they stand for, on any number of low bits |
| Crc32.ResidueZero | packages/littlefs-latest/lfs.c:1292-1313 | any data followed by its own checksum in little-endian order has checksum 0, whatever the start value |
| Crc32.CrcInjective | packages/littlefs-latest/lfs_crc.c:4-20 | different start values stay different over any data |
| Crc32.CrcOfWord | packages/littlefs-latest/lfs_crc.c:4-20 | up to four bytes act on the checksum through one exclusive-or with their little-endian value |
| Crc32.BurstDetected | packages/littlefs-latest/lfs_crc.c:4-20 | buffers of equal length that differ only inside four consecutive bytes never have the same checksum |
| Commit.Writer.InPlace | packages/littlefs-latest/lfs.c:1732-1742 | the state of an in-place commit continues the fetched log behind its last CRC tag |
| Commit.Writer.Compacting | packages/littlefs-latest/lfs.c:1521-1555 | the state of a compaction begins on an erased block with the revision count as its only bytes |
| Commit.Writer.CommitAttr | packages/littlefs-latest/lfs.c:1195-1238 | appends exactly the tag to the stored log and to the running checksum, or reports NOSPC exactly when tag and payload would pass `end` and changes nothing; no other byte of the block changes |
| Commit.FooterEnd | packages/littlefs-latest/lfs.c:1250-1254 | a CRC tag ends inside the goal, is no longer than the size field allows, and leaves room for another tag and checksum or ends at the goal |
| Commit.FooterEndLargest | packages/littlefs-latest/lfs.c:1250-1254 | no CRC tag could end further behind without passing the goal or the size field, or leaving too little room for another |
| Commit.Writer.WriteFooter | packages/littlefs-latest/lfs.c:1249-1284 | one turn: the log grows by one CRC tag whose stored checksum closes the segment, the padding is untouched, and what follows does not read as a tag |
| Commit.Writer.WriteFooters | packages/littlefs-latest/lfs.c:1241-1284 | the loop terminates and its CRC tags tile [commit.off, end) without gap or overlap; there are exactly as many as tags of at most 0x402 bytes need |
| Commit.SegmentResidue | packages/littlefs-latest/lfs.c:1292-1313 | every segment, checksum included, has checksum 0 |
| Commit.SegmentNext | packages/littlefs-latest/lfs.c:1315-1320 | the verify loop's own arithmetic leads from each segment to the one written next |
| Commit.Writer.VerifySegments | packages/littlefs-latest/lfs.c:1292-1321 | the verify loop visits exactly the segments written, in order, and reports an error exactly if the checksum of some segment, over the bytes read back, is wrong |
| Commit.WriteErrorSeen | packages/littlefs-latest/lfs.c:1292-1313 | bytes that were programmed wrong within four in a row, anywhere in a segment, make its checksum wrong |
| Commit.Writer.CommitCrc | packages/littlefs-latest/lfs.c:1240-1324 | whenever `off <= block_size - 8`: the commit ends on the first program boundary with room for a tag and a checksum, inside the block; its CRC tags tile the way there; all segments are verified; nothing before or behind is touched |
| Commit.FooterStops | packages/littlefs-latest/lfs.c:1256-1282 | the valid bit is chosen from the erased state behind the footer so that those bytes, keyed by the footer, do not read as a tag |
| Fetch.StepOverTag | packages/littlefs-latest/lfs.c:803-942 | scanning the last tag of a stored log moves the cursor just behind it, and accepts exactly if it is a CRC tag |
| Fetch.ScanOverLog | packages/littlefs-latest/lfs.c:790-942 | scanning a block from its start passes over the whole stored log and has accepted everything up to its last CRC tag |
| Fetch.FetchFindsLog | packages/littlefs-latest/lfs.c:784-968 | a log that ends in a CRC tag with nothing readable behind it is found exactly: offset, last tag, entry count, tail and split flag; the rest is offered for appending exactly on a program boundary inside the block |
| Fetch.ScanBlock | packages/littlefs-latest/lfs.c:790-942 | the scanning loop computes the recursive scan specification over the bytes of a block |
| Fetch.FetchPair | packages/littlefs-latest/lfs.c:766-972 | both blocks are tried in the order the signed difference of their revision counts gives, the second only if the first holds no commit |
| EntryCount.CountsEntries | packages/littlefs-latest/lfs.c:890-905 | for every log whose tags name existing entries, or open them with a name, the entry count of a fetch is the number of entries that replaying the log leaves |
| EntryCount.CompactionCounts | packages/littlefs-latest/lfs.c:1557-1625 | after a compaction of [begin, end) whose last entry has a name, the count is end - begin, whatever tags go beside the entries |
| PowerLoss.NothingAccepted | packages/littlefs-latest/lfs.c:822-850 | if no further checksum is accepted, the scan keeps what it had; the rest counts as erased exactly if the first word behind it does not read as a tag that fits |
| PowerLoss.FootersChangeNothing | packages/littlefs-latest/lfs.c:1240-1324 | CRC tags leave the directory as it is: entries, count, tail and split flag |
| PowerLoss.TornKeeps | packages/littlefs-latest/lfs.c:1732-1791 | a block torn at any byte stores the old log, or the new one up to its last complete checksum |
| PowerLoss.InPlaceCommitIsAtomic | packages/littlefs-latest/lfs.c:758-978 | for every cut point of an in-place commit the scan finds exactly the old log before the first complete checksum and a log with the new directory from there on, never a mix; once a whole word was programmed, an unfinished commit is not offered as erased |
| PowerLoss.TornTailLooksErased | packages/littlefs-latest/lfs.c:822-828 | a partly programmed tail is offered as erased if and only if fewer than four of its bytes were programmed and the tag they seem to form would not fit the block |
| PowerLoss.TornTailIsSeen | packages/littlefs-latest/lfs.c:822-828 | with program units of four bytes or more a torn tail is never offered as erased |
| PowerLoss.FewBytesProgrammed | packages/littlefs-latest/lfs.c:819-828 | one or two new bytes in front of erased bytes read as a tag whose size is the complement of the previous tag's size |
| PowerLoss.FewBytesLookErased | packages/littlefs-latest/lfs.c:812-828 | on erased flash, for every commit cut off after its first or second byte: the rest is offered as erased if and only if the complement of the last tag's size, with the word itself, is more than the block has left; that it is offered then needs no assumption on checksums |
| PairUpdate.CommitTags | packages/littlefs-latest/lfs.c:1744-1777 | committing a list of tags appends exactly those, or fails with NOSPC exactly if they do not fit |
| PairUpdate.CommitInPlace | packages/littlefs-latest/lfs.c:1732-1791 | appending tags and CRC tags leaves the block in the state InPlaceCommitIsAtomic assumes, or NOSPC exactly if there is no room; in every outcome the log that was there is untouched up to its last byte |
| PairUpdate.WriteCompacted | packages/littlefs-latest/lfs.c:1521-1620 | a compaction leaves the revision count, the tags and the closing CRC tags on the erased block, or NOSPC exactly if there is no room |
| PairUpdate.CompactionIsAtomic | packages/littlefs-latest/lfs.c:1521-1629 | for every cut point of a compaction to the other block of the pair, fetching the pair finds the old log before the first complete checksum and the new directory from there on; the old block may end in a torn or unfinished commit, as long as that fails its checksum |
| PairUpdate.EraseIsSafe | packages/littlefs-latest/lfs.c:1540-1549 | before and during the erase of the other block, the pair reads as the old log: whether the other block still holds the generation before, committed or not, or anything in which no commit is found |
| PairUpdate.CleanTailIsSealed | packages/littlefs-latest/lfs.c:822-850 | a block with nothing readable behind its log meets that condition without any assumption on checksums |
| PairUpdate.TriedIsSealed | packages/littlefs-latest/lfs.c:1732-1805 | so does a block on which an attempt in place was given up or cut off at any byte, if what is incomplete fails its checksum |
| Recovery.CompactedIsCommittable | packages/littlefs-latest/lfs.c:1412-1428 | what a compaction emits are valid tags that a commit accepts, for every range of ids below 0x400 |
| Recovery.PendingIsCommittable | packages/littlefs-latest/lfs.c:1425-1428 | so are the tags that pending attributes stand for |
| Recovery.CommitPending | packages/littlefs-latest/lfs.c:1732-1791 | the in-place path from the pending attributes to the block: traversal, tags and checksums leave a commit of exactly what the attributes stand for, or NOSPC exactly if it does not fit; what was on the block before stays in either case |
| Recovery.CompactPending | packages/littlefs-latest/lfs.c:1521-1620 | the compaction from the pending attributes to the block: traversal with filter, tags and checksums leave exactly the compacted log, or NOSPC exactly if it does not fit |
| Recovery.InPlaceMeaning | packages/littlefs-latest/lfs.c:758-978 | for every cut point of an in-place commit the log found replays to the directory before, or to the one the commit asked for |
| Recovery.CompactedMeaning | packages/littlefs-latest/lfs.c:758-978 | for every cut point of a compaction, of an old block with or without a torn tail, the pair reads as the old log, or every entry and type that is not lost holds what the commit asked for |
| Recovery.ReadAfterCommit | packages/littlefs-latest/lfs.c:500-978 | fetch and lookup on the bytes of a block cut off at any byte of an in-place commit return what replaying the old log holds, or what replaying it with every pending attribute holds, for every entry of a directory that ids can name |
| Recovery.ReadAfterCompaction | packages/littlefs-latest/lfs.c:500-978 | fetch and lookup on a pair cut off at any byte of a compaction return what entry j held before, or, under its shifted id, what the commit asked for |
| Recovery.DirCommit | packages/littlefs-latest/lfs.c:1732-1805 | the whole commit of a directory: in place exactly if the rest of the block invites it and the attributes fit, otherwise by rewriting the other block, also behind the bytes a failed attempt has left; NOSPC exactly if neither has room; the log that was there stays on its block |
| Recovery.DirCommitIsAtomic | packages/littlefs-latest/lfs.c:1732-1805 | over all of it, power lost at any byte of the attempt, of the erase or of the rewriting: the pair reads as one log, and every entry and type that is not lost holds what it held before the call, as long as the first checksum is not complete, and what the call asks for from then on |
| Recovery.ReadAfterDirCommit | packages/littlefs-latest/lfs.c:500-978 | and a fetch and a lookup on the bytes of that pair return exactly this |
| CtzMath.CtzBack | packages/littlefs-latest/lfs.c:2146-2161 | 2^s never passes block 0 for s up to ctz(n), and stepping back 2^s blocks from n lands on a block with exactly s trailing zeros for s < ctz(n), more for s = ctz(n) |
| CtzMath.PointersClosed | packages/littlefs-latest/lfs.c:2120-2131 | the blocks 1..m hold 2m - popc(m) pointers in all |
| CtzMath.BeginCounts | packages/littlefs-latest/lfs.c:2120-2131 | where block k begins is k block sizes less four bytes for each pointer before it |
| CtzMath.NoUnderflow | packages/littlefs-latest/lfs.c:2120-2131 | for every size of a block or more, the subtraction in lfs_ctz_index does not underflow |
| CtzMath.IndexIsExact | packages/littlefs-latest/lfs.c:2120-2131 | for every block size of at least 16 and every position below FirstWrong(block size), the computed block and offset are where summing the per-block capacities puts that position |
| CtzMath.IndexIsWrong | packages/littlefs-latest/lfs.c:2120-2131 | FirstWrong(block size) = 2^(b/4-1) * b with b = block size - 8 is the first position for which they are not |
| CtzMath.SafeBlockSizes | packages/littlefs-latest/lfs.c:3388-3390 | no 32-bit position is wrong if and only if the block size is at least 116, none up to the largest file if and only if it is at least 112; with the minimum the documentation names and the assertion admits, 104, position 805306368 is the first wrong one |
| CtzMath.LocatesOnce | packages/littlefs-latest/lfs.c:2120-2131 | at most one block and offset hold a position |
| CtzMath.IndexMono | packages/littlefs-latest/lfs.c:2120-2131 | the block index never decreases with the position |
| CtzMath.Npw2 | packages/littlefs-latest/lfs_config.h:69-83 | the portable steps find r with 2^(r-1) < a <= 2^r for every a of at least 2 |
| CtzList.HopShrinks | packages/littlefs-latest/lfs.c:2146-2161 | every hop to a pointer that exists and does not overshoot shrinks the hop budget |
| CtzList.Find | packages/littlefs-latest/lfs.c:2133-2166 | on every well-formed list: only existing pointers are read, the block and offset found hold byte `pos`, and the hops are at most 2 log2(d) + 1 for a distance of d blocks |
| CtzList.Traverse | packages/littlefs-latest/lfs.c:2269-2310 | the callback is given every block of the list exactly once, from the head down |
| CtzList.ReverseLists | packages/littlefs-latest/lfs.c:2269-2310 | visiting a list from its head down is visiting each of its blocks as often as it occurs, at mirrored places |
| CtzList.CopyBlock | packages/littlefs-latest/lfs.c:2200-2220 | copies the used bytes of an unfinished block and touches no other block |
| CtzList.WritePointers | packages/littlefs-latest/lfs.c:2227-2254 | pointer j of the new block n names block n - 2^j for all j up to ctz(n), each read from the block the previous one names |
| CtzList.Extend | packages/littlefs-latest/lfs.c:2168-2267 | in both cases the new list is well-formed, its last block and the offset returned are where byte `size` belongs, all earlier bytes read the same; the old list and its bytes are untouched |
| CtzList.NextByte | packages/littlefs-latest/lfs.c:2196-2201 | a full last block means the next byte begins a new block behind its pointers, otherwise it follows in the same block |
| CtzList.ExtendedIsFile | packages/littlefs-latest/lfs.c:2168-2267 | programming one byte at the place returned makes a file one byte longer with the old bytes and that byte |
| Lookahead.SlotIsDistance | packages/littlefs-latest/lfs.c:437-447 | the slot computed for a block with 32-bit arithmetic is its distance from the window start around the ring, if and only if block - off + block_count does not wrap |
| Lookahead.SlotsSafe | packages/littlefs-latest/lfs.c:437-447 | all slots are right, whatever window and block, if and only if there are at most 2^31 blocks |
| Lookahead.Allocator.Mounted | packages/littlefs-latest/lfs.c:3701-3705 | the state after mounting: an empty window anywhere on the ring and a full budget |
| Lookahead.Allocator.Formatted | packages/littlefs-latest/lfs.c:3521-3527 | the state formatting starts from: a window of free blocks from block 0 |
| Lookahead.Allocator.Ack | packages/littlefs-latest/lfs.c:494-496 | a full budget again, counted from the next block to be looked at |
| Lookahead.Allocator.Mark | packages/littlefs-latest/lfs.c:437-447 | sets the bit of the window slot that stands for the block, if any, and no other |
| Lookahead.Allocator.MarkAll | packages/littlefs-latest/lfs.c:437-447 | after the traversal a slot of the window is marked exactly if its block was reported |
| Lookahead.Allocator.Refill | packages/littlefs-latest/lfs.c:480-487 | the next window begins where the last ended, within the budget, and is marked from a new scan |
| Lookahead.Allocator.AllLooked | packages/littlefs-latest/lfs.c:473-478 | with the budget used up every block of the device was handed out or reported since the acknowledgement |
| Lookahead.Allocator.Alloc | packages/littlefs-latest/lfs.c:449-492 | terminates with size - i <= ack <= block_count; a block returned was not handed out since the acknowledgement nor reported by the scan of its window; NOSPC means that every block was looked at since then and is one or the other |
| BlockCache.BlockDevice.LoadCovers | packages/littlefs-latest/lfs.c:78-88 | the piece loaded into the read cache stays inside block and cache, and holds the byte wanted if and only if the hint is positive or the offset is not aligned to the read size |
| BlockCache.BlockDevice.Load | packages/littlefs-latest/lfs.c:78-93 | a loaded read cache agrees with flash |
| BlockCache.BlockDevice.ReadSome | packages/littlefs-latest/lfs.c:41-94 | one turn of the loop yields flash overlaid by the program cache, and makes progress now or after one load |
| BlockCache.BlockDevice.Read | packages/littlefs-latest/lfs.c:31-97 | terminates, fails exactly if the range passes the block, and returns flash overlaid by what is in the program cache; the read cache stays in agreement with flash; with hint 0 for ranges without a multiple of the read size |
| BlockCache.BlockDevice.Compare | packages/littlefs-latest/lfs.c:105-126 | the order of the bytes a reader sees and the buffer's at the first difference; CORRUPT exactly if there is none before the block ends and the range passes its end |
| BlockCache.BlockDevice.Flush | packages/littlefs-latest/lfs.c:128-159 | programs exactly the pending bytes filled up to a program unit; a validated one leaves the read cache in agreement with flash |
| BlockCache.BlockDevice.Sync | packages/littlefs-latest/lfs.c:161-173 | programs the pending bytes and leaves the read cache in agreement with flash whatever it held before |
| BlockCache.BlockDevice.Copy | packages/littlefs-latest/lfs.c:187-196 | as many bytes as fit go into the cache; what was there before stays |
| BlockCache.BlockDevice.FillUp | packages/littlefs-latest/lfs.c:183-216 | one turn of the loop: bytes go into the active cache, which is flushed when full; the block then reads as before with those bytes put in |
| BlockCache.BlockDevice.Prog | packages/littlefs-latest/lfs.c:175-219 | afterwards the block reads as before with all of the data put in, gaps within a program unit filled from the buffer; other blocks are unchanged |
| BlockCache.BlockDevice.Run | packages/littlefs-latest/lfs.c:175-219 | contiguous calls add up: the block reads as before with the concatenated pieces put in, and something is left pending if and only if they do not fill whole caches |
| BlockCache.BlockDevice.RunAndFlush | packages/littlefs-latest/lfs.c:128-219 | contiguous programs and a validated flush put exactly those bytes on flash, and nothing else up to the end of the last program unit; the read cache agrees with flash afterwards if and only if the bytes do not fill whole caches, or the programs were validated and not empty, or it held the new bytes before |
| BlockCache.BlockDevice.RunAndSync | packages/littlefs-latest/lfs.c:161-219 | contiguous programs and a sync put exactly those bytes on flash and leave the read cache in agreement with it |
| BlockCache.BlockDevice.StaleRead | packages/littlefs-latest/lfs.c:128-159 | so after unvalidated programs of whole caches, anywhere on a block, every read cache that showed a byte they changed keeps the old one through a validated flush |
| GlobalState.MoveRecorded | packages/littlefs-latest/lfs.c:362-368 | recording a move in a state replaces its move tag and pair and nothing else |
| GlobalState.MoveTagDeletes | packages/littlefs-latest/lfs.c:348-368 | what is recorded for an id below 0x3ff is the word of the tag that deletes that entry, recognised as a move; for 0x3ff nothing is |
| GlobalState.MoveTagInjective | packages/littlefs-latest/lfs.c:362-368 | different entries are recorded differently |
| GlobalState.SamePairMeans | packages/littlefs-latest/lfs.c:352-355 | a move is one of this directory exactly if the pairs have a block in common |
| GlobalState.MoveMeansDeletion | packages/littlefs-latest/lfs.c:686-693 | after a move of an entry has been recorded, the directory at that pair, and no other, gets the deletion of that entry as the last tag of its next commit |
| GlobalState.BothChange | packages/littlefs-latest/lfs.c:3939-3951 | the same change to the pending state and to the unwritten delta keeps the sum |
| GlobalState.ChangeWritten | packages/littlefs-latest/lfs.c:1759-1777 | writing the delta over what the directory stored keeps the sum with a delta of zero |
| GlobalState.ChangeWrittenTwice | packages/littlefs-latest/lfs.c:1524-1529 | merging what the directory stored a second time keeps it if and only if the directory stored nothing |
| GlobalState.ShareLost | packages/littlefs-latest/lfs.c:1524-1529 | and otherwise the disk is off by exactly that share |
| GlobalState.DirectoryDropped | packages/littlefs-latest/lfs.c:1361-1378 | taking over what a dropped directory stored keeps the sum over the others |
| GlobalState.FileSystem.PrepMove | packages/littlefs-latest/lfs.c:3947-3951 | the pending state holds the move: the id, the pair, and the deletion that follows for that directory alone; disk and delta still sum up to it |
| GlobalState.FileSystem.PrepOrphans | packages/littlefs-latest/lfs.c:3939-3945 | the orphan count changes and the top bit says whether it is positive, the sum still holds |
| GlobalState.FileSystem.Commit | packages/littlefs-latest/lfs.c:1670-1811 | the sum is kept if and only if the commit did not fall back to compaction with a real change on a directory that stored something; a pending move out of this directory is cleared, nothing else |
| GlobalState.FileSystem.DropDirectory | packages/littlefs-latest/lfs.c:1361-1378 | dropping a directory keeps the sum over the remaining ones if and only if the commit of its predecessor does not fall back with a real change on a directory that stored something |
| GlobalState.FileSystem.CommitByDropping | packages/littlefs-latest/lfs.c:1709-1730 | the way of lfs_dir_commit that drops its directory keeps the sum if and only if the move pending out of it and what the predecessor's commit loses come to nothing; without a fallback that is: no such move is pending |
| GlobalState.FileSystem.Mount | packages/littlefs-latest/lfs.c:3679-3693 | mounting sums up what all directories store and counts one orphan if the top bit is set |
| GlobalState.FileSystem.Run | packages/littlefs-latest/lfs.c:1670-1800 | over every run of move and orphan preparations, commits, drops and mounts, up to the first of them that is one of the losing cases above, the exclusive-or of all stored deltas and the unwritten one is the pending state without its orphan count |
| GlobalState.FileSystem.Step | packages/littlefs-latest/lfs.c:1670-1800 | any one of these operations keeps the sum if and only if it is none of the losing cases |
| GlobalState.FileSystem.MountFindsState | packages/littlefs-latest/lfs.c:3679-3693 | with nothing unwritten, a mount finds the same move, with the same deletion for the same directory, and orphans exactly if there are any |
| Rings.RingInsert | rt-thread/src/memheap.c:209-213 | the four link assignments of an insertion turn a doubly linked ring into the ring with the node in place |
| Rings.RingRemove | rt-thread/src/memheap.c:216-217 | the two link assignments of a removal turn it into the ring without the node |
| HeapShape.SumBounds | rt-thread/src/memheap.c:50-121 | the free payload is never negative and leaves room for a header |
| HeapShape.SplitShape | rt-thread/src/memheap.c:188-236 | splitting a free block keeps tiling, merging and the free list, and takes size and header from the free payload |
| HeapShape.TakeShape | rt-thread/src/memheap.c:237-255 | handing out a whole free block keeps tiling, merging and the free list, and takes its size from the free payload |
| HeapShape.MergeNext | rt-thread/src/memheap.c:559-578 | a used block that takes in its free right neighbour keeps tiling, merging and the free list |
| HeapShape.ReleaseShape | rt-thread/src/memheap.c:535-591 | giving a block back, absorbed by a free left neighbour or listed, keeps tiling, merging and the free list and adds its payload and the absorbed header |
| HeapShape.ResizeShape | rt-thread/src/memheap.c:350-393 | moving the boundary between a used block and what follows keeps tiling, merging and the free list, with the exact change of the free payload |
| Memheap.AlignedCovers | rt-thread/src/memheap.c:147-150 | the aligned size covers the request if and only if it is at most 0xfffffffc |
| Memheap.GrowTest | rt-thread/src/memheap.c:350 | the comparison that decides on growing in place is right if and only if newsize + 12 does not wrap |
| Memheap.Heap.AvailableBounds | rt-thread/src/memheap.c:50-121 | `available_size` lies between zero and the pool without its two headers |
| Memheap.Heap.constructor | rt-thread/src/memheap.c:50-121 | a new heap is one free block that fills the pool up to the tailer |
| Memheap.Heap.Split | rt-thread/src/memheap.c:188-236 | hands out the front of a free block with exactly that size, all other blocks keep bounds and bytes |
| Memheap.Heap.TakeAll | rt-thread/src/memheap.c:237-255 | hands out a whole free block |
| Memheap.Heap.FirstFit | rt-thread/src/memheap.c:169-183 | finds the first free block on the list that is large enough, if and only if there is one |
| Memheap.Heap.Alloc | rt-thread/src/memheap.c:138-281 | fails if and only if the aligned size reaches `available_size` or no free block is large enough, and then changes nothing; otherwise the block is the first large enough one on the free list, new, cut to the size if the rest can be a block; every other block keeps bounds and bytes |
| Memheap.Heap.Detach | rt-thread/src/memheap.c:535-591 | the marking, merging and linking of a free, on the explicit links |
| Memheap.Heap.Release | rt-thread/src/memheap.c:495-595 | exactly this block is no longer in use, every other keeps bounds and bytes, and the payload is available again |
| Memheap.Heap.Grow | rt-thread/src/memheap.c:350-401 | the block grows to exactly the size in place, keeps its bytes, and the accounts change by the difference |
| Memheap.Heap.CutOff | rt-thread/src/memheap.c:443-485 | cutting a block re-links both rings: its rest is one free block, joined with a free right neighbour, and the available bytes grow by exactly what became payload |
| Memheap.Heap.Shrink | rt-thread/src/memheap.c:432-491 | the block shrinks to exactly the size and keeps its first bytes |
| Memheap.Heap.CopyPayload | rt-thread/src/memheap.c:412 | the copy changes only the new block's payload |
| Memheap.Heap.Move | rt-thread/src/memheap.c:408-416 | the bytes are moved to a new block and the old one is given back; it fails if and only if no new block can be allocated, and then changes nothing |
| Memheap.Heap.Resize | rt-thread/src/memheap.c:310-492 | for every live block and aligned size: it fails if and only if the block has to grow, the block behind is used or too small, and no other block can be allocated, and then changes nothing; it stays where it is if and only if it does not have to grow or can grow there, with exactly the size, or its old one if the rest could not be a block; otherwise it moves; the result begins with the old bytes as far as both sizes reach |
| Memheap.Heap.Realloc | rt-thread/src/memheap.c:284-492 | in all cases whose growth test does not wrap: it fails, stays in place or moves exactly as Resize says, or without an old block as Alloc says; the block returned begins with the first min(old, new) bytes of the old one; every other live block keeps bounds and bytes; size 0 frees |
| Memheap.Heap.GrowthWraps | rt-thread/src/memheap.c:334-387 | in the remaining calls, aligned sizes above 0xfffffff3 with a free block behind, the test succeeds though the size cannot fit, and the header of the block left over is put into the header of the grown block itself |
| Memheap.Heap.Run | rt-thread/src/memheap.c:50-595 | over every run of requests: blocks tile the pool in address order up to the used tailer, no two neighbours are free, the circular free list holds exactly the free blocks, `available_size` is the sum of their payloads, the blocks in use are exactly those the client holds, and each begins with what was last written to it, wherever it was moved |
| Memheap.Heap.Serve | rt-thread/src/memheap.c:138-595 | each request has the outcome that the state of the heap determines, and leaves what the client knows of all other blocks |
| MessageQueue.Queue.constructor | rt-thread/src/ipc.c:1780-1827 | a new queue: every node of the pool is free |
| MessageQueue.Queue.TakeFree | rt-thread/src/ipc.c:1980-1997 | first half of a send: the first free node moves to the sender's hand, or FULL exactly if there is none |
| MessageQueue.Queue.Fill | rt-thread/src/ipc.c:1999-2002 | outside the critical section: only the sender's own node changes, the queued messages stay |
| MessageQueue.Queue.LinkTail | rt-thread/src/ipc.c:2004-2020 | second half of a send: the message is delivered last |
| MessageQueue.Queue.LinkHead | rt-thread/src/ipc.c:2092-2104 | second half of an urgent send: it is delivered first |
| MessageQueue.Queue.TakeHead | rt-thread/src/ipc.c:2237-2250 | first half of a receive: the oldest link leaves the queue into the receiver's hand, nothing exactly if there is no message |
| MessageQueue.Queue.CopyOut | rt-thread/src/ipc.c:2252-2253 | the receiver gets the message it took, cut to the size it asks for |
| MessageQueue.Queue.GiveBack | rt-thread/src/ipc.c:2255-2260 | second half of a receive: the node is free again, the queued messages stay |
| MessageQueue.Queue.Reset | rt-thread/src/ipc.c:2279-2325 | no message is left, the nodes in hands stay there |
| MessageQueue.Everywhere | rt-thread/src/ipc.c:1963-2266 | every pool node is in the queue, in the free list or in a hand, and nothing else is |
| MessageQueue.Queue.Run | rt-thread/src/ipc.c:1963-2266 | over every interleaving of the halves of sends, urgent sends and receives and of resets: every pool node is in exactly one of the queue, the free list and the hands, `entry` is the queue's length, head and tail are null together, exactly when it is 0, and every message delivered is the oldest then, or the latest urgent one, with the bytes its sender gave |
| MessageQueue.Queue.Step | rt-thread/src/ipc.c:1963-2266 | each half makes the event it should: linking puts the thread's own message in, taking delivers the first one to the thread |
| MessageQueue.FirstInFirstOut | rt-thread/src/ipc.c:1963-2266 | in such a run without urgent messages and resets, what was delivered followed by what still waits is what waited before followed by what was linked, in that order |
| Mailbox.Suspend | rt-thread/src/ipc.c:79-122 | the loop inserts the thread at the end, or in front of the first waiter of a larger priority number |
| Mailbox.StaysSorted | rt-thread/src/ipc.c:92-117 | in a list sorted by priority number it goes behind all waiters of its own number and before all larger ones, and the list stays sorted |
| Mailbox.RingPut | rt-thread/src/ipc.c:1534-1541 | writing at the in offset appends to the messages in the ring |
| Mailbox.RingGet | rt-thread/src/ipc.c:1682-1690 | moving the out offset takes the oldest one off |
| Mailbox.Box.Put | rt-thread/src/ipc.c:1534-1541 | writing a message into the ring appends it to the queue the ring stands for, up to the box's size |
| Mailbox.Box.Get | rt-thread/src/ipc.c:1682-1690 | taking a message out of the ring takes the oldest off the queue it stands for |
| Mailbox.Box.WakeReceiver | rt-thread/src/ipc.c:1543-1546 | the first waiting receiver is woken, and only it |
| Mailbox.Box.WakeSender | rt-thread/src/ipc.c:1692-1695 | the first waiting sender is woken, and only it |
| Mailbox.Box.Send | rt-thread/src/ipc.c:1441-1560 | one critical section of a send, with its whole new state: with a free place the message is appended and the first receiver, if any, leaves its list and is woken; otherwise the sender waits in its place in the list or gets FULL; nobody else moves and no wakeup is lost |
| Mailbox.Box.Receive | rt-thread/src/ipc.c:1589-1713 | one critical section of a receive, with its whole new state: with a message the oldest is taken and the first sender, if any, leaves its list and is woken; otherwise the receiver waits or times out; nobody else moves and no wakeup is lost |
| Mailbox.Box.Expire | rt-thread/src/ipc.c:1514-1519 | a waiter whose time is over leaves its list, everything else stays in order |
| Mailbox.Box.Reset | rt-thread/src/ipc.c:1725-1757 | the box is empty and nobody waits |
| Mailbox.Box.Run | rt-thread/src/ipc.c:1441-1713 | over every interleaving of sends, receives, retries, timeouts and resets: the state is that of the events run one after another on the queue and its waiters; every thread whose call began and is not over is in exactly one of the two lists and two sets of woken threads; waiters stay in order of priority; messages are received in the order in which they were sent; if receivers wait there are at most as many messages as receivers woken that have not run, and if senders wait at most as many free places as senders woken |
| Mailbox.Box.Step | rt-thread/src/ipc.c:1441-1757 | each event shows exactly what the state foresees; a message sent wakes the first receiver, a message received the first sender |
| Ffs.TableIsRight | rt-thread/src/kservice.c:1286-1308 | each of the 255 nonzero entries of the table is the number of trailing zeros of its index |
| Ffs.FfsIsRight | rt-thread/src/kservice.c:1316-1330 | for every 32-bit value: 0 for 0, otherwise one more than the number of trailing zeros |
| Ffs.LowestIsSet | rt-thread/src/kservice.c:1316-1330 | the number of trailing zeros is the place of the lowest set bit |
| Ffs.SetBitBits | rt-thread/src/scheduler.c:717 | or-ing the number mask in sets that bit and no other |
| Ffs.ClearBitBits | rt-thread/src/scheduler.c:809 | and-ing with its complement clears that bit and no other |
| Scheduler.FfsFindsTop | rt-thread/src/scheduler.c:162-184 | the priority found from the ready group is the smallest one whose list is not empty |
| Scheduler.Cpu.constructor | rt-thread/src/scheduler.c:191-239 | a new scheduler with one thread running |
| Scheduler.Cpu.InsertThread | rt-thread/src/scheduler.c:688-722 | a thread goes to the end of its list and sets its bit; the current thread is only marked running |
| Scheduler.Cpu.RemoveThread | rt-thread/src/scheduler.c:785-815 | a thread leaves its list, and the bit is cleared exactly if the list is empty |
| Scheduler.Cpu.SwitchTo | rt-thread/src/scheduler.c:444-459 | the first thread of the top list runs, the one before goes to the end of its list and is ready if it was still running, and keeps its state otherwise; no other thread's state changes |
| Scheduler.Cpu.Schedule | rt-thread/src/scheduler.c:411-523 | unlocked, no ready thread is more urgent than the running one afterwards; a running thread more urgent than the top list goes on, any other gives way to the first of that list; no other thread's state changes |
| Scheduler.Cpu.SuspendThread | rt-thread/src/thread.c:657-696 | only a ready or running thread is suspended; it leaves its list |
| Scheduler.Cpu.ResumeThread | rt-thread/src/thread.c:706-740 | only a suspended thread is resumed; it goes to the end of its list |
| Scheduler.Cpu.StartThread | rt-thread/src/thread.c:288-320 | an initialised thread becomes ready, and the most urgent thread runs |
| Scheduler.Cpu.BlocksAndComesBack | rt-thread/src/scheduler.c:411-523 | a thread that suspends itself gives way, stays suspended whatever happens until it is resumed, and is then ready again behind its equals |
| Scheduler.Cpu.Run | rt-thread/src/scheduler.c:411-815 | over every run of starts, suspensions, resumptions, schedules and locks: the state is that of the events run one after another; bit p of the ready group is set exactly if ready list p is not empty; the lists hold exactly the threads marked ready, and the current thread is in none; a blocked thread stays blocked until it is resumed, any other stays ready or running until it is suspended |
| Scheduler.Cpu.Turn | rt-thread/src/scheduler.c:411-523 | one call brings every thread of the top list one place forward |
| Scheduler.Cpu.Stay | rt-thread/src/scheduler.c:411-523 | one call changes nothing if the running thread is more urgent than every ready one |
| Scheduler.Cpu.Turns | rt-thread/src/scheduler.c:411-523 | the k-th thread of the top list runs after k + 1 calls in which nothing else arrives, if and only if the running thread was not more urgent than that list |

## Left out

Contracts that are narrower than the code they model:

- Lookup.GetSlice: for ids that fit the ten bits of a tag on the whole walk (`IdsFit`, which IdsFitInSmallDirs proves for
  existing entries); the tag returned for a lookup without an id while a move is pending is not stated.
- Traverse.TraverseCompact: the ids are required to stay inside ten bits while they are filtered (`Room`,
  `PendingRoom`), which RoomInSmallDirs and PendingRoomInSmallDirs prove for all directories that ids can name. The
  source pairs moved from carry no pending attributes of their own, as in the code.
- Recovery.ReadAfterCommit: lookups with no move pending start at the first byte of the attribute, of an entry that exists in a directory
  that ids can name, or with ids as for Lookup.GetSlice (`Walkable`).
- Recovery.CompactPending: for directories that ids can name, and groups that name an entry that exists or the next one,
  as all callers in the repository do; so also DirCommit.
- Commit.Writer.CommitCrc: bytes that the program cache puts into gaps are part of `BlockCache`; here the padding of
  a CRC tag stays as it was on flash.
- PowerLoss.InPlaceCommitIsAtomic: bytes are programmed in ascending order and a cut leaves a prefix of them.
- PairUpdate.CommitInPlace: programming overwrites. The code also tries a commit on a block that is not erased when the
  directory has 0xff entries or more (lfs.c:1732), where flash may refuse; the error that follows is not modelled.
- CtzList.Extend: the block that the allocator returns is an argument, programming succeeds; the retry after a bad
  block, which runs with an already changed `size` and `head`, is left out.
- Lookahead.Allocator.Alloc: for at most 2^31 blocks; the traversal of the file system is an argument, the bitmap an
  array with one entry for each bit.
- BlockCache.BlockDevice.Read: with hint 0, which no caller passes for a byte or more, only ranges without a multiple of
  the read size; `off + size` does not wrap around.
- GlobalState.FileSystem.PrepOrphans: while the number of orphans stays within ten bits. The tag word is modelled by
  its three fields.
- Memheap.Heap.constructor: for pools with room for two headers, which the code does not check.
- Memheap.Heap.Realloc: without the calls that GrowthWraps describes, which destroy the pool.
- Mailbox.Box.Send: one critical section; the loop around it is the event of trying again. Wait lists are sequences
  of threads, timers one event that removes a waiter.
- Scheduler.Cpu.Schedule: ready lists are sequences; starting, suspending and resuming are reduced to what they do to the
  lists and to a thread's state, priorities do not change.

Not modelled at all:

- Relocation of bad blocks, wear levelling, superblock expansion and splitting of directories: programming and erasing
  succeed, and a commit that does not fit ends with NOSPC.
- The matching part of lfs_dir_fetchmatch, path lookup, file and directory calls, migration, mount checks.
- The flag of inline cache blocks in the block cache.
- Errors of the block device other than reads past the end of a block.
- The popcount and count-trailing-zeros routines: their mathematical definitions stand for the compiler intrinsics.
- The semaphore around the heap, several heaps, and the debugging marks in block headers other than the used bit; a
  header written into the pool is modelled as 24 arbitrary bytes that are overwritten.
- Waiting and wakeups in the message queue, which are those of the mailbox.
- Multi-core scheduling, signals, hooks, interrupt nesting, stack checks, more than 32 priorities.
- Device drivers, graphics, formatting and string routines, the small memory allocator that this configuration
  disables, memory pools.
