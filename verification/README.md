# DionysOS: verified models

This project models the parts of DionysOS whose correctness is hardest to see from the code, and proves what they
keep over whole runs. DionysOS is a small kernel with its own file system (DiosFS), an image builder for it
(`mkdiosfs`) and a bundled copy of the Limine BIOS installer.

| component | files |
|---|---|
| installer device layer: one-block write-back cache, undo log, roll-back, `--uninstall` | `UndoLog`, `UndoFile`, `UndoBuffer`, `LimineDevice`, `LimineInstall` |
| installer: placing stage 2 on a GPT disk, CRC-32 | `GptEmbedding`, `GptInstall`, `GptContents`, `Crc32` |
| DiosFS block map: allocation, lookup and freeing through four levels of indirection, and runs over many files | `BlockMap`, `BlockAllocation`, `BlockReach`, `BlockFree`, `BlockFiles` |
| `mkdiosfs`: building an image | `Bitmap`, `ImageTree`, `ImageBuild` |
| physical memory: boot carve-up, buddy allocator, slabs | `BootCarve`, `PowerOfTwo`, `BuddyPool`, `BuddyRuns`, `BuddyLoose`, `BuddyLimits`, `BuddyBoundary`, `BuddyHeap`, `Slab` |
| NVMe driver: queue pair with phase tag, request splitting, PRPs | `NvmeQueue`, `NvmeTransfer`, `NvmePrps` |
| kernel data structures and scheduling | `BinaryTree`, `FifoQueue`, `Scheduler` |
| shared notions | `Prelude`, `Bytes` |

Code that changes state in place is modelled by classes and methods with loops, each proved against a function on
values; what the component promises is then proved of that function. Code that only computes is a function.
`dafny verify dfyconfig.toml` checks everything.

## Where the code does less than it says

The models follow the code. These statements of its comments or of its evident intent are false, and each has a
proved counterexample, an exact condition, or both.

- Undo data: storing the log fails if some write was empty, because a transfer of zero bytes counts as failed
  (`UndoFile.DecodeExact`, `LimineInstall.Install`).
- GPT embedding on 4096-byte blocks: clearing the unused entries and the eleven writes that follow need more undo
  entries than the log has, so the installation fails and is rolled back, unless the last used entry is one of 805 to
  927 (`GptInstall.InstallSucceedsExactly`). The sizes of the halves wrap around at 64 KiB
  (`GptEmbedding.RestInsideExactly`), and a half A larger than all space before the end of the array passes the
  check (`GptEmbedding.WrappedIsAccepted`).
- DiosFS: freeing clears the bit of a block only if the block lies in the first bitmap block, and never those of the
  pointer blocks. So a file that is allocated and removed leaves the bitmap as it was if and only if it has at most 10
  blocks and the first bitmap block had room for them (`BlockFree.AllocateThenFree`). From block 32768 on the bit is
  looked for outside the page that holds the bitmap block (`BlockFree.ClearBit`).
- `mkdiosfs`: from inode 8192 on the bitmap is marked in the wrong block and the same number is handed out again
  (`Bitmap.InodeTwice`); a directory with 70 entries counts a 71st that it does not hold (`ImageBuild.Image.Create`).
  After a write that ends, the image holds a tree if and only if the file was not written before, or is not empty and
  does not gain blocks once it has an indirection block; otherwise the file lists block 0 of the root directory as its
  own (`ImageBuild.Image.WriteFile`). The tool itself writes each file once.
- Buddy allocator: a freed block that neither has the largest order nor merges at once is in no bucket
  (`BuddyRuns.FreedIsFiledExactly`). No search finds it until a block of its order directly to its left is freed, which
  makes it part of a larger block (`BuddyLoose.LooseUntilLeftIsFreed`, `BuddyLoose.LooseStep`), so requests can fail
  with half the memory free (`BuddyLimits.FreeMemoryIsLost`). The head of the last region has no flag, so, however many
  regions there are, a block can lie across its start, and across no other region's (`BuddyBoundary.UncrossedExactly`).
  Requests from 513 to 1024 pages are refused (`BuddyRuns.LargestRequest`).
- NVMe: the command identifier does not wrap around but stays 0 from command 65535 on (`NvmeQueue.CommandIdSticks`);
  the number of blocks per command is kept in 16 bits and becomes 0 from 65536 on, and then the loop that splits a
  request never ends (`NvmeTransfer.LimitTruncates`, `NvmeTransfer.EndlessExactly`). A PRP list that fills a page of the
  pool, or more, gets a link to a page that is never written, and its further entries go behind the eighth page. So a
  buffer is described if and only if it touches no more pages than a page of the pool has words
  (`NvmePrps.PrpPool.SetupPrps`); with transfers of 2 MiB an unaligned buffer makes the driver store outside the pool
  (`NvmePrps.StoresOutside`).
- Slab: the end address is eight region sizes behind the start instead of one. So an address behind the region is
  accepted and pushed onto the free list (`Slab.OldEntryReturns`), and what is then on the list is sound if and only if
  the address is an entry that was not on it (`Slab.PushSoundExactly`). An entry of an earlier region that lies outside
  these eight region sizes is lost when it is freed (`Slab.Slab.Free`).

## Model

| member | source | states |
|---|---|---|
| UndoLog.RollbackRestores | limine/limine.c:327-333 | for every log of saved ranges, overlapping or not, that records a device, replaying it from the newest to the oldest entry over the present contents gives every byte its original value, whatever the device holds in the covered ranges |
| UndoLog.ReverseReplayAt | limine/limine.c:509-529 | byte by byte, a reversed replay yields the bytes of the oldest entry that covers the position, or else the present byte |
| UndoLog.RecordWrite | limine/limine.c:458-471 | saving the old bytes of one more write keeps the log a record of the original device, for contents that have the write in part or in full |
| UndoLog.OldestSavedAppend | limine/limine.c:448-475 | an entry that covers a position already covered does not change which bytes are restored there |
| UndoFile.DecodeExact | limine/limine.c:341-424 | loading a file yields a log if and only if the file starts with the stored form of that log and no entry is empty; so storing and loading round-trips |
| UndoFile.EntryExact | limine/limine.c:356-366 | the same for one entry, with the remaining file left over |
| UndoFile.EntryPlaces | limine/limine.c:356-366 | in the file an entry has its location in bytes 0 to 8 and its length in bytes 8 to 16, lowest byte first, and its data behind them |
| UndoBuffer.Buffer.ReverseLog | limine/limine.c:327-333 | the in-place reversal through the scratch array turns the log into its reverse |
| UndoBuffer.Buffer.Store | limine/limine.c:341-379 | writes the stored form of the log, and succeeds if and only if no entry is empty |
| UndoBuffer.Buffer.Load | limine/limine.c:381-424 | succeeds if and only if the file decodes, and then holds the decoded log |
| LimineDevice.Device.FlushCache | limine/limine.c:265-284 | after a flush the device is the flat byte array that the layer presents |
| LimineDevice.Device.CacheBlock | limine/limine.c:286-311 | caching a block writes the previous one back if it is dirty, keeps the flat view, and fails exactly for blocks not wholly on the device |
| LimineDevice.Device.DeviceRead | limine/limine.c:426-446 | a read of any place and length, at any block size, returns the bytes of the flat array; it fails exactly if the range leaves the whole blocks of the device |
| LimineDevice.Device.WriteThrough | limine/limine.c:476-497 | a write of any place and length overwrites the flat array; device bytes outside its range are old device or old view bytes, even when it fails |
| LimineDevice.Device.DeviceWrite | limine/limine.c:448-497 | a recorded write saves the old bytes of the flat array in the next log entry; it fails when the log is full or the range does not fit |
| LimineDevice.Device.Uninstall | limine/limine.c:499-549 | the cached block is thrown away even if dirty; then the device becomes the replay of the log over its own contents, and this succeeds exactly if all entries fit |
| LimineInstall.FailureIsFinal | limine/limine.c:1062-1070 | an operation that fails decides the outcome of the run |
| LimineInstall.Perform | limine/limine.c:426-497 | each operation does to cache, device and log what one step does to the flat reference, and the log keeps recording the original device |
| LimineInstall.Install | limine/limine.c:1025-1070 | over every sequence of reads, writes and flushes with any pattern of evictions: a run that fails leaves every device byte as it was; a run that succeeds leaves exactly what the flat reference says and a log that undoes it; the log is stored if and only if no write was empty |
| LimineInstall.UninstallMode | limine/limine.c:649-665 | an uninstall run restores the replay of the loaded log |
| LimineInstall.InstallThenUninstall | limine/limine.c:649-665 | installing, storing the log and a later uninstall run on the same device restore the original device |
| Crc32.TableIsShift8 | limine/limine.c:115-159 | each of the 256 table entries is eight bit steps of the reflected division by 0xEDB88320 |
| Crc32.Shift8Split | limine/limine.c:165-168 | eight bit steps of a word are the shifted word combined with eight bit steps of its low byte |
| Crc32.Checksum | limine/limine.c:161-171 | the table-driven loop equals the bit-by-bit CRC-32 on every byte sequence |
| Crc32.CheckValue | limine/limine.c:161-171 | the checksum of nothing is 0, and that of the digits 1 to 9 is the published check value 0xCBF43926 |
| Crc32.Residue | limine/limine.c:161-171 | for every stream, four bytes behind it leave the remainder 0xDEBB20E3 if and only if they are its checksum, lowest byte first |
| Crc32.BurstDetected | limine/limine.c:161-171 | two streams of any length that differ only inside four consecutive bytes have different checksums |
| GptEmbedding.LastUsed | limine/limine.c:920-933 | the scan returns the last used entry, or -1 if none is used |
| GptEmbedding.SplitExact | limine/limine.c:874-879 | the two halves hold all of stage 2, the second within its sectors, if and only if stage 2 has at least one sector and at most 254 |
| GptEmbedding.EntriesBeforeHalf | limine/limine.c:935-947 | the entries that remain end before the half begins, and the half ends inside the 32 blocks |
| GptEmbedding.Embedded | limine/limine.c:935-952 | if the check passes and half A fits, both halves lie behind the remaining entries and inside the 32 blocks of their arrays, and every used entry remains |
| GptEmbedding.RestInsideExactly | limine/limine.c:1028-1031 | what is written at the second place stays inside its array if and only if the 16-bit sizes do not wrap around |
| GptEmbedding.AcceptedFits | limine/limine.c:935-952 | a passed check implies that half A fits, except when its place wraps around below address 0 |
| GptEmbedding.WrappedIsAccepted | limine/limine.c:935-952 | an input on which the place wraps around and the check passes |
| GptEmbedding.EntriesLeft | limine/limine.c:935-947 | the shipped image leaves 44 entries on 512-byte blocks and 928 on 4096-byte blocks |
| LimineInstall.RunOkExactly | limine/limine.c:426-497 | a run succeeds if and only if none of its own checks gives up, every transfer lies on the device and there are at most 256 writes |
| GptInstall.InstallCount | limine/limine.c:958-1047 | an embedding installation writes twice for every entry from the first unused one up to those that remain, and eleven times more |
| GptInstall.InstallSucceedsExactly | limine/limine.c:935-1047 | for the shipped image and 128-byte entries, the whole run succeeds on the flat reference if and only if every transfer lies on the device and the last used entry is below 44 (512-byte blocks) or from 805 to 927 (4096-byte blocks) |
| GptContents.RunIsApplied | limine/limine.c:448-497 | the contents after a run that succeeds are those of applying its writes in order |
| GptContents.GotIs | limine/limine.c:426-446 | each read of a run that succeeds gets what the writes before it have left |
| GptContents.ClearingZeroes | limine/limine.c:958-969 | after the clearing loop every entry from its first to its last is zero |
| GptContents.StageNumbers | limine/limine.c:1035-1041 | the numbers read back from 0x1a4, 0x1a6, 0x1a8 and 0x1b0 are the sizes and the places of the halves, first half first |
| GptContents.UsedKept | limine/limine.c:958-1047 | no write of the installation touches an entry in use, in either array |
| GptContents.PlanReads | limine/limine.c:976-1023 | what is read for the checksum in the headers is what the entries are at the end; the timestamp and the partition table are read as they were at the start |
| GptContents.InstallLeaves | limine/limine.c:935-1047 | whenever the run succeeds and boot sector, headers and arrays lie apart: loading from the disk it leaves, by the numbers in the boot sector, gives stage 2; in both arrays the entries up to the last used one are the original ones and the others that remain are zero; both headers are in place; the boot sector is that of the image but for the numbers, the timestamp and the partition table, and these two are the original ones if what was read is written back |
| BlockMap.IndicesFor | kernel/src/filesystem/diosfs.c:1728-1769 | the indices of a logical block are in range and address exactly that block |
| BlockMap.LookupFindsData | kernel/src/filesystem/diosfs.c:1572-1619 | on a mapped inode each logical block resolves to the block marked for it, through pointer blocks of that inode only |
| BlockMap.OthersStayMapped | kernel/src/filesystem/diosfs.c:1625-1714 | allocation for one inode keeps the map of every other inode |
| BlockMap.FileSystem.GetFreeBlock | kernel/src/filesystem/diosfs.c:1132-1206 | returns the first clear block, zero-filled, and marks it |
| BlockMap.FileSystem.AllocateSingle | kernel/src/filesystem/diosfs.c:2082-2115 | a depth-1 block, new or the inode's own, receives the requested data blocks |
| BlockMap.FileSystem.AllocateDouble | kernel/src/filesystem/diosfs.c:2023-2079 | a new depth-2 block whose subtree holds exactly the requested logical blocks; what was marked keeps owner and contents |
| BlockMap.FileSystem.AllocateTriple | kernel/src/filesystem/diosfs.c:1985-2021 | the same for depth 3 |
| BlockMap.Cost3ClosedForm | kernel/src/filesystem/diosfs.c:1985-2115 | the blocks a triple level takes: the data blocks, one block per 128 and per 16384 of them, and one more |
| BlockAllocation.AllocateNewBlocks | kernel/src/filesystem/diosfs.c:1625-1714 | an append to an inode that ends in the direct or single level extends its map by the requested blocks through all levels, at the stated cost; the refusal for directories changes nothing |
| BlockAllocation.AllocateFresh | kernel/src/filesystem/diosfs.c:1625-1714 | for every count up to 10 + 128 + 128^2 + 128^3: each logical block resolves to a block that was clear and is marked, different ones to different blocks, none of them a pointer block of any lookup |
| BlockFree.ClearBit | kernel/src/filesystem/diosfs.c:997-1028 | clearing a bit through a page that holds its bitmap block clears it if it lies in the first bitmap block and changes nothing otherwise; the access stays in the page if and only if the bit is below 32768 |
| BlockFree.FreedAt | kernel/src/filesystem/diosfs.c:997-1028 | freed blocks hold zeros, their bits are clear if they lie in the first bitmap block, and nothing else changes |
| BlockFree.FreeBlocksFromInode | kernel/src/filesystem/diosfs.c:1870-1975 | the blocks handed back are, in order, exactly those that lookup gives for the logical blocks, once each, through all four levels; disk and bitmap are what freeing these one after the other gives |
| BlockFree.RemoveFile | kernel/src/filesystem/diosfs.c:986-991 | removing a file gives back its blocks in order, keeps the file system valid and leaves no block with the file's label |
| BlockReach.MarksAreReach | kernel/src/filesystem/diosfs.c:1625-1714 | an allocation to a fresh inode marks exactly the blocks that the lookups of its logical blocks read or return |
| BlockReach.ReachSize | kernel/src/filesystem/diosfs.c:1572-1714 | the lookups of the first n logical blocks read or return at least as many blocks as an allocation of n blocks marks |
| BlockFree.RoomExactly | kernel/src/filesystem/diosfs.c:1132-1206 | first-fit marks stay in the first bitmap block if and only if it has that many clear bits |
| BlockFree.NothingLostExactly | kernel/src/filesystem/diosfs.c:1870-1975 | the bitmap after allocating and removing is the bitmap before if and only if the file has at most 10 blocks and the first bitmap block had room for them |
| BlockFree.AllocateThenFree | kernel/src/filesystem/diosfs.c:986-1028 | allocating to a fresh inode and removing the file again: for every block, its bit is then set if and only if it was, or the block is on the path of a lookup, or is a data block behind the first bitmap block; all else on the disk but pointer blocks is as it was; and nothing stays marked exactly under the stated condition |
| BlockFiles.FilesApart | kernel/src/filesystem/diosfs.c:1572-1619 | no block serves two files, neither for data nor for pointers |
| BlockFiles.IntactReads | kernel/src/filesystem/diosfs.c:1572-1619 | a file whose blocks are intact is found where it was and reads as it did |
| BlockFiles.AppendReads | kernel/src/filesystem/diosfs.c:1625-1714 | after an append, the file's blocks that there were are found where they were and read as they did, and the new ones read as zeros |
| BlockFiles.WriteReads | kernel/src/filesystem/diosfs.c:1526-1550 | a block of a file that has been written reads as what was written, and every other block of the file as it did |
| BlockFiles.Volume.Remove | kernel/src/filesystem/diosfs.c:986-991 | removing one file does to the table of flat files what its name says, and keeps every other file's inode, blocks and contents |
| BlockFiles.Volume.Append | kernel/src/filesystem/diosfs.c:1625-1714 | appending adds blocks of zeros to the flat file, or nothing if it is refused, and keeps every other file's inode, blocks and contents |
| BlockFiles.Volume.Write | kernel/src/filesystem/diosfs.c:1526-1550 | writing a whole block through the lookup replaces that block of the flat file, and keeps every other file's inode, blocks and contents |
| BlockFiles.Volume.Run | kernel/src/filesystem/diosfs.c:986-1714 | every run of creating, appending, writing, resizing and removing files, up to the first operation without room, does what the same operations do on a table of flat files; a file that none of them names keeps its inode, its blocks and their contents |
| Bitmap.FirstClearBit | tools/mkfs/mkdiosfs.c:483-490 | the nine-step bit test on a signed byte finds the first clear bit and never bit 8 |
| Bitmap.MarkBlock | tools/mkfs/mkdiosfs.c:470-509 | returns the first clear number, and marks it and nothing else; nothing is returned exactly if all are marked |
| Bitmap.MarkInode | tools/mkfs/mkdiosfs.c:511-554 | returns the first clear number, which becomes marked if and only if it is below 8192 |
| Bitmap.InodeTwice | tools/mkfs/mkdiosfs.c:511-554 | two inodes in a row get the same number if and only if the first one is 8192 or more |
| ImageTree.FileReadsBack | tools/mkfs/mkdiosfs.c:690-736 | in an image of a tree, a written file read through the block lookup gives the bytes written |
| ImageTree.DirectoryReadsBack | tools/mkfs/mkdiosfs.c:559-587 | in an image of a tree, a directory lists exactly its children, in order, with their present sizes |
| ImageTree.BlocksAreDistinct | tools/mkfs/mkdiosfs.c:470-509 | no block belongs to two places of one or two objects, nor is a data block an indirection block |
| ImageTree.Untouched | tools/mkfs/mkdiosfs.c:559-677 | an object does not notice changes to blocks it does not own |
| ImageTree.CreateKeeps | tools/mkfs/mkdiosfs.c:445-467 | creating keeps the tree well formed: parents list their children once, children know their parents |
| ImageBuild.AppendHolds | tools/mkfs/mkdiosfs.c:559-587 | putting an entry into the last or a new block makes the directory hold its children and the new one |
| ImageBuild.EntryWritten | tools/mkfs/mkdiosfs.c:898-943 | with the entry brought up to date, the image holds the tree after the write, for every object |
| ImageBuild.Image.WriteDirent | tools/mkfs/mkdiosfs.c:559-587 | the entry goes to slot `size % 7` of block `size / 7`, allocated if needed; a directory that looks full is left alone |
| ImageBuild.Image.Create | tools/mkfs/mkdiosfs.c:445-467 | below 8192 inodes and 70 entries the image becomes that of the tree with one more object; with 70 entries no block changes, yet the size becomes 71 |
| ImageBuild.Image.AllocateBlocks | tools/mkfs/mkdiosfs.c:738-829 | a file without an indirection block gets its blocks in order, direct ones first, none of them used by anything else; any file ends up with inodes that list blocks in use only |
| ImageBuild.Image.AllocateSingle | tools/mkfs/mkdiosfs.c:1036-1061 | a new indirection block lists the blocks from the eleventh on; if there is one already it stays as it is, and the numbers overwrite block 0 |
| ImageBuild.Image.UpdateEntry | tools/mkfs/mkdiosfs.c:898-943 | in an image that holds the entry, the search, which only stops at a match, ends at the file's own entry and refreshes it; in any other image it rewrites at most one block, as directory entries |
| ImageBuild.Image.WriteFile | tools/mkfs/mkdiosfs.c:590-677 | the whole write, for any file: when it ends, there are a tree and a labelling of the blocks for which the image is valid if and only if the file was new or is not empty and gains no block behind an indirection block; the tree is then that with these bytes at the start of the file |
| ImageBuild.GrownListsZero | tools/mkfs/mkdiosfs.c:624-639 | a file that is grown although it cannot be written again lists block 0 among its blocks |
| ImageBuild.Clash | tools/mkfs/mkdiosfs.c:470-509 | an image in which another inode lists the first block of the root directory holds no tree, under any labelling of the blocks |
| ImageTree.OverlaidIsData | tools/mkfs/mkdiosfs.c:618-672 | a file written again reads as the bytes written if and only if it was not longer before |
| ImageTree.ChunkOverlaid | tools/mkfs/mkdiosfs.c:645-669 | copying the part of the bytes for a block leaves the block with the right bytes before and behind |
| ImageBuild.Image.Build | tools/mkfs/mkdiosfs.c:445-943 | any run of creates and writes within the limits, files written several times included, ends with the image of the tree it describes |
| ImageBuild.Image.ReadsAsTree | tools/mkfs/mkdiosfs.c:559-943 | what a reader finds in such an image: listings, contents, and every block in use marked |
| BootCarve.SwapReduces | kernel/src/memory/pmm.c:147-161 | exchanging two neighbours out of order removes exactly one inversion |
| BootCarve.Sort | kernel/src/memory/pmm.c:147-162 | the bubble sort ends, with the inversions as measure, in a descending permutation |
| BootCarve.CutRange | kernel/src/memory/pmm.c:176-216 | a range becomes blocks of 1024 pages with all but the last flagged, and spare pages; a page of it is in a block if and only if it lies in the whole blocks from its start, and is spare otherwise; it panics exactly if the block structures run out |
| BootCarve.CutIsBootChain | kernel/src/memory/pmm.c:198-220 | the blocks of a range are the chain that the allocator model starts from |
| BootCarve.Carve | kernel/src/memory/pmm.c:172-220 | cutting succeeds if and only if the whole blocks of all ranges are fewer than the block structures; then there are that many blocks, range by range, and a page is in as many of them as ranges have it in their whole blocks, and spare as often as ranges have it behind those |
| BootCarve.CutsInOrder | kernel/src/memory/pmm.c:198-220 | the blocks lie wholly in their ranges and follow one another: within a range each next one begins 1024 pages on and all but the last are flagged; their number is the sum of the whole blocks |
| BootCarve.ShareOut | kernel/src/memory/pmm.c:246-273 | the pool loops reach every block and share them out by address |
| BootCarve.PoolsPartition | kernel/src/memory/pmm.c:246-273 | the two pools together hold every page as often as the blocks do |
| BootCarve.PoolsByAddress | kernel/src/memory/pmm.c:250-266 | a block is in the kernel's pool if and only if it starts above the users' span, and in the users' otherwise |
| BootCarve.PhysInit | kernel/src/memory/pmm.c:147-273 | on disjoint ranges in any order, start-up succeeds if and only if the block structures suffice; then the pools together have the whole blocks of all ranges, each block where its address says; a page of a range is in exactly one block of one pool if it lies in the whole blocks of the range, and once on the spare list otherwise; other pages are nowhere |
| BuddyPool.SplitKeeps | kernel/src/memory/pmm.c:560-602 | splitting keeps the invariant: tiling, region heads, tree, used table, page counter |
| BuddyPool.AbsorbKeeps | kernel/src/memory/pmm.c:664-698 | merging keeps the invariant |
| BuddyPool.FiledUnderItsOrder | kernel/src/memory/pmm.c:437-490 | the tree holds a block only under its own order and only while it is free |
| PowerOfTwo.IsPowerOfTwo | kernel/src/memory/pmm.c:351-353 | the bit test holds if and only if the number is a power of two, 0 included |
| PowerOfTwo.SmearedValue | kernel/src/memory/pmm.c:359-365 | a word whose bits say which bits at or above them were set is one less than the least power of two above the original |
| PowerOfTwo.NextPowerOfTwo | kernel/src/memory/pmm.c:355-368 | the shifts on 64 bits give the least power of two that is not smaller, up to 2^63, and 0 from there on |
| BuddyRuns.RequestOrder | kernel/src/memory/pmm.c:442-447 | rounding up and comparing finds the least order that holds the request if it is below MAX_ORDER, and none otherwise |
| BuddyRuns.AllocKeeps | kernel/src/memory/pmm.c:437-490 | allocating keeps the invariant |
| BuddyRuns.DeallocKeeps | kernel/src/memory/pmm.c:502-543 | freeing keeps the invariant, also for addresses the allocator does not know |
| BuddyRuns.LiveBlocksDisjoint | kernel/src/memory/pmm.c:293-303 | in every run of allocations and frees blocks never overlap, and the page counter is the sum of the used blocks |
| BuddyRuns.AllocReturns | kernel/src/memory/pmm.c:437-490 | an allocation returns a block that was not in use and has the least order that holds the request |
| BuddyRuns.LargestRequest | kernel/src/memory/pmm.c:438-447 | a request is served by splitting if and only if it is at most 512 pages |
| BuddyRuns.RegionsTiled | kernel/src/memory/pmm.c:202-211 | in every run the chain between neighbouring flagged heads tiles exactly one region, and from the last flagged head on the last two |
| BuddyRuns.FreedIsFiledExactly | kernel/src/memory/pmm.c:664-698 | right after it is freed, a block can be found if and only if it has MAX_ORDER or merges with its right neighbour |
| BuddyLoose.FreedIsLooseExactly | kernel/src/memory/pmm.c:664-698 | otherwise, and only then, it is loose: free and not in the tree |
| BuddyLoose.LooseIsNotFound | kernel/src/memory/pmm.c:437-490 | a loose block is in no bucket and is offered for no request |
| BuddyLoose.LooseStep | kernel/src/memory/pmm.c:437-698 | a loose block stays loose through an allocation or a free if and only if that is not the free of a block of its order directly to its left; such a free makes it the upper half of a block in the tree |
| BuddyLoose.LooseUntilLeftIsFreed | kernel/src/memory/pmm.c:437-698 | over every run a loose block stays loose if and only if no step frees a block of its order directly to its left |
| BuddyLimits.FreeMemoryIsLost | kernel/src/memory/pmm.c:664-698 | a run of three steps after which half the memory is free and no request can be served |
| BuddyLimits.LastBoundaryIsCrossed | kernel/src/memory/pmm.c:202-211 | with two regions, a run of six steps after which one block lies across the start of the second |
| BuddyBoundary.RunPrefixed | kernel/src/memory/pmm.c:437-698 | a run on a range can be done on the range with further free regions in front, with the same effect behind them and none on them |
| BuddyBoundary.LastIsCrossed | kernel/src/memory/pmm.c:202-211 | for any number of regions from two on, a run after which a block lies across the start of the last one |
| BuddyBoundary.UncrossedExactly | kernel/src/memory/pmm.c:202-211 | every run keeps all blocks from lying across a region's start if and only if that start is flagged, that is, if it is not that of the last region |
| BuddyHeap.Range.Allocate | kernel/src/memory/pmm.c:437-490 | the search and the splitting loop on linked structures do what the allocation on the chain does; nothing is returned exactly if no block is offered |
| BuddyHeap.Range.Split | kernel/src/memory/pmm.c:560-602 | links a node for the upper half behind the block and files it |
| BuddyHeap.Range.CoalesceBlock | kernel/src/memory/pmm.c:664-698 | the merge on linked structures does what the merge on the chain does |
| BuddyHeap.Range.Deallocate | kernel/src/memory/pmm.c:502-543 | freeing an address on linked structures does what freeing on the chain does, and keeps the invariant |
| BuddyHeap.Range.constructor | kernel/src/memory/pmm.c:198-220 | the linked blocks at boot are the chain that the runs start from |
| NvmeQueue.PollHitsExactly | kernel/src/drivers/block/nvme.c:565-575 | in every reachable state the phase of the slot at the head matches if and only if there is a posted completion that the host has not seen |
| NvmeQueue.RunIsSafe | kernel/src/drivers/block/nvme.c:445-633 | in every run, over any number of laps and for any controller, the k-th completion accepted is the one posted for the k-th command, and no stale entry is accepted |
| NvmeQueue.HistoryGrows | kernel/src/drivers/block/nvme.c:445-633 | nothing submitted, posted or accepted is ever changed |
| NvmeQueue.OutstandingCompletes | kernel/src/drivers/block/nvme.c:545-633 | an outstanding command can always complete: after a fetch and a post the next look matches and yields that result |
| NvmeQueue.ActionExactly | kernel/src/drivers/block/nvme.c:545-633 | while a command is outstanding, an action of the controller makes a completion appear if and only if it is a post and the command has been fetched, with the code and result of the post |
| NvmeQueue.AwaitedIsFirst | kernel/src/drivers/block/nvme.c:565-633 | a wait returns the code and result of the first post behind the first fetch |
| NvmeQueue.TimesOutExactly | kernel/src/drivers/block/nvme.c:565-633 | a wait times out if and only if the controller never posts behind a fetch |
| NvmeQueue.CommandIdSticks | kernel/src/drivers/block/nvme.c:534-538 | command n gets identifier n below 65535, and 0 from there on |
| NvmeQueue.QueuePair.SubmitCommand | kernel/src/drivers/block/nvme.c:445-466 | writing the slot and ringing the doorbell is the submission step of the protocol |
| NvmeQueue.QueuePair.SubmitSync | kernel/src/drivers/block/nvme.c:545-633 | what the wait returns follows from the actions of the controller alone: it times out exactly if no post follows a fetch, and else returns that post; this is the completion posted for this very command, on the success and on the error path |
| NvmeQueue.Session | kernel/src/drivers/block/nvme.c:545-633 | over a whole session outcome k follows from the actions during command k and is what the controller posted for command k; if a post follows a fetch in all of them, every command gets its outcome |
| NvmeTransfer.RawBlock | kernel/src/drivers/block/nvme.c:219-274 | the commands cover the requested blocks in order, without gap or overlap and within the limit, each from its own part of the buffer, all but the last with as many blocks as the limit allows; a failing command stops the loop and is not counted |
| NvmeTransfer.TilesOnce | kernel/src/drivers/block/nvme.c:246-270 | every requested block is in exactly one command, and no other block is in any |
| NvmeTransfer.LimitTruncates | kernel/src/drivers/block/nvme.c:232-232 | the 16-bit limit per command is 0 if and only if it should be 65536 blocks or more |
| NvmeTransfer.EndlessExactly | kernel/src/drivers/block/nvme.c:246-270 | if no command fails, the loop goes on for ever if and only if there is a block to transfer and the limit is 65536 blocks or more |
| NvmeTransfer.TurnsWithoutLimit | kernel/src/drivers/block/nvme.c:246-270 | with a limit of 0 every turn issues the same command, with 0xFFFF as its length, and changes neither the first block nor the blocks left |
| NvmePrps.PrpPool.SetupPrps | kernel/src/drivers/block/nvme.c:150-212 | for every buffer, with the pool reallocated as needed: every store lies in the pool and what a controller reads through PRP2 names the pages the buffer touches behind its first, if and only if it touches no more pages than a page of the pool has words; a call that allocates the pool anew stores outside it if and only if the buffer touches more; PRP2 is 0 for one page, the second page for two, and the pool for more |
| NvmePrps.PrpPool.Fill | kernel/src/drivers/block/nvme.c:191-205 | up to one entry less than a page holds the list is in place; from there on its last word is a link, the words the link leads to stay zero, and a store has gone beyond the eighth page |
| NvmePrps.ListExactly | kernel/src/drivers/block/nvme.c:191-209 | such a pool, read as the specification says, lists the pages of the buffer if and only if no link was written |
| NvmePrps.StoresOutside | kernel/src/drivers/block/nvme.c:174-205 | a first transfer of 2 MiB on 4096-byte pages from a buffer that does not begin with a page stores outside the pool it has just allocated |
| NvmePrps.DescribableExactly | kernel/src/drivers/block/nvme.c:219-270 | all commands of a request meet the condition if and only if the first one does; for a request of at least one full command of 2^t bytes on pages of 2^p bytes, if and only if t + 3 < 2p, or t + 3 = 2p and the buffer begins with a page |
| NvmePrps.IssuedExactly | kernel/src/drivers/block/nvme.c:219-270 | the same for the commands that the splitting loop has issued |
| NvmePrps.DescribeOne | kernel/src/drivers/block/nvme.c:150-212 | one set-up call gives its command a PRP2 that names the second page or the pool; the pool as it then is describes the pages of the command, with every store inside, if and only if the command meets the condition |
| NvmePrps.DescribeAll | kernel/src/drivers/block/nvme.c:246-270 | over the set-up calls of a whole request on one pool, command i gets the PRP2 of call i, which names the second page or the pool as that call left it; through it a controller reads the pages of the command, and every store of the call lies in the pool, if and only if the command meets the condition |
| BinaryTree.Descend | kernel/src/data_structures/binary_tree.c:231-337 | the search ends at the node of the key, or else where that node would be linked, and then no node has the key |
| BinaryTree.GrownAll | kernel/src/data_structures/binary_tree.c:246-291 | linking a new node there keeps the search order and changes one pointer only |
| BinaryTree.BinaryTree.Insert | kernel/src/data_structures/binary_tree.c:231-294 | insertion appends the datum to those of its key and leaves the other keys alone |
| BinaryTree.BinaryTree.Lookup | kernel/src/data_structures/binary_tree.c:301-337 | lookup returns the datum inserted first under the key, or none if there is none |
| BinaryTree.PreorderOnce | kernel/src/data_structures/binary_tree.c:545-585 | preorder lists every node exactly once |
| BinaryTree.PreorderNext | kernel/src/data_structures/binary_tree.c:545-585 | behind each node comes its left child, or its right one if it has no left one |
| BinaryTree.PreorderSmallerFirst | kernel/src/data_structures/binary_tree.c:545-585 | once a key larger than that of a node is visited no smaller one follows, so all of its left subtree comes before its right one |
| BinaryTree.ForEach | kernel/src/data_structures/binary_tree.c:545-585 | the stack-based traversal visits every node once: behind each its left child, or its right one if it has no left one, and the left subtree before the right one; its stack never leaves its `node_count` slots |
| Slab.SlotInside | kernel/src/memory/slab.c:30-45 | every entry lies inside the region and behind the header |
| Slab.Measure | kernel/src/memory/slab.c:30-40 | the header's size and the number of entries, as computed from sizes in bytes, are those of the model in words |
| Slab.Slab.CreateSlab | kernel/src/memory/slab.c:25-46 | the new region's entries are all free and chained in order, its header names the slab, no word outside it changes, and the end address is eight region sizes behind the start |
| Slab.Slab.Allocate | kernel/src/memory/slab.c:49-58 | hands out the first free entry, zeroed; no word outside it changes; an empty slab gets a new region |
| Slab.Slab.Free | kernel/src/memory/slab.c:66-84 | an address is pushed if and only if it lies within eight region sizes from the start; a live entry of any region then becomes the first free one, and is lost otherwise; after a push the state can be accounted for if and only if the address is an entry not on the free list |
| Slab.PushSoundExactly | kernel/src/memory/slab.c:81-84 | pushing an address leaves a list that some account of free, live and lost entries fits if and only if it is the address of an entry that was not free |
| Slab.OldEntryReturns | kernel/src/memory/slab.c:29-84 | a run that takes an entry back although it is not in the present region: it then heads the free list |
| Slab.Slab.Safe | kernel/src/memory/slab.c:25-85 | in every state reached by allocations and by frees of live entries, of the present region or an earlier one, free, live and lost entries make up all entries, none is two of these, and entries do not overlap each other or a header |
| FifoQueue.Queue.Enqueue | kernel/src/data_structures/queue.c:151-184 | appends to the sequence of the queue, also when `tail` is stale because the queue was empty |
| FifoQueue.Queue.Dequeue | kernel/src/data_structures/queue.c:296-319 | removes the first of the sequence |
| Scheduler.StepConserves | kernel/src/scheduling/scheduler.c:99-314 | no step loses or duplicates a process: only spawning adds one, only purging removes the dead of its processor |
| Scheduler.RunConserves | kernel/src/scheduling/scheduler.c:99-314 | over every run, a process is present or purged as often as it was there or spawned |
| Scheduler.PlaceIsUnique | kernel/src/scheduling/scheduler.c:99-314 | a process that is present once is executing on one processor, in one queue or on one dead list, and nowhere else |
| Scheduler.OnePlaceInEveryRun | kernel/src/scheduling/scheduler.c:99-314 | in every run a process spawned once and not purged is in exactly one place |
| Scheduler.StillWaiting | kernel/src/scheduling/scheduler.c:120-157 | whatever all processors do, a process moves forward in its queue by exactly one place per dispatch of its processor |
| Scheduler.DispatchedAfterExactly | kernel/src/scheduling/scheduler.c:120-157 | a process with k others before it is dispatched after exactly k further dispatches of its processor |
| Scheduler.ExecutesAgainAfter | kernel/src/scheduling/scheduler.c:99-173 | a process that yields to others or is preempted with n others waiting executes again after exactly n further dispatches of its processor |
| Scheduler.SpawnedLast | kernel/src/scheduling/scheduler.c:310-314 | a spawned process waits behind all others in the global queue, and no processor is affected |
| Scheduler.AdoptedAfterExactly | kernel/src/scheduling/scheduler.c:281-314 | whatever all processors do, a process with k others before it in the global queue is taken by the adoption after exactly k further ones |
| Scheduler.OnlyExitedDie | kernel/src/scheduling/scheduler.c:247-276 | over every run, a process that does not exit comes on no dead list and is not purged |
| Scheduler.ExitedNeverReturns | kernel/src/scheduling/scheduler.c:99-314 | a process that is present once and exits executes nowhere any more, in any run that does not spawn it anew |
| Scheduler.Processor.SchedRun | kernel/src/scheduling/scheduler.c:120-157 | the code on the linked queues is the dispatch step, or the idle step when the local queue is empty |
| Scheduler.Processor.LookForProcess | kernel/src/scheduling/scheduler.c:281-294 | moves the first process of the global queue to the end of the local one |
| Scheduler.Processor.SchedYield | kernel/src/scheduling/scheduler.c:99-109 | the code is the yield step, after which the process waits behind all others (`LeavesForTheEnd`); with an empty local queue it does nothing |
| Scheduler.Processor.SchedPreempt | kernel/src/scheduling/scheduler.c:163-173 | the code is the preemption step, after which the process waits behind all others and the dead list is as it was (`LeavesForTheEnd`) |
| Scheduler.Processor.SchedExit | kernel/src/scheduling/scheduler.c:247-253 | the code is the exit step, after which the process is on the dead list and the processor executes none (`ExitedIsDead`) |

## Left out

- limine: transient I/O errors, a write that fails halfway (the code does not log it), argument parsing, the MBR checks, and installing into a GPT partition.
- UndoBuffer.Buffer.Load: a file whose entry count exceeds the log's 256 slots is required not to occur; the original does not check it.
- GptEmbedding.Embedded: both headers are taken to give one entry size, and the arrays to end below 2^64.
- GptInstall.InstallSucceedsExactly: the reads before the first write and the contents of the two headers are parameters; the scan of the entries is `GptEmbedding.LastUsed`.
- GptContents.InstallLeaves: for the shipped image; the entries that remain of the second array, whose header gives their size, are taken to end before its half, and the arrays below 2^64. What the headers say is a parameter.
- BlockAllocation.AllocateNewBlocks: appends to an inode that already ends in the double or triple level; there the code and the lookup describe different maps. The limit it asks for is a bookkeeping bound of the model that callers raise first.
- BlockFree.FreeBlocksFromInode: starting at a block other than 0.
- BlockMap.FileSystem.GetFreeBlock: panics on a full bitmap, so callers are required to leave room; the bitmap is a sequence of bits.
- BlockFree.FreeBlock: what an access outside the page does is not modelled.
- DiosFS: in-block offsets of data transfers, directory entries and the inode bitmap of the kernel. A run over files ends at the first operation for which there is no room, where the original panics.
- ImageBuild.Image.WriteFile: what a block that was written in one form reads as in another is a parameter, and so is where the search for a directory entry ends once it has left the directory's entries.
- mkdiosfs: writes at an offset, double and triple levels, the superblock and region offsets, and reading host files. Blocks are typed by what was last written to them; the byte layout of entries and pointers is not modelled.
- BootCarve.Sort: requires a range, since with none the original's loop bound wraps around. Ranges are taken to be page aligned.
- BuddyHeap.Range.Allocate: requests of more than 1024 pages, which `buddy_alloc_large_range` serves.
- BuddyHeap: the link between chains of different ranges, the hash table and the removal code of the tree, which are a map and a set per order; the loop that skips entries filed under a wrong order, which the invariant excludes.
- NvmeQueue: what happens after a timeout, controller bring-up and registers; queue depth at least 2.
- NvmeTransfer.RawBlock: requires the limit per command to fit 16 bits; `EndlessExactly` says what happens otherwise.
- NvmePrps.PrpPool.SetupPrps: a buffer is taken not to overlap the pool and its length to fit 32 bits; what a store outside the words asked for does there is not modelled, nor is a failing allocation. Described are the pool's contents at the end of each call, before the next one overwrites them.
- BinaryTree.BinaryTree.Insert: keys of 2^32 and more, which a node cannot store; removal, destruction and the red-black stubs.
- Slab.Slab.Free: the page allocator is taken to give regions that do not overlap what the slab has, and accepted addresses to be word aligned and inside the modelled memory. After a push that `PushSoundExactly` calls unsound nothing more is promised.
- Scheduler: sleeping, waking, stealing processes from other processors, and priority queues; each step is atomic.
- FifoQueue: LIFO and priority modes, locks.
- The rest of the kernel (drivers, VFS, ELF loading, system calls) would add easier members only.
