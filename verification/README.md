# A verified model of the DOS-C kernel's data structures

These Dafny modules model the parts of the FreeDOS kernel (DOS-C) that keep structured data in place: the sector
cache, the file allocation table, files on FAT volumes, the memory control blocks, path names, handles, the master
environment, disk transfers and the default layout of a volume. Where the C code changes something step by step, the
model is a class with the same fields, or a method with the same loop, proved against functions and predicates on plain
values; what those mean is proved about the functions as lemmas.

The modules build on each other:

- `Arith`, `ErrorCodes`, `LruRing` and `BlockIo`: the buffers, linked in one ring in order of use, in front of the disks.
  The *logical disk* is the content of a valid buffer, or else of the disk. Every operation keeps at most one valid buffer
  for a block and tells exactly what happens to the logical disk. Reads and writes may fail in any pattern; two constants
  of a cache say whether its drivers are reliable, and what only then holds is stated under them.
- `FatPacking` and `FatTable`: entries of 12, 16 and 32 bits packed into bytes, and `link_fat` and `next_cluster` on the
  cached sectors that hold these bytes, shown to be reads and writes of one array of cluster numbers.
- `FatChains` and `FatFiles`: when such an array is *safe* (no cross links, no link to a free cluster, no cycle), and the
  allocation routines, each single FAT write of which leaves it safe. The FAT after every write is kept in a ghost log.
- `FileSize`, `FileData`, `DataBlocks`, `FileIo`, `FileWrite` and `FileTable`: growing and cutting files, and `rwblock` as
  reading and splicing bytes of a file, through the cache and past it, without touching any other file. `FirstFile` goes
  from a formatted disk (a disk of zeros is one) through a fresh cache and a mounted volume to a first file, so that what
  these theorems start from can be reached.
- `McbChain`, `McbPolicy`, `MemMgr` and `KernelAlloc`: the headers in memory that tile it, and the allocator on top.
- `PathNames`, `TrueNameSpec`, `TrueNames` and `FcbNames`: path resolution on a stack of directories, the pointer walk
  that does the same in place, and the way from a path to directory entries and back.
- `HandleCounts`, `Handles`, `Environment`, `DiskTransfer` and `Geometry`: reference counts of open files, the packed
  environment, chunked transfers, and the arithmetic that lays a FAT volume out.

The configuration modelled is WITHFAT32 on, WRITEZEROS off and SHARE absent. Layout and limits of FAT entries follow
the FAT32 File System Specification 1.03 (sections "FAT Data Structure", "FAT Type Determination" and "FAT Volume
Initialization").

Where the code and its own comments disagree, the model follows the code:

- The comment at kernel/blockio.c:126-129 speaks of the last buffer of the chain; the test at line 135 looks at the
  first one, to which the walk has come back (`Victim`).
- A FAT32 entry's four reserved bits are cleared by a write (kernel/fattab.c:341), while the specification wants them kept.
  `FatPacking.ReservedBits` says exactly when they survive.
- The note at kernel/newstuff.c:639-642 says that only the user's part of a path is turned into upper case; the call before
  it takes the current directory along.
- Duplicating a handle onto itself (kernel/dosfns.c:685-706) leaves its entry counted once too often, and so does
  duplicating it to a number past the handle table, which INT 21h AH=46h does not check (kernel/inthndlr.c:1044): if the
  byte found there is 0xFF, it is overwritten. The contract of `DosForceDup` has both in one equivalence, and
  `DuplicatedPastTable` an input.
- An open that a device driver refuses leaves its entry counted though no handle names it (kernel/dosfns.c:451-481); the
  contracts of `DosOpenSft` and `DosOpen` say exactly when, and `RefusedOpenLeaks` has an input.
- A write beyond the end of a file for which there is no room up to its offset writes nothing, but changes the size to
  what the clusters hold (kernel/fatfs.c:1104-1114). `SizeRight` says exactly when a write leaves the right size, and
  `RefusedWriteLengthens` has an input: one byte at offset 10000 of a file of 100 bytes on a full drive makes it 512 bytes
  long.
- The caps at kernel/initdisk.c:403-408 and 469-475 are not the limits up to which a layout works, and for FAT16 and FAT32 there are
  partitions so small that no cluster size is found; `Geometry12`, `Geometry16` and `Geometry32` have the exact limits.

## Model

| member | source | states |
|---|---|---|
| LruRing.UnlinkKeepsRing | kernel/blockio.c:70-72 | taking a buffer out of the ring leaves one circular ring, its links inverse to each other, with the others in their order |
| LruRing.InsertKeepsRing | kernel/blockio.c:74-78 | putting it back in front of the first buffer gives a ring again, in the old order behind it |
| BlockIo.BufferCache.constructor | kernel/config.c:2218-2238 | the links set up at boot are one ring of all buffers, none of them valid; the logical disk is the disk, and FAT copies that agree on it follow their primary |
| BlockIo.BufferCache.MoveToFront | kernel/blockio.c:68-79 | the ring after a move is the old one with the buffer in front, and all buffers stay what they were |
| BlockIo.BufferCache.SearchBlock | kernel/blockio.c:81-156 | a hit is the one valid buffer of the block, a miss means there is none; the victim is chosen as the code does and put first, and the logical disk stays |
| BlockIo.VictimChosen | kernel/blockio.c:114-143 | the buffer given up on a miss is the last one marked for reuse, else the last without a FAT sector if the first has one and fewer than three have, else the last |
| BlockIo.BufferCache.GetBlk | kernel/blockio.c:213-244 | on success the first buffer holds the block, as the logical disk has it, which is unchanged; after a failed read it is still the buffer of its old block, written back and marked for reuse; other buffers in the ring are untouched |
| BlockIo.BufferCache.Flush1 | kernel/blockio.c:306-339 | a valid dirty buffer reaches the disk and, for a FAT sector, every copy of it; nothing else on the disk changes, and nothing at all for other buffers; a failed write gives the buffer up |
| BlockIo.FlushCoherent | kernel/blockio.c:306-339 | write-back keeps the cache coherent even when a write fails, losing at most that block |
| BlockIo.FlushMirrors | kernel/blockio.c:317-334 | an error-free write-back keeps the FAT copies equal to a clean primary, and equal after a dirty one |
| BlockIo.UntouchedCopies | kernel/blockio.c:317-334 | the copies of one FAT sector are the copies of no other |
| BlockIo.BufferCache.FlushBuffers | kernel/blockio.c:286-301 | after an error-free flush of a drive its disk is its logical disk and all FAT copies agree; the logical disk is unchanged; of its buffers only DIRTY is cleared, and VALID where a write failed, and no other buffer is touched |
| BlockIo.BufferCache.Flush | kernel/blockio.c:344-362 | the same for all drives, with every buffer given up and nothing but DIRTY and VALID cleared |
| BlockIo.BufferCache.DeleteBlocks | kernel/blockio.c:158-181 | no valid buffer is left for the range; what was dirty is written first before a read and dropped with all its flags before a write; buffers outside the range are not touched |
| BlockIo.TransferCoherent | kernel/fatfs.c:1426-1444 | a transfer past the cache into a range that no buffer holds keeps the cache coherent |
| BlockIo.BufferCache.SetInvalid | kernel/blockio.c:249-260 | no buffer of the drive is valid afterwards, all its flags being cleared, those of other drives are not touched, and the logical disk of that drive is the disk |
| BlockIo.BufferCache.DirtyBuffers | kernel/blockio.c:264-277 | the answer is no exactly when no buffer of the drive is dirty, and then its disk is its logical disk |
| BlockIo.BufferCache.AllocateHmaSpace | kernel/blockio.c:491-517 | in the high memory area a buffer stays in the ring if and only if it begins after the last byte of the area or ends before its first; the others keep their order, and no data is lost; elsewhere nothing happens |
| BlockIo.UntouchedElements | kernel/blockio.c:499-516 | what stays in the ring is what the area does not touch |
| BlockIo.WalkGoesOn | kernel/blockio.c:499-516 | each step of that walk drops or keeps one buffer, and what it will have kept in the end is fixed from the start |
| FatPacking.ReadBack | kernel/fattab.c:233-345 | a written entry reads back as itself for every value that is stored, in all three widths |
| FatPacking.OthersKept | kernel/fattab.c:233-345 | writing one entry leaves every other as it was, also the half of a shared byte |
| FatPacking.Neighbour12 | kernel/fattab.c:259-302 | twelve-bit neighbours share a byte, and a write to one keeps the other |
| FatPacking.ReservedBits | kernel/fattab.c:339-341 | the reserved bits of a FAT32 entry survive a write just when they were zero |
| FatTable.Dpb.Locate | kernel/fattab.c:190-218 | the sector and index computed for an entry are where its bytes are, within the FAT |
| FatTable.Volume.GetFatBlock | kernel/fattab.c:65-88 | a FAT sector in the cache, tagged as such; the logical disk stays and other buffers are not disturbed |
| FatTable.Volume.Fetch12 | kernel/fattab.c:239-257 | an entry that straddles two sectors gets two different buffers, both resident |
| FatTable.Volume.Link12 | kernel/fattab.c:227-303 | for 12 bits: the FAT's bytes change as one entry written, or not at all; what is read is the entry |
| FatTable.Volume.Link16 | kernel/fattab.c:304-325 | the same for 16 bits |
| FatTable.Volume.Link32 | kernel/fattab.c:327-345 | the same for 32 bits |
| FatTable.Volume.LinkFat | kernel/fattab.c:161-375 | `link_fat` writes one element of the array of cluster numbers or reads it; the free count stays right unless the value is cut down to zero. By the fields of `struct dpb` and the bytes of the disk: the value read is that of the entry's bytes, a value written changes these bytes of these sectors (twelve bits of two bytes for FAT12) and no other byte of the logical disk |
| FatTable.EntryBytes | kernel/fattab.c:190-218 | the element of the array for a cluster is read off the bytes at 3c/2, 2c or 4c behind the sector `dpb_fatstrt`, or for FAT32 without mirroring behind that of the active FAT, with the marks for ends and bad clusters of each width |
| FatTable.Rewrote | kernel/fattab.c:227-345 | bytes of the FAT written as one packed entry are those bytes of those sectors of the disk, and all others are as before |
| FatTable.CountKept | kernel/fattab.c:352-373 | a free count that was known and right is right after a write if and only if no other value than zero is cut down to zero |
| FatTable.FreeCountUpdate | kernel/fattab.c:352-373 | how the number of free entries changes with one entry |
| FatTable.FreeCountIs | kernel/fatfs.c:1523-1575 | what is counted: the clusters from 2 on whose entry is zero |
| FatTable.Volume.NextCluster | kernel/fattab.c:380-407 | the next cluster as the array has it, with the error values for ends that point into the void |
| FatTable.NextPlainly | kernel/fattab.c:380-407 | that next cluster by the fields of `struct dpb` and the bytes of the disk: the entry, or 1 where the cluster, or the one it names, is out of range or names a free or impossible one |
| FatTable.Volume.IsFreeCluster | kernel/fattab.c:410-413 | yes exactly when the entry is free |
| FatTable.Volume.ReadFsInfo | kernel/fattab.c:91-114 | a hint or count in range is kept as it is on the disk, and one out of range is taken as unknown |
| FatChains.ClaimSafe | kernel/fatfs.c:884-902 | marking a free cluster as an end keeps the FAT safe, and nothing points to it |
| FatChains.HangSafe | kernel/fatfs.c:904-917 | linking a chain's end to such a cluster keeps the FAT safe |
| FatChains.CutSafe | kernel/fatfs.c:1912-1925 | ending a chain early, or freeing a cluster that nothing points to, keeps the FAT safe |
| FatChains.NoCycle | kernel/fatfs.c:1004-1035 | in a safe FAT no walk meets a cluster twice |
| FatChains.ChainUnique | kernel/fatfs.c:963-1042 | the start cluster determines the chain |
| FatChains.ChainsDisjoint | kernel/fatfs.c:963-1042 | chains of different files share no cluster |
| FatChains.WipeStep | kernel/fatfs.c:576-604 | each cluster freed by the wipe of a chain leaves a safe FAT, and the next of the chain is still found |
| FatFiles.ProbesAll | kernel/fatfs.c:706-755 | one round of the search looks at every cluster, and at none twice |
| FatFiles.Sweep | kernel/fatfs.c:706-755 | a found cluster is free; the search ends; without read errors it fails only when no cluster is free, and it never succeeds then |
| FatFiles.FindFatFree | kernel/fatfs.c:697-761 | the first free cluster from the hint on, going on at 2 from the end, which is the new hint; full, and no hint, exactly when the number of free clusters is zero |
| FatFiles.FNode.Extend | kernel/fatfs.c:884-920 | the chain is one cluster longer or the same, others keep their clusters, each write was safe, and a refusal means a full disk |
| FatFiles.FNode.MapCluster | kernel/fatfs.c:963-1042 | from any consistent cached position the result is the cluster a walk from the start finds; a write has the old chain as a prefix; disk full means no free cluster |
| FatFiles.WipeOutClusters | kernel/fatfs.c:571-610 | ends on every FAT, cyclic ones too, and only frees; on a chain it frees exactly its clusters, each write safe; the search hint is above no cluster freed, and if it moved then to one of them |
| FatFiles.DosFree | kernel/fatfs.c:1523-1575 | the number of free clusters, when no read fails; afterwards it is kept, and the search hint is the first free one |
| FatFiles.FlushDrive | kernel/blockio.c:286-301 | after the flush the disk has what the kernel sees; if no write failed that is what it saw before, and on a volume in good order each of the `dpb_fats` copies of the FAT, one FAT length apart, has the sectors of the first |
| FatFiles.Mount | kernel/fatfs.c:1797-1812 | a volume mounted on a cache in good order is in good order: hint and free count unknown, the FAT that of the logical disk |
| FileSize.ClustersForCeil | kernel/fatfs.c:1070-1090 | clusters for a size are the rounded-up quotient, at a boundary and between |
| FileSize.DosExtend | kernel/fatfs.c:1051-1165 | a file reaches its offset with exactly the clusters wanted, or has the size its clusters allow and the disk is full |
| FileSize.ShrinkFile | kernel/fatfs.c:1883-1938 | exactly the clusters behind the new end are freed and the last one left is marked as the end; other entries stay; a failure changes no entry; whenever an entry changed the disk and all FAT copies are up to date |
| FileData.BlockInjective | kernel/fatfs.c:74-82 | different sectors of a file are different sectors of the disk |
| FileData.BytePlace | kernel/fatfs.c:74-82 | where byte i of a file is: in sector dpb_data (or dpb_xdata) + (c - 2) * sectors per cluster + the sector in the cluster, c being the cluster that i falls into |
| FileData.SectorWritten | kernel/fatfs.c:1482-1487 | bytes written into a sector of a file are bytes spliced into the file, no others |
| FileData.RunWritten | kernel/fatfs.c:1426-1444 | a run of sectors written at once is a stretch of bytes spliced into the file |
| FileData.RunRead | kernel/fatfs.c:1426-1444 | a run of sectors read at once is a stretch of bytes of the file |
| FileIo.GatherRun | kernel/fatfs.c:1403-1424 | the sectors of one direct transfer are consecutive sectors of the file that lie together on the disk |
| FileIo.Masked | kernel/fatfs.c:1377-1382 | the low byte of a sector number is enough to find its place in a cluster |
| DataBlocks.ReadPart | kernel/fatfs.c:1448-1500 | bytes of one sector through the cache, the logical disk as before; its buffer is the first and marked for reuse if it was asked for |
| DataBlocks.WritePart | kernel/fatfs.c:1448-1500 | bytes stored into one sector of the logical disk and nothing else, its buffer first and marked likewise |
| FileIo.ReadBlock | kernel/fatfs.c:1234-1520 | a read gives min(count, size - offset) bytes, those of the file at its offset, and changes no file and no FAT entry |
| FileWrite.WriteBytes | kernel/fatfs.c:1234-1520 | the bytes are spliced in at the offset through grown chains, every FAT write safe. Without read errors the answer is min(count, room from the offset on), room being the clusters of the file and the free ones; a write stops short only when no cluster is free and the chain ends at the position reached; the size is known on every exit |
| FileWrite.SizeRight | kernel/fatfs.c:1104-1165 | the size after a write is the larger of the old one and the end of what was written if and only if there is room up to the offset |
| FileWrite.RefusedWriteLengthens | kernel/fatfs.c:1104-1114 | a write of which nothing is written that makes a file longer |
| FileWrite.WriteNone | kernel/fatfs.c:1288-1303 | a write of no bytes leaves size = offset and exactly the clusters for it if there are enough, and else a full disk and the size its clusters allow |
| FileTable.WriteTouchesNoOther | kernel/fatfs.c:1234-1520 | every other file keeps its chain and all its bytes through a write |
| FileTable.ResizeTouchesNoOther | kernel/fatfs.c:1288-1303 | and through a truncation |
| FileTable.Sft.ToFNode | kernel/fatfs.c:1814-1842 | the fnode made of a right entry is right |
| FileTable.Sft.FromFNode | kernel/fatfs.c:1844-1866 | the entry made of a right fnode is right, the relative cluster split into words and all |
| FileTable.Sft.Unsaved | kernel/fatfs.c:1305-1320 | an entry not brought up to date because the write would pass 4 GB is still right about its file |
| FileTable.Sft.ReadFile | kernel/fatfs.c:1234-1520 | the read seen from the system file table, its position moved by what was read |
| FileTable.Sft.WriteFile | kernel/fatfs.c:1234-1520 | the write seen from the system file table: bytes spliced, others untouched, every FAT write safe, the entry right on every exit; without read errors the answer, the size and where a short write stops are as for WriteBytes |
| FileTable.Sft.TruncateFile | kernel/fatfs.c:1288-1303 | the same for a write of no bytes |
| FileTable.SeenFresh | kernel/config.c:2218-2238 | through an empty cache the kernel sees the FAT of a formatted disk: safe, all of it free, with every sector of the clusters there |
| FileTable.FirstFile | kernel/fatfs.c:186-207 | from a formatted disk on, a fresh cache, volume and file are in good order, and the file has no clusters |
| McbChain.StoredUnique | kernel/memmgr.c:34-41 | the headers in memory determine the areas |
| McbChain.TilingReplaced | kernel/memmgr.c:54-79 | areas that fill the place of others leave memory tiled without gap or overlap |
| McbChain.RunsUnique | kernel/memmgr.c:113-205 | the view in which free neighbours are one area is unique |
| McbPolicy.SeenStep | kernel/memmgr.c:137-193 | one area more keeps the search's choice that of the policy: lowest fit, lowest of the smallest fits, highest fit, lowest of the largest |
| McbPolicy.NumberIs | kernel/memmgr.c:150-183 | which area each mode number stands for, in terms of the sizes and places of the free areas |
| McbPolicy.CarvedFills | kernel/memmgr.c:210-251 | the pieces of a split area fill it, one is the area asked for and the other is free |
| McbPolicy.NoneBigger | kernel/memmgr.c:195-206 | a request fails exactly when it is larger than the largest free area reported |
| MemMgr.MemoryManager.Boot | kernel/config.c:378-389 | at boot memory is one free area from the kernel to the top of RAM, and in good order |
| MemMgr.MemoryManager.JoinMcbs | kernel/memmgr.c:54-79 | an area takes in all free areas behind it, their headers are left free and marked, and memory stays tiled |
| MemMgr.MemoryManager.Search | kernel/memmgr.c:120-193 | no area changes hands, free areas passed are joined, and the one found is the policy's |
| MemMgr.MemoryManager.Carve | kernel/memmgr.c:210-255 | the area found is given to the process, cut at its lower or upper end |
| MemMgr.MemoryManager.DosMemAlloc | kernel/memmgr.c:113-255 | memory stays tiled and all others keep their areas. By the mode numbers: the area is the lowest that fits for 0x00, 0x40 and 0x80, the lowest of the smallest that fit for 0x01, 0x41 and 0x81, and else the highest, of whose upper end it is for 0x02, 0x42 and 0x82 alone; it has the size asked for and the current owner; where the search starts and falls back to low memory is told by the bits 0x40 and 0x80; failure means no joined run is large enough and reports the largest |
| MemMgr.FoundLow | kernel/memmgr.c:195-206 | a mode that prefers upper memory gets low memory only if no upper area is large enough |
| MemMgr.MemoryManager.DosMemLargest | kernel/memmgr.c:265-280 | the size of the largest free run from where the mode and the link put the start of the search, with no area changing hands and the access mode as before |
| MemMgr.MemoryManager.DosMemFree | kernel/memmgr.c:287-311 | an area in use becomes free; a stale, free or foreign header changes no area, and a free one nothing at all; memory stays tiled, and in good order if and only if it was not the block at the root of upper memory |
| MemMgr.MemoryManager.DosMemChange | kernel/memmgr.c:323-385 | succeeds exactly when the area and the free ones behind it are large enough; then it has the size and the owner, the rest is one free area, and others keep theirs |
| MemMgr.MemoryManager.DosMemCheck | kernel/memmgr.c:390-416 | a walk over the headers finds nothing wrong |
| MemMgr.MemoryManager.FreeProcessMem | kernel/memmgr.c:418-443 | every area of the process is free, in low and upper memory, nothing else changes and the link state is restored |
| MemMgr.AllReleased | kernel/memmgr.c:427-438 | no area of the owner is left and all others stay |
| MemMgr.MemoryManager.DosUmbLink | kernel/memmgr.c:475-503 | upper memory becomes part of the chain or a chain of its own, by a change to the one header before it |
| MemMgr.RelinkBack | kernel/memmgr.c:475-503 | linking and unlinking restores memory exactly |
| MemMgr.MemoryManager.TwoChains | kernel/memmgr.c:475-503 | while not linked, low memory is tiled up to the root and upper memory from it, each ending in its own last block |
| KernelAlloc.KernelAllocator.KernelAllocPara | kernel/config.c:1947-1995 | the kernel's area grows into the free one behind it by the request and a header, what is returned is new and lies in it, and memory stays tiled |
| PathNames.ConvertedIsName | kernel/newstuff.c:580-626 | what a component is cut to is a name of 8.3 form |
| PathNames.ConvertedPlainly | kernel/newstuff.c:580-626 | a component by positions: cut at its first dot, the name to eight characters and the extension to three, a star standing for question marks up to there; refused for a second dot or a forbidden character before the cut, and for nothing else |
| PathNames.ErrorIs | kernel/newstuff.c:181-184 | a bad path is "path not found" while there is a separator still to be read, and "file not found" else |
| PathNames.NameConverts | kernel/newstuff.c:580-626 | such a name is kept as it is |
| PathNames.NameUpcased | kernel/newstuff.c:637 | upper case keeps the form |
| TrueNameSpec.ResolvedCanonical | kernel/newstuff.c:530-629 | every path resolved consists of 8.3 names, fits into 128 characters, and has wildcards at most in its last component |
| TrueNameSpec.Plainly | kernel/newstuff.c:258-291 | what the first characters decide: an empty path, a UNC path, the drive by its letter or by default, an invalid drive, and whether resolution starts at the root or in the current directory of that drive |
| TrueNameSpec.FullIsCanonical | kernel/newstuff.c:462-637 | every answer is a drive and a canonical path in upper case, of at most SFTMAX characters |
| TrueNameSpec.ResolveAgain | kernel/newstuff.c:530-629 | a canonical path resolves to itself from any directory on the way |
| TrueNameSpec.DownAndUp | kernel/newstuff.c:548-570 | a directory followed by ".." is no move at all, whatever comes behind |
| TrueNameSpec.DotsGoBack | kernel/newstuff.c:548-570 | ".." goes back by one directory and is "path not found" at the root |
| TrueNameSpec.DotStays | kernel/newstuff.c:548-562 | "." names the directory it is in |
| TrueNameSpec.SeparatorsSkipped | kernel/newstuff.c:540-546 | one separator more, of either kind, changes nothing |
| TrueNameSpec.Idempotent | kernel/newstuff.c:246-637 | resolving a resolved path, or a UNC path, returns the same path |
| TrueNames.ScanIs | kernel/newstuff.c:580-626 | the loop over the characters of a component converts it as by its name and its extension |
| TrueNames.Component | kernel/newstuff.c:580-626 | a component is written in 8.3 form, or refused for exactly the reasons of the specification |
| TrueNames.PopDir | kernel/newstuff.c:560-570 | going back to the last backslash is dropping the last directory, refused at the root |
| TrueNames.Advance | kernel/newstuff.c:533-627 | one turn of the pointer walk is one step on the stack of directories |
| TrueNames.TrueName | kernel/newstuff.c:246-637 | the pointer walk gives the path, or the error code, of resolution on a stack; the drive answered and written is the default one unless the path has a letter, and the path starts at the root of that drive if a separator follows and else in its current directory; a UNC path is copied as it is if it fits, and refused if not |
| TrueNames.CopyUnc | kernel/newstuff.c:272-291 | that copy, with its zero, and the answer IS_NETWORK |
| FcbNames.ConvertNameSZToName83 | kernel/fatdir.c:461-477 | a component fills the eleven characters of an entry and the pointer stands behind it |
| FcbNames.ConvertName83ToNameSZ | kernel/fatdir.c:405-442 | the text of an entry's name, blanks at the ends dropped |
| FcbNames.NameRoundTrip | kernel/fatdir.c:405-477 | a name comes back from its entry just when neither part ends in a blank |
| FcbNames.EntryRoundTrip | kernel/fatdir.c:405-442 | an entry's name comes back from its text |
| FcbNames.DirOpen | kernel/fatdir.c:82-131 | the walk ends in the directory that the components of the path lead to, the last one split off when asked for, or stops at the first that is not there |
| FcbNames.DescendPush | kernel/fatdir.c:91-129 | one component more is one directory further down, and after one that is not there nothing is found |
| FcbNames.FullPathOpens | kernel/fatdir.c:82-131 | every path from the resolver is taken apart into the directories it was made of |
| HandleCounts.HandleSet | kernel/dosfns.c:703 | a handle that names another entry is one fewer for the first and one more for the second |
| HandleCounts.HandleTaken | kernel/dosfns.c:772 | a handle given up leaves every count high enough, and exact if the entry is counted down |
| Handles.OpenFiles.GetFreeHndl | kernel/dosfns.c:379-386 | the lowest free handle, or none is free |
| Handles.OpenFiles.GetFreeSft | kernel/dosfns.c:388-417 | the lowest entry not in use, which no handle of any process names |
| Handles.OpenFiles.DosOpenSft | kernel/dosfns.c:515-630 | an unnamed entry with count one, or an error that touches no entry in use; after an error exact counts stay exact if and only if no driver refused a device with an entry free, and else the lowest free entry is in use and unnamed |
| Handles.OpenFiles.DosOpen | kernel/dosfns.c:633-653 | the lowest free handle, and it alone, names a fresh entry; exact counts stay exact if and only if it was not a driver that refused, with a handle and an entry free |
| Handles.OpenFiles.CloneHandle | kernel/dosfns.c:655-668 | one more user of an inheritable entry |
| Handles.OpenFiles.ChildPsp | kernel/task.c:271-281 | a child process gets twenty handles, each that of its parent if it is inheritable and else 0xFF; counts stay exact |
| Handles.OpenFiles.DosDup | kernel/dosfns.c:670-681 | the lowest free handle names the same entry; counts stay exact |
| Handles.OpenFiles.DosForceDup | kernel/dosfns.c:683-706 | the new handle names the old one's entry after its own was closed; past the table nothing is closed and a foreign byte may be overwritten; exact counts stay exact if and only if the handles differ and the new one is in the table |
| Handles.RefusedOpenLeaks | kernel/dosfns.c:451-481 | a refused open that leaves its entry counted for no handle |
| Handles.DuplicatedPastTable | kernel/dosfns.c:693-704 | a handle duplicated past the table: success, one count too many, and a byte of something else overwritten |
| Handles.OpenFiles.DosCloseSft | kernel/dosfns.c:708-758 | the entry is counted down exactly when the driver or file system has no error |
| Handles.OpenFiles.DosClose | kernel/dosfns.c:760-775 | the handle is free whatever happens; counts stay exact if and only if the close succeeds |
| Environment.MapRemoved | kernel/config.c:2784-2793 | dropping a string from the buffer deletes its name from the map |
| Environment.MapAppended | kernel/config.c:2820-2829 | a string added behind the others adds its name to the map |
| Environment.PrefixNames | kernel/config.c:2772-2782 | comparing a name with its equal sign finds the variable of that name and no other |
| Environment.MasterEnv.SearchVar | kernel/config.c:2772-2782 | where the variable begins, or that there is none |
| Environment.MasterEnv.DeleteVar | kernel/config.c:2784-2793 | the strings behind it move down in place, and the buffer is what it would be without it |
| Environment.MasterEnv.CmdSet | kernel/config.c:2795-2836 | the map is updated, or loses the name for an empty value; a value is refused exactly when it does not fit, and then nothing changes |
| DiskTransfer.ChsInverse | kernel/dsk.c:910-938 | the cylinder, head and sector of a block stand for that block |
| DiskTransfer.SameTrack | kernel/dsk.c:910-938 | blocks up to the end of the track are sectors of it one after the other |
| DiskTransfer.DmaFits | kernel/dsk.c:940-951 | the sectors allowed end before the next 64K boundary |
| DiskTransfer.Drive.Attempt | kernel/dsk.c:1053-1122 | the retries move exactly the chunk, cut at the end of its track, or fail having touched no other block; success is one good try after at most four bad ones, failure is five bad tries, or a block past cylinder 1023 and no call at all |
| DiskTransfer.Drive.LbaTransfer | kernel/dsk.c:981-1139 | every BIOS call is logged: each chunk done ends in a try whose calls were all answered 0, which for write-and-verify is a write followed by a verify of the same sectors, or one call on drives that can; an error is five failed tries of one chunk. The chunks are consecutive, none crosses a track or a 64K boundary, and each is as large as that allows. What is reported is the prefix really moved, sector by sector, and nothing behind a complete request changes, if and only if the count goes into a byte: else a long request moves its count modulo 256 |
| Geometry.FatLengthEnough | kernel/initdisk.c:484-494 | the FAT length computed always has room for all clusters and the two reserved entries |
| Geometry.CalculateFatData | kernel/initdisk.c:385-536 | the loop over cluster sizes gives the first one accepted |
| Geometry.LayoutLeast | kernel/initdisk.c:385-536 | the layout in numbers: reserved sectors, directory and size fields, and the smallest cluster size, from 4 sectors or the entry of the FAT32 table on, that gives more than 4085 clusters and not more than the type allows, with the shortest FAT that has room for them |
| Geometry.Layout12Least | kernel/initdisk.c:398-436 | the same for FAT12: clusters of eight sectors and the shortest FAT with room for all entries up to the cap |
| Geometry.BpbToDpb | kernel/fatfs.c:1652-1731 | the parameters read back from a BIOS parameter block |
| Geometry.DpbNumbers | kernel/fatfs.c:1652-1731 | the parameters in numbers for a block from which nothing overflows |
| Geometry.Wraps | kernel/fatfs.c:1682 | the number of clusters when the subtraction or its cut to 16 bits wraps around |
| Geometry.ClampedIsLargest | kernel/fatfs.c:1683-1702 | the number of the last cluster is cut to the largest whose entry is in the FAT, if and only if it is not a FAT16 volume with a FAT too short even for FAT12, which is let through |
| Geometry.Geometry12 | kernel/initdisk.c:398-436 | a FAT12 layout is read back right, inside the partition and with no cluster cut off, if and only if the partition has 35 to 32736 sectors |
| Geometry.Geometry16 | kernel/initdisk.c:437-536 | the same for FAT16, if and only if the partition has 16409 to 8387744 sectors |
| Geometry.Geometry32 | kernel/initdisk.c:437-536 | the same for FAT32, if and only if the partition has at least 4182 sectors |

## Left out

- BlockIo.BufferCache.AllocateHmaSpace: one buffer stays, as its caller sees to: the area comes from behind the buffers that were asked for, of which there are at least six.
- FatFiles.WipeOutClusters: the safety of each write is stated for a well-formed chain; on a damaged FAT only its end and that it only frees are.
- FileTable.Sft.WriteFile: drives are trusted for writes from the FAT layer up, since a mounted volume (`Volume.Mounted`) has a cache with reliable writes. What a failed write does is stated for the cache alone: `BlockIo.FlushCoherent`, `Flush1` and `FlushDrive`. Read errors may come in any pattern.
- MemMgr.MemoryManager.DosMemFree: after the block at the root of upper memory was freed, which the kernel does not do, nothing is stated of the other operations; owner names in headers are not modelled.
- MemMgr.MemoryManager.DosMemChange: a paragraph of data that looks like a valid header, inside an area, is not a header of the model; resizing such a forged area is excluded.
- MemMgr.MemoryManager.DosMemAlloc: the current process is never number 0, the mark of free memory; a corrupt chain, for which the code has an error return, cannot arise and is not an input.
- MemMgr.MemoryManager.FreeProcessMem: the process freed does not own the block at the root of upper memory.
- KernelAlloc.KernelAllocator.KernelAllocPara: given room for the request; without it the code writes past the free area.
- TrueNames.TrueName: for local drives and UNC paths; SUBST, JOIN, network redirectors and device names are not modelled, nor that a current directory which no longer exists is reset.
- Handles.OpenFiles.DosForceDup: counts are unbounded; a count of 16 bits would wrap after 65535 handles of one entry.
- Handles.OpenFiles.DosOpenSft: network files and SHARE are not modelled.
- DiskTransfer.Drive.LbaTransfer: formatting a track and resetting a floppy drive are not modelled.
- Environment.MasterEnv.CmdSet: starts from the name and the value; the scanning of the line before it is not modelled.
- The information sector of FAT32 is not written back (`write_fsinfo`); what is read from it is only checked for range.
- Directories as files (`extend_dir`, directory entries and their search), time stamps, `merge_file_changes`, and the creation and deletion of files.
- The network redirector, SHARE, critical-error prompts, interrupts and drivers: their answers are parameters.
- `umb_init`: upper memory is there from the start (`MemMgr.MemoryManager.Over`) or not at all (`Boot`).
- Menus, messages, country tables, FCB functions and the command line of programs.
- Pointers: buffers in the cache are numbered, memory areas are paragraph numbers, and user memory is an array.
