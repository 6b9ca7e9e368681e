# KronosOS: verified core

KronosOS is a small x86-64 kernel. This project models its four stateful
components and proves what they promise, each as the imperative code it is:
classes and methods that update state step by step, specified by pure functions
over that state.

- **EXT2 driver.** `BlockCache` (a sector disk that may fail, under a block
  cache) and `Volume` (the same as a sequence of blocks) carry `InodeTable`,
  `BlockAllocator`, `Ext2State` and `BlockMap`. `FileImage`, `FileWorld` and
  `FileSteps` give every block in use a role and show what each block write does
  to all files; on them rest `FileIO`, `OpenFiles` and `FreshVolume`. `DirBlock`,
  `DirScan`, `DirList`, `DirSteps`, `Directory` and `DirRuns` treat directories,
  `CStrings` and `Paths` path names. The main results are `OpenFiles.Run` (a file
  is a byte string), `DirRuns.Run` (a directory is a map from names to inode
  numbers) and `VolumeRuns.Run` (both at once on one volume), although every layer
  works through one I/O buffer.
- **Virtual memory manager.** `PageTables` holds the four-level walk and the
  shape of the tables, a forest of distinct frames, `PageRights` what their
  entries let code do; `VirtualMemory`, `VmmRanges`, `VmmAlloc` and `VmmDelete`
  hold the operations and `VmmRuns` whole runs of allocation. The abstract view is
  a map from page to frame and entry bits.
- **Physical memory manager.** `Bitmaps`, `PhysicalMemory` and `PmmRuns`.
- **Scheduler.** `Scheduling`, with a ghost sequence beside the linked queue.

Contracts of the EXT2 layers hold for any disk; the parts about contents are
conditional on a reliable device and a consistent state (`Volume.Reliable`,
`Ext2State.Fs.Ready`, `OpenFiles.FsOk`, `Directory.KnownDir`). Disk outcomes,
memory contents left by the boot loader and the resources of a new task are
parameters.

Where the code and its comments or documentation differ, the model follows the
code: a handle opened read-only can be written and one opened write-only can be
read, because the flag values overlap (`kernel/src/fs/ext2.h:46-48`); the 2 MiB
path of `vmm_map_pages` maps one 4 KiB page a stride; `..` never takes a lone
component away; a READY task is lost when a tick or yield meets it as the current
task; reuse of a cleared directory entry can break the directory block or bring a
deleted name back; an unaligned reserved memory region can lose its last page.
Each of these has its exact condition below.

## Model

| member | source | states |
|---|---|---|
| `OpenFiles.Run` | kernel/src/fs/ext2.c:1201-1359 | Any run of reads and writes on any handles answers as plain byte strings with positions would, call by call; a write stops short only when no block is free or at the size limit; every state in between keeps allocator, metadata, files and handles in order (hole-free files, positions inside them) |
| `OpenFiles.WriteFile` | kernel/src/fs/ext2.c:1273-1359 | Refusal exactly for the coded conditions; otherwise the file becomes old[..p] + written bytes + old tail, every other file keeps its bytes, a short count means the volume is full or the single-indirect limit is reached, and the inode keeps all but size, pointers, modification time and i_blocks, which grows by the sectors of the blocks that the size needs more |
| `OpenFiles.ReadFile` | kernel/src/fs/ext2.c:1201-1270 | Returns exactly the bytes of the file from the position on, at most the size asked and never past the end, moves only that position, touches only the access time of the inode and leaves the rest of the buffer alone; the mode never refuses |
| `OpenFiles.WriteModeKept` | kernel/src/fs/ext2.c:1279-1282 | Writing is refused exactly where it was not asked for if and only if the flags are not those of read-only |
| `OpenFiles.ReadModeKept` | kernel/src/fs/ext2.c:1206-1211 | Reading is refused exactly where it was not asked for if and only if the flags ask for reading, alone or with writing |
| `OpenFiles.ModesOverlap` | kernel/src/fs/ext2.h:46-48 | A handle opened read-only can be written and one opened write-only can be read |
| `FileIO.WriteLoop` | kernel/src/fs/ext2.c:1294-1341 | The loop over blocks: from any covered state, the contents become the old ones with a prefix of the buffer laid over them, also when it stops early |
| `FileIO.AddBlock` | kernel/src/fs/ext2.c:1298-1312 | A fresh zeroed block appended to the file keeps its bytes and everything else; when the inode cannot take it, nothing but the allocator has changed |
| `FileSteps.EditChunk` | kernel/src/fs/ext2.c:1323-1334 | Writing a chunk into one block of a file replaces exactly those bytes of that file and keeps all other files, roles and counters |
| `FileSteps.EditClose` | kernel/src/fs/ext2.c:1343-1358 | Writing the inode back makes the edited contents those of the file on the volume, and no other inode or file changes |
| `FileWorld.EditAppend` | kernel/src/fs/ext2.c:1308-1310 | Setting the next pointer, with or without a new index block, covers one block more and changes neither the bytes nor any other file |
| `FileImage.DataWrite` | kernel/src/fs/ext2.c:1331-1334 | A write to one data block of a file changes the bytes of that block and no others, because distinct indices own distinct blocks |
| `FreshVolume.FreshOk` | kernel/src/fs/ext2.c:783-867 | A consistent volume with its metadata in use, empty files and closed handles is a state from which all runs may start |
| `Directory.FindInDir` | kernel/src/fs/ext2.c:562-609 | The first live entry with the name over all blocks of the directory, 0 if none, although every block passes through the one buffer |
| `Directory.AddEntry` | kernel/src/fs/ext2.c:664-780 | For an absent name the list of entries gains exactly the new one if and only if the first fit is safe (a split, a new block, or an unused record behind whose new length the same entries follow); a directory whose bytes show slack for the name takes it without growing; inodes keep their heads and the directory its inode but for the growth; other files are unchanged in any case, and failure has one of the coded causes and changes no file |
| `Directory.Unlink` | kernel/src/fs/ext2.c:1391-1485 | Exactly the first entry with the name goes; field by field, the link count of the file goes down by one (wrapping at 0), its deletion time is 0 when no link is left, and no other field and no other inode changes; every other entry and file stays; missing names and directories are refused without change |
| `Directory.GainedLookup` | kernel/src/fs/ext2.c:586-601 | After adding an absent name it resolves to its inode, every other name as before, and distinct names stay distinct |
| `Directory.LostLookup` | kernel/src/fs/ext2.c:1431-1464 | After removing a name every other name resolves as before and, with distinct names, this one to nothing |
| `Directory.DirBits` | kernel/src/fs/ext2.h:17-26 | A mode is that of a directory exactly when, of its four kind bits, bit 14 alone is set |
| `DirRuns.Run` | kernel/src/fs/ext2.c:562-780 | Any run of find, create and unlink calls on a directory answers as a map from names to inode numbers, as long as entries go to safe places and unlinked files are not open; a removal takes exactly one link from that inode and none from any other, the other calls none; other files never change |
| `VolumeRuns.Run` | kernel/src/fs/ext2.c:562-1485 | Any run of reads, writes, find, create and unlink calls on one volume: files answer as byte strings and directories as maps from names, a call changes only what it is about, and the volume stays in order at every point up to which all directory calls were allowed |
| `DirRuns.TableInserted` | kernel/src/fs/ext2.c:664-780 | Inserting an absent name into the list is one update of the map |
| `DirRuns.TableDropped` | kernel/src/fs/ext2.c:1431-1464 | Dropping a name from a list without repeats is one removal from the map |
| `DirScan.FindInBlock` | kernel/src/fs/ext2.c:586-601 | On a tiled block the scan returns the first live entry with the name |
| `DirScan.AddInBlock` | kernel/src/fs/ext2.c:691-740 | On a tiled block the entry goes to its first fit, and nothing changes when there is none |
| `DirScan.SlackIsTaken` | kernel/src/fs/ext2.c:698-716 | A record whose bytes show room for a name, unused and long enough or with that much behind its own name, is not passed over |
| `DirScan.RemoveInBlock` | kernel/src/fs/ext2.c:1431-1464 | On a tiled block the entry a lookup would find goes, the tiling stays, and the list loses exactly that entry |
| `DirScan.PlacedKeeps` | kernel/src/fs/ext2.c:698-740 | A split, or the reuse of an unused record with a safe fit, keeps the tiling and inserts exactly one entry |
| `DirScan.PlacedExactly` | kernel/src/fs/ext2.c:698-712 | Adding an absent name keeps the block tiled with exactly one entry more if and only if the fit is safe, which the block shows before the call |
| `DirScan.ExactIsSafe` | kernel/src/fs/ext2.c:698-706 | Reuse that fills the unused record exactly is always a safe fit |
| `DirScan.SlackReuseBreaks` | kernel/src/fs/ext2.c:702-704 | A concrete block on which reusing a cleared entry with slack breaks the tiling |
| `DirScan.StaleNameReturns` | kernel/src/fs/ext2.c:702-704 | A concrete run, two unlinks and an addition, after which the block is tiled but an unlinked name resolves again |
| `DirList.PlacedInDir` | kernel/src/fs/ext2.c:685-745 | The same condition for the whole directory: an insertion in one block is exactly an insertion in the list of all blocks if and only if the fit is safe |
| `DirBlock.ReuseExact` | kernel/src/fs/ext2.c:698-706 | After reuse with a shorter record the block is tiled exactly when the bytes behind the new record already tiled it |
| `DirBlock.SplitKeeps` | kernel/src/fs/ext2.c:718-732 | Splitting a record keeps the tiling and puts the new entry right behind the old one |
| `DirBlock.MergeKeeps` | kernel/src/fs/ext2.c:1444-1446 | Merging a record into its predecessor keeps the tiling and drops exactly that entry |
| `DirBlock.ClearKeeps` | kernel/src/fs/ext2.c:1447-1450 | Clearing an inode number keeps the tiling and drops exactly that entry |
| `DirBlock.EntryLayout` | kernel/src/fs/ext2.h:150-156 | Byte by byte, where inode, record length, name length, type and name of an entry lie |
| `BlockMap.GetBlock` | kernel/src/fs/ext2.c:344-455 | Equals the recursive radix-tree lookup for every index below the size limit and 0 beyond it |
| `BlockMap.PathThenIndex` | kernel/src/fs/ext2.c:356-450 | Splitting an index into direct, single, double or triple indirect digits loses nothing |
| `BlockMap.IndexThenPath` | kernel/src/fs/ext2.c:356-450 | Every legal digit path is the path of exactly its index |
| `BlockMap.IndexFits` | kernel/src/fs/ext2.c:356-425 | No product of the index arithmetic leaves 32 bits for blocks of at most 4096 bytes |
| `BlockMap.SetBlock` | kernel/src/fs/ext2.c:458-499 | What setting a pointer does to inode and volume in every branch, and that failure below the limit means a full volume |
| `BlockMap.SetThenLookup` | kernel/src/fs/ext2.c:458-499 | After a successful set the index finds the new block and every other index what it found before, also with a new index block |
| `Ext2State.AllocateBlock` | kernel/src/fs/ext2.c:226-278 | Returns 0 exactly when nothing is free; otherwise the first free block of the first group that has one, counted from the first data block, zeroed, with both counters right |
| `Ext2State.AllocateMany` | kernel/src/fs/ext2.c:226-278 | Over any run of allocations the blocks are nonzero, distinct and were free, and the run ends short only when nothing is free |
| `BlockAllocator.BlockLayout` | kernel/src/fs/ext2.c:260 | Bit 0 of group 0 is the first data block; the next bit and the next group lie one block and one group further on |
| `BlockAllocator.TakeKeeps` | kernel/src/fs/ext2.c:248-275 | Taking a clear bit keeps each group's count equal to its zero bits and the superblock count equal to their sum, and makes exactly one block used |
| `BlockAllocator.FindFreeBit` | kernel/src/fs/ext2.c:210-223 | The first clear bit, or -1 exactly when all are set |
| `InodeTable.ReadInode` | kernel/src/fs/ext2.c:136-167 | Returns the inode on the volume; fails exactly for numbers outside the groups |
| `InodeTable.WriteInode` | kernel/src/fs/ext2.c:170-207 | Changes exactly the record of that inode; fails exactly for numbers outside the groups |
| `InodeTable.InodeWritten` | kernel/src/fs/ext2.c:136-207 | Writing an inode and reading any inode: the one written, or what was there before |
| `InodeTable.SlotsDisjoint` | kernel/src/fs/ext2.c:144-165 | Distinct inode numbers have byte ranges that do not overlap |
| `InodeTable.InodeNumber` | kernel/src/fs/ext2.c:140-155 | The inode number from group, block and slot: inodes are counted from 1, group by group and slot by slot |
| `InodeTable.FieldOffsets` | kernel/src/fs/ext2.h:129-148 | The byte offset of every field of the inode record |
| `InodeTable.InodeRoundTrip` | kernel/src/fs/ext2.h:129-148 | Encoding an inode record and decoding it gives it back |
| `BlockCache.Device.ReadBlock` | kernel/src/fs/ext2.c:56-105 | Returns what cache and disk show for the block; a hit transfers nothing, a miss fills the first invalid entry or entry 0 if there is a page for it; keeps at most one valid entry a block and clean entries equal to the disk |
| `BlockCache.Device.WriteBlock` | kernel/src/fs/ext2.c:108-133 | Changes only the sectors of the block, and keeps uniqueness and coherence even when a sector write fails |
| `Volume.Run` | kernel/src/fs/ext2.c:56-133 | Any run of block reads and writes, on the disk or past its end and with any failures, keeps the cache unique and coherent; without failures and on the disk every read returns what an uncached disk holds |
| `Volume.StoreBlock` | kernel/src/fs/ext2.c:108-133 | On a reliable volume exactly one block changes, to the buffer contents |
| `Volume.LoadBlock` | kernel/src/fs/ext2.c:56-105 | On a reliable volume the buffer holds the block |
| `BlockCache.BlocksDisjoint` | kernel/src/fs/ext2.c:68-74 | Distinct blocks whose sector numbers fit in 32 bits have disjoint sectors |
| `BlockCache.ApartIff` | kernel/src/fs/ext2.c:68-74 | For any two block numbers and every block size, the sector runs are disjoint if and only if the numbers differ modulo the number of addressable blocks |
| `BlockCache.BlocksAlias` | kernel/src/fs/ext2.c:70-71 | The first pair of block numbers that share their sectors |
| `Paths.NormalizePath` | kernel/src/fs/ext2.c:502-559 | An absolute path of at most 255 characters becomes its normal form, which is no longer; a relative one resolves from the components of the current directory on, or from the root when nothing is mounted; longer texts are cut to 255 characters first; the result is normal, and no access leaves the buffers |
| `Paths.NormalShape` | kernel/src/fs/ext2.c:524-556 | The result is "/" or a slash-led list of nonempty components without slash, "." or ".." |
| `Paths.NormalLength` | kernel/src/fs/ext2.c:524-556 | The result is no longer than the absolute input |
| `Paths.NormalTwice` | kernel/src/fs/ext2.c:502-559 | Normalising the result again changes nothing |
| `Paths.ResolveConcat` | kernel/src/fs/ext2.c:511-518 | A path behind a directory resolves from the components of the directory on |
| `Paths.ResolveIsStack` | kernel/src/fs/ext2.c:534-543 | The result is what a stack of components gives if and only if no ".." reaches back to the first component |
| `Paths.LoneComponentStays` | kernel/src/fs/ext2.c:537-540 | A lone first component is not taken away by ".." |
| `CStrings.Strtok` | kernel/src/lib/string.c:147-184 | Yields the next maximal piece without delimiters, terminated in place, and leaves the rest to yield the remaining tokens |
| `CStrings.Strrchr` | kernel/src/lib/string.c:106-124 | The last place of the character, or none |
| `CStrings.Strchr` | kernel/src/lib/string.c:132-145 | The first place of the character, or none; the terminator for NUL |
| `CStrings.Strcat` | kernel/src/lib/string.c:78-85 | The destination text becomes the concatenation |
| `VirtualMemory.Vmm.MapPage` | kernel/src/memory/vmm.c:403-526 | Succeeds if and only if no address is null and there are as many free pages as tables missing. Success changes exactly one page of the flat view, whose entry carries, bit by bit, what the flags ask for; failure changes none, although tables may be new; every new table is linked writable and, below 2^63, for user code; tree of tables, allocator and other address spaces are kept |
| `VirtualMemory.Vmm.UnmapPage` | kernel/src/memory/vmm.c:529-623 | True exactly when the page was mapped; removes only that page, or the whole large page that held it |
| `VirtualMemory.Vmm.VirtToPhys` | kernel/src/memory/vmm.c:84-130 | Frame plus offset of the flat view, 0 when unmapped; the direct mapping above |
| `VirtualMemory.Vmm.IsMapped` | kernel/src/memory/vmm.c:705-748 | Agrees with the walk |
| `VmmRanges.MapThenTranslate` | kernel/src/memory/vmm.c:84-526 | After mapping, addresses of the page translate to frame plus offset exactly when no-execute is not set; all others, and all after a failure, as before |
| `VmmRanges.Run` | kernel/src/memory/vmm.c:403-623 | Any run of map and unmap calls on 4 KiB pages behaves as the same run on a flat page-to-frame map; unmap answers by that map, and map fails only on a null address or without a free page |
| `VmmRanges.MapPages` | kernel/src/memory/vmm.c:626-688 | On a range that was not mapped failure restores every translation, and it has its cause in one page of the range; success on the 4 KiB path gives each page its own frame and the bits that the flags ask for; all pages are mapped if and only if the 2 MiB path was not taken |
| `VmmRanges.HugePathLeavesGap` | kernel/src/memory/vmm.c:626-672 | For every count, on a range that was not mapped, a successful call maps all pages if and only if it did not take the 2 MiB path |
| `VmmRanges.WhichPages` | kernel/src/memory/vmm.c:636-671 | Page by page: on the 2 MiB path exactly every 512th page and the pages after the last stride are mapped |
| `VmmRanges.UndoneRestores` | kernel/src/memory/vmm.c:640-664 | What either path takes out after a failure was put there by the call, if the range was not mapped |
| `VmmRanges.MapRangeAt` | kernel/src/memory/vmm.c:674-688 | After success each page of the range leads to its own frame |
| `VmmAlloc.Allocate` | kernel/src/memory/vmm.c:834-907 | First fitting area; success maps it for user code, with the rights of request and area, to distinct, zeroed, formerly free frames; failure gives back area, translations and, without no-execute, every data frame, and with a fitting area it means that the free pages ran out: n pages and three tables for each 2 MiB touched are always enough |
| `VmmAlloc.PageCountCovers` | kernel/src/memory/vmm.c:838-842 | The rounded size is the least number of pages that covers the request if and only if the request is at most 2^64 - 4096; beyond that it is no page at all |
| `VmmAlloc.Rollback` | kernel/src/memory/vmm.c:866-897 | Takes the mapped pages back and frees their frames, except that no-execute keeps the frames held |
| `VmmAlloc.Free` | kernel/src/memory/vmm.c:910-953 | Unmaps the mapped pages of the range, frees what was behind them and marks the area unused |
| `VmmAlloc.AllocateThenFree` | kernel/src/memory/vmm.c:834-953 | Allocation followed by free of the same size restores translations, areas and allocator up to tables left behind, also while other areas are in use |
| `VmmRuns.Run` | kernel/src/memory/vmm.c:834-953 | Over any run of vmm_allocate and vmm_free the allocations in use hold pairwise disjoint, zeroed, formerly free frames, each mapped in an area of its own with its rights; every other page is mapped as before; used pages are the old ones, the new tables and those frames; a request is answered with the first area that fits whenever enough pages are free; if the tables of the lower half let user code through at the start, user code can use and write its memory |
| `VmmRuns.HoldCompose` | kernel/src/memory/vmm.c:865-901 | Frames taken and tables added by two steps in turn add up, and the second step leaves the first ones zeroed and held |
| `VmmRuns.LaidMore` | kernel/src/memory/vmm.c:865-901 | Mapping one more area leaves every allocation in use mapped to its own frames and the rest as before |
| `VmmRuns.LaidLess` | kernel/src/memory/vmm.c:910-953 | Unmapping one allocation leaves every other one mapped to its own frames and the rest as before |
| `VmmDelete.Delete` | kernel/src/memory/vmm.c:771-813 | Frees exactly the PML4 and the tables reachable from entries 0 to 255, in an order in which each is still held when its turn comes; keeps the current view and every other space |
| `VmmDelete.DeleteOrderDistinct` | kernel/src/memory/vmm.c:777-812 | The freed frames are distinct tables of that space, none shared |
| `VmmDelete.DeleteOrderComplete` | kernel/src/memory/vmm.c:777-812 | A frame is freed if and only if it is the PML4 or linked below its lower half through entries that are not huge |
| `VmmDelete.DeleteFreesOnce` | kernel/src/memory/vmm.c:777-812 | In the order of deletion no frame comes twice and every frame is still in use when its turn comes |
| `PageTables.IndicesInjective` | kernel/src/memory/vmm.c:93-96 | Distinct pages have distinct table indices |
| `PageTables.RouteWrite` | kernel/src/memory/vmm.c:519-523 | A write to the entry that a walk ends at changes the walks below that entry and no others |
| `PageTables.AddKeepsForest` | kernel/src/memory/vmm.c:428-470 | Linking a zeroed table into an absent entry keeps the tree of tables and every translation |
| `PageTables.MissingPrefix` | kernel/src/memory/vmm.c:447-505 | How many tables a mapping needs depends on the first three indices only |
| `PageRights.EntryFields` | kernel/src/memory/vmm.h:18-40 | Bit 0 of an entry is present, bit 7 is huge, and the frame is all but the low twelve bits |
| `PageRights.OpenStays` | kernel/src/memory/vmm.c:447-505 | When the new links are writable and open to user code, all links of the lower half stay so |
| `PageRights.PageAllows` | kernel/src/memory/vmm.c:436-519 | With open links the processor allows user access to, or writing of, a 4 KiB page exactly when its last entry does |
| `VirtualMemory.PageCarries` | kernel/src/memory/vmm.c:436-444 | Bit by bit, the hardware flags of a page mapped with given VMM flags |
| `PhysicalMemory.Pmm.constructor` | kernel/src/memory/pmm.c:38-151 | The window is the first largest usable entry above 1 MiB, cut to its whole pages and to 65536 of them; used are exactly the first 256 pages and those of overlapping reserved entries |
| `PhysicalMemory.Pmm.AllocPage` | kernel/src/memory/pmm.c:164-191 | The lowest free page, marked; 0 exactly when all are used |
| `PhysicalMemory.Pmm.AllocPages` | kernel/src/memory/pmm.c:194-246 | The lowest run of free pages, exactly it marked; failure exactly when there is no such run |
| `PhysicalMemory.Pmm.FreePage` | kernel/src/memory/pmm.c:249-284 | Clears exactly the page of a valid address and ignores all others |
| `PhysicalMemory.Pmm.FreePages` | kernel/src/memory/pmm.c:287-321 | For a run that starts in the window, clears exactly its pages up to the end of the window; ignores runs that start elsewhere |
| `PhysicalMemory.Pmm.IsPageFree` | kernel/src/memory/pmm.c:324-349 | True exactly for addresses of free pages of the window |
| `PhysicalMemory.Pmm.GetFreeMemory` | kernel/src/memory/pmm.c:352-368 | The number of free pages times the page size |
| `PhysicalMemory.Pmm.GetUsedMemory` | kernel/src/memory/pmm.c:371-387 | The number of used pages times the page size |
| `PhysicalMemory.LargestFits` | kernel/src/memory/pmm.c:38-85 | The window is empty or inside one usable entry above 1 MiB and is as long as that entry and 65536 pages allow |
| `PhysicalMemory.ReservesIsOverlap` | kernel/src/memory/pmm.c:101-140 | The marking loop marks all pages a reserved entry touches if and only if it does not stop early; it never does for page-aligned entries |
| `PhysicalMemory.LastPageMissed` | kernel/src/memory/pmm.c:101-140 | An unaligned reserved entry whose last page is touched but not marked |
| `PhysicalMemory.ReservesExactly` | kernel/src/memory/pmm.c:101-140 | Page by page: the marked pages are those the entry touches, but for the last one when the loop stops early |
| `PhysicalMemory.FreeManyClearsRun` | kernel/src/memory/pmm.c:287-321 | Freeing a held run clears exactly its pages |
| `PmmRuns.Run` | kernel/src/memory/pmm.c:164-321 | In any run that frees only what is held, live blocks are aligned, disjoint and account for every used page |
| `PmmRuns.BootAndRun` | kernel/src/memory/pmm.c:38-387 | From any aligned memory map, after any such run, live blocks lie past the first 256 pages inside one usable entry, and free plus used memory is the window |
| `Scheduling.Run` | kernel/src/core/exec/scheduler.c:50-616 | Any run of ticks, yields and creations keeps the invariant and moves, with the ticks since the last dispatch counted, as a round-robin scheduler that leaves a task it picks again READY; the task at position k is current right after the (k+1)-th schedule_next; at the end no READY task is lost if and only if none was lost before and no tick or yield met a READY current task other than the idle one |
| `Scheduling.Scheduler.constructor` | kernel/src/core/exec/scheduler.c:139-177 | The initial state satisfies the invariant, and no READY task is lost |
| `Scheduling.Scheduler.AddToReadyQueue` | kernel/src/core/exec/scheduler.c:83-101 | The linked list gains the task at its end |
| `Scheduling.Scheduler.RemoveFromReadyQueue` | kernel/src/core/exec/scheduler.c:103-136 | The linked list loses exactly that task and stays linked both ways; a task that is not queued changes nothing |
| `Scheduling.Scheduler.ContextSwitch` | kernel/src/core/exec/scheduler.c:555-583 | The states of all tasks after a switch; the invariant between calls holds |
| `Scheduling.Scheduler.ScheduleNext` | kernel/src/core/exec/scheduler.c:586-616 | The head of the queue becomes current, or the idle task |
| `Scheduling.Scheduler.TimerTick` | kernel/src/core/exec/scheduler.c:50-80 | Charges the running task and reschedules exactly when its quantum is used up; gives the state and tick count of every task and the ticks since the last dispatch; a READY task is lost exactly when the current one was READY |
| `Scheduling.Scheduler.Yield` | kernel/src/core/exec/scheduler.c:443-454 | The running task goes to the end of the queue and the head becomes current; a READY task is lost exactly when the current one was READY |
| `Scheduling.Scheduler.CreateTask` | kernel/src/core/exec/scheduler.c:350-418 | The first free slot is taken with the next task number, which skips 0, and, if its resources are there, its task is appended; otherwise the queue is as before; no READY task is lost or found |
| `Scheduling.Scheduler.SwitchLoses` | kernel/src/core/exec/scheduler.c:555-616 | A dispatch loses a READY task if and only if the task that leaves was READY and not queued again |
| `Scheduling.ServedMore` | kernel/src/core/exec/scheduler.c:586-616 | One more dispatch serves the next task of the earlier queue, whatever was appended |
| `Scheduling.FullQuantum` | kernel/src/core/exec/scheduler.c:47-75 | From the dispatch of a task other than the idle one and without yields: 19 ticks change neither the current task nor the number of dispatches, the 20th puts the task at the end of the queue and dispatches once |
| `Scheduling.ElapsedCounts` | kernel/src/core/exec/scheduler.c:61 | The elapsed time is the distance from the last dispatch to now, and a tick adds one to it, modulo 2^64 |
| `Scheduling.LoneTaskIsLost` | kernel/src/core/exec/scheduler.c:555-558 | The way into the losing state: a lone task that yields stays READY without being queued, and the next tick drops it |

## Left out

- Directory.AddEntry: reuse of a cleared entry that leaves slack does not add exactly one name; its contract says when it does (`DirList.SafeDir`), and `DirScan.SlackReuseBreaks` and `DirScan.StaleNameReturns` show the two ways it goes wrong. A directory that somebody has open is outside its theorem.
- DirRuns.Run: a call that is not allowed, in the sense of `DirRuns.Allowed`, ends what the run promises.
- VolumeRuns.Run: a directory call that is not allowed, in the sense of `VolumeRuns.Allowed`, ends what the run promises; the directories of the run stay unopened.
- Directory.Unlink: starts from the parent directory and the file name; a target that somebody has open is outside its theorem, because the open handle keeps a stale copy of the inode.
- OpenFiles.ReadFile: its theorem asks that position plus size stays below 2^64; beyond that the coded sum wraps around.
- OpenFiles.WriteFile: its theorem is for one handle per inode, as the driver keeps a copy of the inode in each handle, and for files whose size rounded up to blocks stays below 2^32, where the driver's block count wraps around; blocks left allocated by a failed write are not part of it.
- BlockCache.Device.ReadBlock: a cache page holds the first block_size bytes only; block numbers whose sector number exceeds 32 bits share sectors (`BlockCache.ApartIff`) and are outside the coherence claims.
- VirtualMemory.Vmm.MapPage: pages already mapped by a huge entry are outside its domain.
- VirtualMemory.Vmm.VirtToPhys: `PAGE_ADDR_MASK` keeps bit 63, so translations of no-execute pages carry it; `VmmRanges.MapThenTranslate` states exactly that.
- VmmAlloc.Allocate: requests above 2^64 - 4096 round to no page and succeed (`VmmAlloc.PageCountCovers`); user areas only; kernel areas lie above the direct mapping offset, where translation bypasses the tables.
- VmmAlloc.Free: below the direct mapping only, on ranges of 4 KiB pages that are not themselves tables.
- VmmRuns.Run: user areas below the direct mapping and requests without no-execute, because a rollback keeps no-execute frames held; each allocation is freed once, with its own size.
- PhysicalMemory.Pmm.FreePages: the exact run is stated where address plus length stays below 2^64.
- PhysicalMemory.Pmm.constructor: for a reserved entry that is not page-aligned the marking loop can miss the last page (`PhysicalMemory.ReservesExactly`); usable entries are page-aligned and no entry passes 2^64; calls before initialisation are not modelled.
- Paths.NormalizePath: `snprintf` is taken as concatenation cut to 255 characters and `strcmp` as equality of texts; the current directory is empty or absolute.
- DirScan.FindInBlock: `strncmp` is taken as equality of bytes, which it is for names without NUL.
- Locks, interrupts, the TLB and CR3: every call is one atomic step.
- Sector transfers of the ATA driver: the disk is a sequence of sectors with a schedule of outcomes, a failed read leaves the buffer as it was and a failed write may leave anything in its sector.
- `ext2_mount`, `ext2_unmount`, `ext2_open`, `ext2_close`, `ext2_mkdir`, `ext2_rmdir`, `ext2_allocate_inode` and path lookup: they compose the members above; freeing of blocks does not exist in the driver.
- Persistence of the superblock and group counters: the driver keeps them in memory until unmounting.
- `scheduler_terminate_task` and `scheduler_execute_task`: both take `task_lock` twice and cannot complete.
- Creation of address spaces, stacks and ELF images of tasks: they are success flags of `Scheduling.Scheduler.CreateTask`.
- `vmm_create_address_space` and `create_page_table`: they use physical addresses as virtual ones and depend on an identity map.
- Page-fault handling, physical-range mapping helpers, statistics, logging, drivers and the system call layer: thin clients or input and output.
