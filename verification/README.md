# Models of the TCMK kernel

Dafny models of the parts of the TCMK kernel whose correctness no single function shows, and proofs about all
their inputs, runs and reachable states. `dafny verify dfyconfig.toml` checks everything.

Each imperative part appears twice: as functions on a value that say what one call does (the reference), and as a
class whose methods update fields and arrays in place with the loops of the source, each proved to do exactly that.
The theorems are about the functions, so they hold of the classes.

- **Address spaces** (`Frames`, `Mmu`, `MmuInvariant`, `MmuSteps`, `MmuOperations`, `EagerFork`, `EagerForkProof`,
  `AddressSpaces`). Page-table entries with present, writable, copy-on-write, shared and demand bits over a pool of
  reference-counted frames with contents, a CR3, and a processor that may keep any translation used since CR3 was
  loaded. One model covers both architectures: the user region has 1024 pages on each, and the tables above it are
  2 frames on i386 and 5 on x86_64, which matters only for `create_user_space` and `destroy_user_space`. The eager
  machine is defined separately: its `fork` copies, its reservations are pages of zeros.
- **The kernel as a whole** (`Processes`, `Forks`). Address spaces, tasks and descriptors together: `run_image`, its
  end, `fork`, task end, `terminate` and the switch between tasks. What each part asks of its callers is proved to
  hold in every reachable state; only how the window manager places its windows stays an assumption.
- **TCMKFS** (`TcmkfsDisk`, `TcmkfsPaths`, `TcmkfsTree`, `Tcmkfs`, `TcmkfsFiles`, `TcmkfsWrites`, `TcmkfsWords`,
  `TcmkfsVolume`, `TcmkfsRuns`, `TcmkfsCalls`, `TcmkfsCode`). A flat disk of bytes, little-endian records, the bitmap,
  the cached tables, path strings, and every public operation with its errors.
- **Scheduler** (`Scheduler`, `SchedulerProof`, `SchedulerSteps`, `SchedulerCode`). The task table, one step per interrupts-off region.
- **Descriptors and pipes** (`Pipes`, `PipeTables`, `PipeRing`).
- **Calendar** (`Calendar`), after section 4.16 "Seconds Since the Epoch" of the POSIX.1-2017 Base Definitions.
- **Signals** (`Signals`, `SignalRuns`) with contexts and stack frames of both architectures; the red zone is that of
  section 3.2.2 of the System V AMD64 ABI.
- **PE images** (`Relocations`, `PeLoader`), after "The .reloc Section (Image Only)" of the Microsoft PE and COFF
  Specification: the file read with unbounded sums, and the loader in 32-bit words over the whole memory.
- `Basics` and `LittleEndian` hold what they share.

Where the code does less than its comments say, the model follows the code:

- The pipe's ring counts 1025 positions over 1024 slots, so it is a queue only under the condition of
  `PipeRing.OrderKeptIff`; `PipeRing.SeamLosesByte` is an input that loses a byte.
- `create` and `mkdir` look up the whole last component but `name_of` stops at a zero byte. The tree survives exactly
  under the condition of `TcmkfsVolume.MadeTree`; `TcmkfsRuns.ZeroByteBreaksTree` is an input that breaks it. A path
  without zero bytes, which a caller can check, always meets the condition. Block ownership, persistence and the
  bounds of the volume do not depend on names and hold for every path.
- `wait_for_task` accepts any task, but its end wakes the waiter exactly under the conditions of
  `SchedulerProof.ExitWakesWaiter` and `SchedulerProof.KillWakesWaiter`: not if the task is not waitable, and on exit not
  if its parent is gone (`SchedulerProof.WaitersNotWoken`). It looks at the child before it starts to wait, so in between
  the slot may have been given back; then it waits until the slot is used and finished again.
- The PE loader's tests add in 32-bit words, and a sum of 2^32 or more can pass them. Loading and relocating stay inside
  the image exactly when no test lets such a sum through (`PeLoader.LoadStaysInside`), which can be read from the file.
  `PeLoader.SectionBelowImage`, `PeLoader.SiteBelowImage` and `PeLoader.WalkNeverEnds` are inputs that leave it or never
  end. Memory is taken to be readable and writable everywhere.
- `write` adds offset and length in machine words. It leaves the blocks of its file exactly under the condition of
  `TcmkfsWords.WriteInWords`; `TcmkfsWords.WriteOverruns` is such an input.
- Date conversion is exact while the seconds fit into 32 bits, and then only (`Calendar.DateTimeRoundTrip`).

Clocks, the partition table, whether memory for stacks can be had, what a program does to its registers and memory
between system calls, and which translation the processor picks are parameters, so the theorems hold for all of them.

## Model

| member | source | states |
|---|---|---|
| Frames.AllocFresh | kernel/src/level0a/core/frames.rs:104-121 | allocation fails exactly when every frame is taken; otherwise it returns a zeroed frame nobody referred to, with one reference, and touches no other frame |
| Frames.ShareExact | kernel/src/level0a/core/frames.rs:128-141 | sharing succeeds exactly for a pool frame that is in use and whose counter is below 255; it adds one reference or changes nothing |
| Frames.FreeExact | kernel/src/level0a/core/frames.rs:155-173 | freeing takes one reference from a frame that has one and does nothing else; contents stay |
| Frames.RefsDetermineBitmap | kernel/src/level0a/core/frames.rs:104-173 | bitmap and used count follow from the counters |
| Frames.FramePool.Alloc | kernel/src/level0a/core/frames.rs:104-121 | the scan over the bitmap does to the tables what `Allocated` says |
| Frames.FramePool.Share | kernel/src/level0a/core/frames.rs:128-141 | the new tables and the answer are those of `Shared` |
| Frames.FramePool.RefCount | kernel/src/level0a/core/frames.rs:144-149 | the counter of a pool frame, 0 for any other address |
| Frames.FramePool.Free | kernel/src/level0a/core/frames.rs:155-173 | the new tables are those of `Freed` |
| MmuSteps.FillStep | kernel/src/level0a/core/mmu_i386.rs:341-365 | a fresh frame put behind an absent page keeps the counters exact, shows its bytes there and nothing else anywhere |
| MmuSteps.ReuseStep | kernel/src/level0a/core/mmu_i386.rs:552-563 | the last owner of a copy-on-write page may write to it again without anybody seeing a difference |
| MmuOperations.CreatedSpec | kernel/src/level0a/core/mmu_x86_64.rs:266-316 | both builders of a space: all tables and a blank region, or, at whichever allocation they fail, counters, bitmap and every other space as before; they fail only when too few frames are free |
| MmuOperations.DestroySpec | kernel/src/level0a/core/mmu_x86_64.rs:326-357 | destroying a space, also a half-built one, gives back what it held: counters stay exact and no other space looks different |
| MmuOperations.CloneEntryStep | kernel/src/level0a/core/mmu_i386.rs:468-515 | one entry of a fork: window skipped, reservation passed on, page shared read-only on both sides, or copied when its counter is full; the parent and all others see no difference |
| MmuOperations.CloneLoop | kernel/src/level0a/core/mmu_i386.rs:464-518 | the whole loop: the child inherits every private page and reservation from the parent, or is gone again without a trace |
| EagerForkProof.CloneSpec | kernel/src/level0a/core/mmu_i386.rs:454-521 | `clone_user_space`: child as above; on failure every counter is as it was, and it fails only when fewer than 1024 frames plus the tables are free; the invariant holds again although the failing path reloads nothing |
| EagerForkProof.ReserveLoop | kernel/src/level0a/core/mmu_i386.rs:312-332 | exactly the absent pages of a range inside the region become reservations; a range that leaves the region is refused |
| EagerForkProof.MapLoop | kernel/src/level0a/core/mmu_i386.rs:402-423 | `map_user_frames` puts consecutive frames behind consecutive pages and nothing else |
| AddressSpaces.TouchedPages | kernel/src/level0a/core/mmu_i386.rs:312-332 | the loop of `reserve_user_range` visits exactly the pages in which an address of the range lies |
| AddressSpaces.ReservedBytes | kernel/src/level0a/core/mmu_i386.rs:312-332 | what a reserved range of bytes looks like afterwards, page by page, also when it only starts in the region |
| AddressSpaces.MappedBytes | kernel/src/level0a/core/mmu_i386.rs:402-423 | which frame each page of a mapped range of bytes shows afterwards |
| EagerForkProof.CowCopyIsRefill | kernel/src/level0a/core/mmu_i386.rs:542-575 | a copy-on-write split is dropping the shared name and filling the page with the old bytes, although the code allocates before it frees |
| EagerForkProof.CowCopySpec | kernel/src/level0a/core/mmu_i386.rs:542-575 | a split changes nothing any process sees and leaves the page writable by its one owner |
| EagerForkProof.FaultSpec | kernel/src/level0a/idt/i386.rs:173-203 | a fault that is recovered is invisible and the access then goes through; one that is not leaves the machine as it was, and the page is unmapped or the pool empty |
| EagerForkProof.AccessSpec | kernel/src/level0a/idt/i386.rs:173-203 | an access ends after at most one fault; it is refused only on an unmapped page or with the pool empty |
| EagerForkProof.NoStaleWrite | kernel/src/level0a/core/mmu_i386.rs:454-521 | whatever translation the processor kept since the last CR3 load, it leads where the table leads now, and a write reaches a pool frame only if its counter is 1; also after a clone that failed without a reload |
| EagerForkProof.StepSimulates | kernel/src/level0a/core/mmu_i386.rs:238-575 | every step of the lazy machine (create, reserve, map, fork, destroy, switch, load, store) is the step of the eager machine, with an answer that machine allows |
| EagerForkProof.LazyForkRefinesEagerFork | kernel/src/level0a/core/mmu_i386.rs:238-575 | over every run the lazy machine looks to each space like the machine whose fork copies every page and whose reservations are pages of zeros |
| EagerForkProof.RefcountsExact | kernel/src/level0a/core/frames.rs:104-173 | a frame's counter is the number of page entries that name it, plus one for a table; its bit is set iff that is positive; a page its process may write to has a counter of 1 |
| EagerForkProof.NothingLeaks | kernel/src/level0a/core/mmu_x86_64.rs:326-357 | once every space is destroyed no frame is taken |
| EagerForkProof.EveryRun | kernel/src/level0a/core/mmu_i386.rs:238-575 | from boot on, over every run: in step with the eager machine, counters exact, nothing held when the spaces are gone |
| AddressSpaces.Kernel.CreateTwo | kernel/src/level0a/core/mmu_i386.rs:238-258 | the code for two tables does what `CreatedTwo` says |
| AddressSpaces.Kernel.CreateFive | kernel/src/level0a/core/mmu_x86_64.rs:266-316 | the code for five tables, with its frees one by one, does what `CreatedFive` says |
| AddressSpaces.Kernel.BuildPageTables | kernel/src/level0a/core/mmu_x86_64.rs:292-315 | the two page tables of a half-built space, torn down again if one is missing |
| AddressSpaces.Kernel.CreateUserSpace | kernel/src/level0a/core/mmu_i386.rs:238-258 | keeps the invariant; result and state are those of `Created` |
| AddressSpaces.Kernel.DestroyUserSpace | kernel/src/level0a/core/mmu_i386.rs:265-282 | frees pages, page tables and directory in the order of the code; the new state is that of `Destroyed` |
| AddressSpaces.Kernel.ReserveUserRange | kernel/src/level0a/core/mmu_i386.rs:312-332 | for a range of bytes: every unmapped page with an address of it reads as zeros afterwards, every other page and space looks as before, and the answer is whether the range lies in the region; keeps the invariant |
| AddressSpaces.Kernel.MapUserFrames | kernel/src/level0a/core/mmu_i386.rs:402-423 | succeeds exactly for aligned addresses and a range in the region; then every page with an address of the range shows the frame as far behind `phys` as the page is behind `vaddr`, and nothing else changes; keeps the invariant if nothing is mapped or the window fits |
| AddressSpaces.Kernel.HandleDemandFault | kernel/src/level0a/core/mmu_i386.rs:341-365 | does what `DemandFilled` says of the loaded space |
| AddressSpaces.Kernel.HandleCowFault | kernel/src/level0a/core/mmu_i386.rs:542-575 | does what `CowSplit` says: reuse by the last owner, else a copy |
| AddressSpaces.Kernel.CloneUserSpace | kernel/src/level0a/core/mmu_i386.rs:454-521 | keeps the invariant; result and state are those of `Cloned` |
| AddressSpaces.Kernel.CloneOne | kernel/src/level0a/core/mmu_i386.rs:468-515 | one entry of the loop, or no change when there is no frame for a copy |
| AddressSpaces.Kernel.Fork | kernel/src/level0b1/fork.rs:60-77 | clone, and the new space destroyed again when no task can be had |
| AddressSpaces.Kernel.SwitchTo | kernel/src/level0a/core/mmu_i386.rs:288-292 | loads CR3 where the code does, which empties what the processor remembers |
| AddressSpaces.Kernel.PageFault | kernel/src/level0a/idt/i386.rs:173-203 | absent page to the demand handler, refused write to the copy-on-write handler, anything else unrecovered |
| AddressSpaces.Kernel.Access | kernel/src/level0a/idt/i386.rs:173-203 | the instruction is repeated while a handler recovers: at most one fault |
| AddressSpaces.Kernel.Load | kernel/src/level0a/idt/i386.rs:173-203 | a load with its faults is the step `Read` |
| AddressSpaces.Kernel.Store | kernel/src/level0a/idt/i386.rs:173-203 | a store with its faults is the step `Write` |
| Processes.LaunchKeeps | kernel/src/level0b1/process.rs:100-125 | the start of `run_image` leaves every part of the kernel in order: the new space is loaded, recorded and reserved |
| Processes.LaunchedSpec | kernel/src/level0b1/process.rs:100-125 | a new program sees zeros in the 512 KiB from 12 MiB on and nothing else, every other program sees what it saw, and there is no space only for want of frames |
| Processes.LeaveKeeps | kernel/src/level0b1/process.rs:130-136 | `release_space` (and the end of `child_task`) first leaves the space, then destroys it, so no loaded table is ever freed |
| Processes.LeftSpec | kernel/src/level0b1/process.rs:130-136 | leaving gives up the program's space and loads the kernel's; what every other program sees stays |
| Processes.YieldKeeps | kernel/src/level0a/core/scheduler.rs:461-548 | a switch loads the directory of the incoming task, which still exists |
| Processes.KillKeeps | kernel/src/level0a/core/scheduler.rs:833-870 | `terminate` ends a task, closes its descriptors and destroys its space, never the loaded one |
| Processes.CallKeeps | kernel/src/level0b1/fork.rs:60-112 | every call keeps the kernel in order: living tasks own the spaces one each, CR3 is the current task's, dead tasks hold no descriptor, and each module is called only as it asks to be |
| Processes.RunKeeps | kernel/src/level0b1/fork.rs:60-112 | after every run every enabled call can be made |
| Processes.NothingOutlivesPrograms | kernel/src/level0b1/fork.rs:145-165 | over every run from boot: when no living task runs a program or holds a pipe end, every frame is back in the pool and every pipe slot is free |
| Forks.CloneUndone | kernel/src/level0b1/fork.rs:69-77 | destroying the child of a clone gives back every reference the clone took |
| Forks.ForkSpec | kernel/src/level0b1/fork.rs:60-112 | `fork` does all of its work (new task, eager copy of the memory, copy of the descriptors) or leaves everything as it was; it refuses only without a program, stack memory, a slot or frames |
| Forks.KillUndoesFork | kernel/src/level0a/core/scheduler.rs:833-870 | killing the child right after the fork restores memory, frame counters, descriptors and pipe counters; only the exit status is left |
| TcmkfsDisk.InodeRoundTrip | kernel/src/level0a/core/tcmkfs.rs:126-175 | an inode record of 256 bytes reads back as it was written |
| TcmkfsDisk.TableRoundTrip | kernel/src/level0a/core/tcmkfs.rs:226-260 | so does the whole inode table |
| TcmkfsDisk.SuperRoundTrip | kernel/src/level0a/core/tcmkfs.rs:213-223 | so does the superblock |
| TcmkfsDisk.BitSetGet | kernel/src/level0a/core/tcmkfs.rs:309-327 | setting a bit of the bitmap changes that bit and no other |
| TcmkfsDisk.FreeBelowSet | kernel/src/level0a/core/tcmkfs.rs:329-346 | the number of clear bits changes by exactly the bit set or cleared |
| TcmkfsTree.ComponentsCanonical | kernel/src/level0a/core/tcmkfs.rs:531-549 | parsing undoes printing |
| TcmkfsTree.SplitParentResolves | kernel/src/level0a/core/tcmkfs.rs:562-583 | resolving a path is `child_of` of the leaf in the directory `split_parent` returns |
| TcmkfsTree.PathOfPrints | kernel/src/level0a/core/tcmkfs.rs:589-625 | `path_of` never fails for a live inode and prints the names from the root |
| TcmkfsTree.ResolvePathOf | kernel/src/level0a/core/tcmkfs.rs:589-625 | `resolve(path_of(i))` is `i` for every live inode |
| TcmkfsTree.PathOfResolve | kernel/src/level0a/core/tcmkfs.rs:531-549 | `path_of(resolve(p))` is `p` without its empty and "." components |
| TcmkfsCalls.ResolveIff | kernel/src/level0a/core/tcmkfs.rs:531-549 | on a tree a path leads to an inode exactly when its components are the names from the root down to it |
| TcmkfsTree.TreeWithout | kernel/src/level0a/core/tcmkfs.rs:642-662 | taking away an inode without children leaves a tree |
| TcmkfsTree.TreeWith | kernel/src/level0a/core/tcmkfs.rs:684-700 | a new inode leaves a tree exactly when its name, as it reads back, is well formed and not yet taken |
| TcmkfsFiles.TakenSpec | kernel/src/level0a/core/tcmkfs.rs:329-339 | `alloc_block` fails exactly when the free count is 0; else it takes one clear bit |
| TcmkfsFiles.FreedSpec | kernel/src/level0a/core/tcmkfs.rs:341-346 | `free_block` clears that bit and counts it |
| TcmkfsFiles.GrownSpec | kernel/src/level0a/core/tcmkfs.rs:805-820 | the allocations of a write succeed exactly when enough blocks are free; otherwise the roll-back restores ownership, pointers and free count |
| TcmkfsFiles.PutStores | kernel/src/level0a/core/tcmkfs.rs:822-848 | the loop of `write` puts every byte of the data in its place, across block boundaries |
| TcmkfsFiles.PutKeeps | kernel/src/level0a/core/tcmkfs.rs:822-848 | and keeps every byte around the data in blocks the file had |
| TcmkfsFiles.PutFrame | kernel/src/level0a/core/tcmkfs.rs:822-848 | and touches no byte outside the blocks of the file |
| TcmkfsWrites.WriteSpec | kernel/src/level0a/core/tcmkfs.rs:791-857 | `write`: each error exactly when it is due and then nothing changes; otherwise the file holds the data over its old bytes and every other file its own bytes |
| TcmkfsWords.WriteInWords | kernel/src/level0a/core/tcmkfs.rs:791-857 | in machine words the loop leaves the blocks of the file exactly when offset plus length wraps to an end that passes the size test and has room; otherwise the write is that of the row above, or refused for lack of room |
| TcmkfsWords.WriteOverruns | kernel/src/level0a/core/tcmkfs.rs:800-848 | two bytes at the last 32-bit offset: a write that leaves its file |
| TcmkfsWrites.WriteSplices | kernel/src/level0a/core/tcmkfs.rs:791-857 | a write that starts inside the file makes its bytes the old ones with the data spliced in |
| TcmkfsWrites.ReadBack | kernel/src/level0a/core/tcmkfs.rs:753-787 | what was written is read back |
| TcmkfsCalls.ReadSpec | kernel/src/level0a/core/tcmkfs.rs:753-787 | a read gives the bytes of the file from the offset on, as many as there are and fit; each error exactly when it is due |
| TcmkfsCalls.ReadsJoin | kernel/src/level0a/core/tcmkfs.rs:753-787 | two reads in a row give what one read gives |
| TcmkfsCalls.WriteInode | kernel/src/level0a/core/tcmkfs.rs:850-857 | a write changes of the inode table only size, time and blocks of its file, and the size to the larger of the old one and the end |
| TcmkfsWrites.RemoveSpec | kernel/src/level0a/core/tcmkfs.rs:727-746 | `remove` gives back exactly the blocks of the file and keeps every other file |
| TcmkfsVolume.BlocksInsidePartition | kernel/src/level0a/core/tcmkfs.rs:203-209 | every data block lies between sector 4096 of the partition and its end |
| TcmkfsVolume.MadeTree | kernel/src/level0a/core/tcmkfs.rs:684-724 | `mkdir` and `create` keep the tree exactly when what `name_of` reads back of the new name is well formed and not taken in its directory |
| TcmkfsVolume.MadeCleanTree | kernel/src/level0a/core/tcmkfs.rs:684-724 | so for every path without a zero byte |
| TcmkfsVolume.MadeResolves | kernel/src/level0a/core/tcmkfs.rs:628-639 | afterwards the path resolves to the new, empty file or directory |
| TcmkfsVolume.MadeKeepsPaths | kernel/src/level0a/core/tcmkfs.rs:628-639 | and every path that led somewhere still leads there |
| TcmkfsCalls.MadeAnswers | kernel/src/level0a/core/tcmkfs.rs:562-724 | when `mkdir` and `create` succeed, and each error exactly, in terms of the tree and the components of the path |
| TcmkfsCalls.MadeInode | kernel/src/level0a/core/tcmkfs.rs:684-724 | what is made: the lowest free inode, empty, of that name and kind, in the directory above, made now |
| TcmkfsCalls.MadeBelow | kernel/src/level0a/core/tcmkfs.rs:562-724 | below every directory that is not at the greatest depth every good name not taken there can be made while the table has room, and directory, slash and name lead to it |
| TcmkfsVolume.MadeVolume | kernel/src/level0a/core/tcmkfs.rs:713-724 | for every path the volume invariant (ownership, disk equal to cache) is kept, other files and foreign sectors too |
| TcmkfsVolume.DirRemovedVolume | kernel/src/level0a/core/tcmkfs.rs:642-662 | `rmdir` succeeds exactly on an empty directory other than the root, and keeps the volume |
| TcmkfsCalls.RmdirAnswers | kernel/src/level0a/core/tcmkfs.rs:642-662 | when `rmdir` succeeds, each error exactly, and that afterwards its path leads nowhere and every other path where it led |
| TcmkfsCalls.RemovedPaths | kernel/src/level0a/core/tcmkfs.rs:727-746 | after `remove` no path leads to the file, and every other path leads where it did |
| TcmkfsVolume.RemovedVolume | kernel/src/level0a/core/tcmkfs.rs:727-746 | `remove` keeps the volume |
| TcmkfsVolume.WrittenVolume | kernel/src/level0a/core/tcmkfs.rs:791-857 | `write`, successful or not, keeps the volume and stays inside it |
| TcmkfsVolume.SyncedVolume | kernel/src/level0a/core/tcmkfs.rs:456-467 | `sync` writes what the cache holds, and the counts of the superblock are right |
| TcmkfsRuns.FormatSpec | kernel/src/level0a/core/tcmkfs.rs:351-410 | `format` leaves a volume with a tree of `/home` and `/tmp` and every block free |
| TcmkfsCalls.FormatRefuses | kernel/src/level0a/core/tcmkfs.rs:351-362 | `format` fails exactly without partition or device, and then changes nothing |
| TcmkfsCalls.FormatTitle | kernel/src/level0a/core/tcmkfs.rs:363-386 | the title is the text given, cut after 15 bytes and filled with zeros |
| TcmkfsCalls.CapacityLargest | kernel/src/level0a/core/tcmkfs.rs:203-209 | the capacity is the largest number of blocks that fits the partition and the bitmap |
| TcmkfsRuns.ZeroByteBreaksTree | kernel/src/level0a/core/tcmkfs.rs:481-484 | the path `/home` followed by a zero byte can be created beside `/home`, and then two siblings have the same name |
| TcmkfsRuns.CallKeepsVolume | kernel/src/level0a/core/tcmkfs.rs:628-857 | every call, whether it succeeds or fails, keeps the volume |
| TcmkfsRuns.CallKeepsTree | kernel/src/level0a/core/tcmkfs.rs:628-857 | a call keeps the tree exactly unless it makes something whose name, cut at a zero byte, is empty, "." or taken; a path without zero bytes is always safe |
| TcmkfsRuns.RunKeepsTree | kernel/src/level0a/core/tcmkfs.rs:628-857 | over every run of calls without zero bytes in their paths the directories form a tree |
| TcmkfsRuns.RunStaysInside | kernel/src/level0a/core/tcmkfs.rs:628-857 | over every run the sectors outside the volume stay as they were |
| TcmkfsRuns.MountRestores | kernel/src/level0a/core/tcmkfs.rs:413-449 | mounting the disk of a volume rebuilds exactly the cache it had |
| TcmkfsCalls.MountAnswers | kernel/src/level0a/core/tcmkfs.rs:413-449 | `mount` succeeds exactly on a partition that starts with the signature and version bytes, each error exactly; the total is the smaller of the recorded one and the capacity |
| TcmkfsRuns.MountAfterRun | kernel/src/level0a/core/tcmkfs.rs:413-449 | after any run from a format, a mount by a kernel that knows only the disk rebuilds inode table, bitmap, total and free count |
| TcmkfsRuns.BlocksHaveOneOwner | kernel/src/level0a/core/tcmkfs.rs:329-346 | a bit is set iff exactly one file has the block at exactly one index below its block count; the free count is the clear bits below the total |
| TcmkfsCode.FileSystem.FlushInodes | kernel/src/level0a/core/tcmkfs.rs:226-242 | the four pieces put the inode table on the disk |
| TcmkfsCode.FileSystem.LoadInodes | kernel/src/level0a/core/tcmkfs.rs:244-260 | and read it back |
| TcmkfsCode.FileSystem.FlushBitmap | kernel/src/level0a/core/tcmkfs.rs:262-274 | the bitmap sectors |
| TcmkfsCode.FileSystem.LoadBitmap | kernel/src/level0a/core/tcmkfs.rs:276-288 | and back |
| TcmkfsCode.FileSystem.AllocBlock | kernel/src/level0a/core/tcmkfs.rs:329-339 | state and answer are those of `BlockTaken` |
| TcmkfsCode.FileSystem.FreeBlock | kernel/src/level0a/core/tcmkfs.rs:341-346 | state is that of `BlockFreed` |
| TcmkfsCode.FileSystem.ChildOf | kernel/src/level0a/core/tcmkfs.rs:509-525 | the scan finds what the function `ChildOf` finds |
| TcmkfsCode.FileSystem.Resolve | kernel/src/level0a/core/tcmkfs.rs:531-549 | the walk over the components, refused below the eighth level |
| TcmkfsCode.FileSystem.SplitParent | kernel/src/level0a/core/tcmkfs.rs:562-583 | parent and leaf, or the same error |
| TcmkfsCode.FileSystem.PathOf | kernel/src/level0a/core/tcmkfs.rs:589-625 | the two loops over the chain and the buffer print what the function `PathOf` prints |
| TcmkfsCode.FileSystem.AllocateInode | kernel/src/level0a/core/tcmkfs.rs:684-700 | the first free inode, filled field by field |
| TcmkfsCode.FileSystem.Make | kernel/src/level0a/core/tcmkfs.rs:713-724 | `mkdir` and `create`: state and answer are those of `Made`, for which `TcmkfsCalls.MadeAnswers` and `TcmkfsCalls.MadeInode` say the rest |
| TcmkfsCode.FileSystem.Rmdir | kernel/src/level0a/core/tcmkfs.rs:642-662 | state and answer are those of `DirRemoved` |
| TcmkfsCode.FileSystem.Remove | kernel/src/level0a/core/tcmkfs.rs:727-746 | keeps the books; state and answer are those of `FileRemoved` |
| TcmkfsCode.FileSystem.Read | kernel/src/level0a/core/tcmkfs.rs:753-787 | answers how many bytes there are from the offset on, at most as many as fit; the buffer gets exactly those and keeps the rest; the two errors exactly; nothing else changes |
| TcmkfsCode.FileSystem.Write | kernel/src/level0a/core/tcmkfs.rs:791-857 | in machine words, where the write stays in the file: keeps the books; state and answer are those of `WrittenInWords` |
| TcmkfsCode.FileSystem.PutChunk | kernel/src/level0a/core/tcmkfs.rs:826-846 | one round: read-modify-write of a partial block, plain write of a full one |
| TcmkfsCode.FileSystem.TakeBlocks | kernel/src/level0a/core/tcmkfs.rs:805-820 | the allocations and their roll-back |
| TcmkfsCode.FileSystem.Sync | kernel/src/level0a/core/tcmkfs.rs:456-467 | state and answer are those of `Synced` |
| TcmkfsCode.FileSystem.Mount | kernel/src/level0a/core/tcmkfs.rs:413-449 | state and answer are those of `Mounted` |
| TcmkfsCode.FileSystem.Format | kernel/src/level0a/core/tcmkfs.rs:351-410 | state and answer are those of `Formatted` |
| SchedulerProof.StepInv | kernel/src/level0a/core/scheduler.rs:161-1041 | every step keeps: at most one slot Running, and it is the current one; idle can always run; who waits, waits for a slot in use |
| SchedulerProof.ScanNearest | kernel/src/level0a/core/scheduler.rs:577-600 | the scan finds the nearest eligible task after the current one |
| SchedulerProof.IdleOnlyWhenNothingElse | kernel/src/level0a/core/scheduler.rs:577-637 | after a switch point idle runs exactly when no other task is Ready and the current one is idle or cannot go on |
| SchedulerProof.CurrentGoesOn | kernel/src/level0a/core/scheduler.rs:577-637 | a running task goes on exactly when no other task is Ready |
| SchedulerSteps.SleeperStays | kernel/src/level0a/core/scheduler.rs:644-670 | who sleeps until tick w still sleeps after a switch point up to 2^31 ticks before it, also across a wrap-around |
| SchedulerSteps.SleeperWakes | kernel/src/level0a/core/scheduler.rs:644-670 | and has woken after one at w or less than 2^31 ticks later |
| SchedulerSteps.SleepThenYield | kernel/src/level0a/core/scheduler.rs:678-706 | who calls `sleep_ticks` sleeps on at the first switch point exactly when that comes before its tick |
| SchedulerSteps.IoWaiterWoken | kernel/src/level0a/core/scheduler.rs:774-787 | who waits for I/O is not woken by a switch point but by the interrupt, and nobody else is |
| SchedulerSteps.TicksUseCredits | kernel/src/level0a/core/scheduler.rs:314-327 | after k ticks the running task has k credits less, or none, and a switch is asked for exactly once they are used up |
| SchedulerSteps.Slices | kernel/src/level0a/core/scheduler.rs:301-310 | slices never shrink with rising priority; the values at both ends of each range of nice |
| SchedulerSteps.NiceSpec | kernel/src/level0a/core/scheduler.rs:380-393 | `set_nice` clamps to -20..19 and changes nothing else |
| SchedulerSteps.NextInPeriod | kernel/src/level0a/core/scheduler.rs:577-600 | while somebody is ready with credit the next task is the nearest such one after the current |
| SchedulerSteps.NextInNewPeriod | kernel/src/level0a/core/scheduler.rs:577-616 | when nobody is, the next task is the nearest that is ready at all |
| SchedulerSteps.CreditsAfter | kernel/src/level0a/core/scheduler.rs:461-548 | what a switch point does to credits: a new period gives each task its slice whatever it had, and who is switched away from pays one |
| SchedulerSteps.RequestAnswered | kernel/src/level0a/core/scheduler.rs:461-548 | a switch point clears the request for one |
| SchedulerSteps.SpawnSpec | kernel/src/level0a/core/scheduler.rs:161-231 | `spawn` takes the lowest free slot, and fails exactly when there is no memory for stacks it lacks |
| SchedulerSteps.SpawnFull | kernel/src/level0a/core/scheduler.rs:161-231 | or when no slot is free, and then nothing changes |
| SchedulerSteps.KillSpec | kernel/src/level0a/core/scheduler.rs:833-858 | `terminate` ends exactly the living tasks but idle and the current one, and touches nobody else |
| SchedulerSteps.ExitSpec | kernel/src/level0a/core/scheduler.rs:551-575 | an ending task stays for its parent exactly when it is waitable and the parent, another task, lives |
| SchedulerSteps.ExitCodeArrives | kernel/src/level0a/core/scheduler.rs:913-919 | the exit code set before the end is the one the parent can collect |
| SchedulerProof.StepWait | kernel/src/level0a/core/scheduler.rs:484-548 | each switch that passes a ready task over uses up its potential; ticks, wakes, sleeps and nice changes never raise it, a spawn by at most 2 |
| SchedulerProof.BoundedWait | kernel/src/level0a/core/scheduler.rs:577-637 | a task that stays Ready is passed over by at most (credits outstanding + the other slots + 2 per spawn) switches |
| SchedulerProof.TurnsBounded | kernel/src/level0a/core/scheduler.rs:301-340 | between refills a task gets at most the turns its credits allow |
| SchedulerProof.ShareInPeriod | kernel/src/level0a/core/scheduler.rs:301-340 | from one refill to the next at most `slice_ticks` of its nice at the refill |
| SchedulerProof.ReapedSpec | kernel/src/level0a/core/scheduler.rs:253-270 | one pass over the changing table frees exactly the slots that were orphans when it began |
| SchedulerProof.OnePassIsEnough | kernel/src/level0a/core/scheduler.rs:551-567 | after `terminate_current` no finished waitable child is without a living parent |
| SchedulerProof.ZombieKept | kernel/src/level0a/core/scheduler.rs:237-246 | a finished child keeps its slot and exit code until it is collected, as long as its parent lives |
| SchedulerProof.WaiterWoken | kernel/src/level0a/core/scheduler.rs:644-670 | a waiting task leaves that state at the next switch point exactly when the awaited one has finished and still holds its slot |
| SchedulerProof.ExitWakesWaiter | kernel/src/level0a/core/scheduler.rs:551-575 | who waits for the current task is woken by its exit exactly when the task is waitable and its parent, another task, lives |
| SchedulerProof.KillWakesWaiter | kernel/src/level0a/core/scheduler.rs:833-858 | who waits for a task is woken when it is killed exactly when the task is waitable |
| SchedulerProof.WaitersNotWoken | kernel/src/level0a/core/scheduler.rs:237-270 | two tables in which a waiter is not woken by the exit it waits for: the task is not waitable, or its parent is gone |
| SchedulerCode.Table.Spawn | kernel/src/level0a/core/scheduler.rs:161-231 | state and answer are those of `Spawned`, also when there is no memory for stacks |
| SchedulerCode.Table.ReapOrphans | kernel/src/level0a/core/scheduler.rs:253-270 | the pass as written |
| SchedulerCode.Table.OnTimerTick | kernel/src/level0a/core/scheduler.rs:314-327 | one credit less, and a request to switch at the last |
| SchedulerCode.Table.RefillCredits | kernel/src/level0a/core/scheduler.rs:333-340 | every slot in use gets its slice |
| SchedulerCode.Table.WakeExpired | kernel/src/level0a/core/scheduler.rs:644-670 | sleepers whose tick has come (`SchedulerSteps.SleeperStays` and `SchedulerSteps.SleeperWakes` say when that is) and waiters whose child has finished |
| SchedulerCode.Table.PickNext | kernel/src/level0a/core/scheduler.rs:577-637 | state and choice are those of `Picked` |
| SchedulerCode.Table.YieldNow | kernel/src/level0a/core/scheduler.rs:461-548 | state is that of `Yielded` |
| SchedulerCode.Table.SwitchTo | kernel/src/level0a/core/scheduler.rs:499-522 | state is that of `Switched`: credit charged, next one Running |
| SchedulerCode.Table.TerminateCurrent | kernel/src/level0a/core/scheduler.rs:551-567 | state is that of `Exited`, and no orphan is left |
| SchedulerCode.Table.Terminate | kernel/src/level0a/core/scheduler.rs:833-858 | state and refusal are those of `Killed` |
| SchedulerCode.Table.WakeIoWaiters | kernel/src/level0a/core/scheduler.rs:774-787 | every waiter for I/O becomes Ready |
| SchedulerCode.Table.ReapFinishedChild | kernel/src/level0a/core/scheduler.rs:1024-1041 | the first finished child is collected with its exit code |
| SchedulerCode.Table.BeginWait | kernel/src/level0a/core/scheduler.rs:940-963 | when nothing comes in between: nothing to wait for, an exit code at once, or waiting |
| SchedulerCode.Table.StartWaiting | kernel/src/level0a/core/scheduler.rs:959-963 | the uninterruptible part alone, in any later state of the child's slot |
| SchedulerCode.Table.BeginWaitAny | kernel/src/level0a/core/scheduler.rs:984-1021 | when nothing comes in between: a finished child first, else the living one in the lowest slot, else no wait |
| Pipes.ClosedKeeps | kernel/src/level0a/core/fd.rs:280-296 | closing a descriptor keeps counters equal to ends |
| Pipes.DupedKeeps | kernel/src/level0a/core/fd.rs:214-230 | so does `dup` |
| Pipes.DupedToKeeps | kernel/src/level0a/core/fd.rs:241-261 | so does `dup2`, also when it replaces an end of the same pipe: it is closing and copying |
| Pipes.OpenedSpec | kernel/src/level0a/core/fd.rs:130-180 | a new descriptor is the lowest free one from 3 on, at offset 0; none exactly when the table is full |
| Pipes.ClosedSpec | kernel/src/level0a/core/fd.rs:280-296 | `close` frees a descriptor in use and refuses any other |
| Pipes.DupedSpec | kernel/src/level0a/core/fd.rs:214-230 | `dup` gives the lowest free descriptor the same object and offset, and fails exactly for an unused descriptor or a full table |
| Pipes.DupedToSpec | kernel/src/level0a/core/fd.rs:241-261 | `dup2` gives the descriptor asked for the same object and offset, and fails exactly for an unused or impossible descriptor |
| Pipes.ClonedKeeps | kernel/src/level0a/core/fd.rs:91-106 | `clone_into` copies every descriptor into the child, counts each end and touches no other table |
| Pipes.AllClosedKeeps | kernel/src/level0a/core/fd.rs:112-127 | `close_all` empties one table and no other |
| Pipes.PipeMadeSpec | kernel/src/level0a/kernel_api.rs:215-236 | `create_pipe` succeeds exactly when a pipe slot and two descriptors are free; with either roll-back everything is as before; a new pipe has exactly the two ends returned |
| PipeTables.CountersAgree | kernel/src/level0a/core/pipe.rs:164-191 | over every run of calls a pipe's writers and readers are the write and read ends over all tasks, it is in use iff there is one, and every end names a pipe in use |
| PipeTables.NoRecycledPipe | kernel/src/level0a/core/pipe.rs:164-178 | a slot is freed only by a call that closes ends, and only when no descriptor names it |
| PipeTables.Descriptors.CloseEnd | kernel/src/level0a/core/pipe.rs:164-178 | the slot's counters after closing an end |
| PipeTables.Descriptors.AddRef | kernel/src/level0a/core/pipe.rs:184-191 | and after a new one |
| PipeTables.Descriptors.Allocate | kernel/src/level0a/core/fd.rs:130-180 | the lowest free descriptor from 3 on, or none |
| PipeTables.Descriptors.CloseFd | kernel/src/level0a/core/fd.rs:280-296 | state and answer are those of `Closed` |
| PipeTables.Descriptors.DupFd | kernel/src/level0a/core/fd.rs:214-230 | state and answer are those of `Duped` |
| PipeTables.Descriptors.DupFdTo | kernel/src/level0a/core/fd.rs:241-261 | state and answer are those of `DupedTo` |
| PipeTables.Descriptors.CloneInto | kernel/src/level0a/core/fd.rs:91-106 | state is that of `ClonedFrom` |
| PipeTables.Descriptors.CloseAll | kernel/src/level0a/core/fd.rs:112-127 | state is that of `AllClosedFrom` |
| PipeTables.Descriptors.CreateSlot | kernel/src/level0a/core/pipe.rs:66-81 | the first free pipe slot with one end of each kind |
| PipeTables.Descriptors.CreatePipe | kernel/src/level0a/kernel_api.rs:215-236 | state and answer are those of `PipeMade` |
| PipeRing.WriteAppends | kernel/src/level0a/core/pipe.rs:119-131 | the loop appends to the queue as many bytes as fit into 1024 places |
| PipeRing.SentSpec | kernel/src/level0a/core/pipe.rs:104-135 | `write` appends what fits, and nothing to a free slot or when nobody is left to read |
| PipeRing.ReadTakes | kernel/src/level0a/core/pipe.rs:138-161 | a read takes bytes off the front, as the ring sees them |
| PipeRing.ReceivedSpec | kernel/src/level0a/core/pipe.rs:138-161 | `read` takes nothing from a free slot, and from one in use as many bytes as there are and fit, whether or not a writer is left; the rest stays queued |
| PipeRing.SentIsReceived | kernel/src/level0a/core/pipe.rs:104-161 | what is written into an empty pipe comes out by two reads of any sizes, also after the last writer has gone, in order exactly when no byte is spoilt at position 1024 |
| PipeRing.OrderKeptIff | kernel/src/level0a/core/pipe.rs:119-130 | the bytes come out in order exactly when none of them lies at position 1024 with a different byte written after it |
| PipeRing.QueueUnlessBothPending | kernel/src/level0a/core/pipe.rs:119-130 | so the pipe is a queue as long as positions 1024 and 0 are not pending together |
| PipeRing.SeamLosesByte | kernel/src/level0a/core/pipe.rs:119-130 | bytes 1 and 2 written across the seam come out as 2 and 2 |
| PipeRing.FreshPipeLosesByte | kernel/src/level0a/core/pipe.rs:104-161 | a fresh pipe gets there after 1024 bytes have been written and read |
| PipeRing.Buffer.Write | kernel/src/level0a/core/pipe.rs:104-135 | state and count are those of `Sent`; the queue grows by the bytes accepted |
| PipeRing.Buffer.Clear | kernel/src/level0a/core/pipe.rs:66-81 | a new pipe in the slot starts empty |
| PipeRing.Buffer.Read | kernel/src/level0a/core/pipe.rs:138-161 | as many bytes as are queued and fit, none from a free slot, each as the ring holds it; the rest of the buffer and of the queue stays |
| Calendar.DateRoundTrip | kernel/src/level0a/drivers/rtc.rs:153-163 | `from_unix` undoes `days_from_civil` for every valid date |
| Calendar.NextDayCounts | kernel/src/level0a/drivers/rtc.rs:153-163 | the count of the calendar's next day is one more, across months, leap days and centuries |
| Calendar.CivilIsCalendar | kernel/src/level0a/drivers/rtc.rs:207-230 | day `n` is the date `n` calendar days after January 1, 1970, and back |
| Calendar.SecondsRoundTrip | kernel/src/level0a/drivers/rtc.rs:207-230 | every 32-bit second count gives a valid date and time and comes back |
| Calendar.DateTimeRoundTrip | kernel/src/level0a/drivers/rtc.rs:166-176 | a valid date and time comes back exactly when its seconds since 1970 fit into a word |
| Calendar.NoOverflow | kernel/src/level0a/drivers/rtc.rs:145-176 | from 2000 to 2099 they do, and the sum is exact |
| Calendar.OverflowsIn2106 | kernel/src/level0a/drivers/rtc.rs:166-176 | the last day of 2106 does not come back |
| Signals.FrameOfContext | kernel/src/arch/x86_64/regs.rs:117-170 | a context written to a frame comes back exactly when RCX and R11 hold RIP and RFLAGS, as after `syscall` |
| Signals.FramePlacement | kernel/src/arch/x86_64/usermode.rs:203-219 | the frame is aligned as a call leaves it and lies below the interrupted stack pointer, on x86_64 below the red zone; no byte above or below it is written |
| Signals.FrameContents | kernel/src/arch/i386/usermode.rs:199-215 | the handler finds the restorer as return address and, on i386, the signal number as argument |
| SignalRuns.DeliveredSpec | kernel/src/level0b1/signal.rs:306-373 | a delivery hands over the lowest pending signal that is not ignored, or ends the process with it, or finds none; ignored ones below it are dropped, those above it stay pending |
| SignalRuns.FrameAtIs | kernel/src/arch/x86_64/usermode.rs:203-219 | the place of a frame: the highest aligned one below the stack pointer, on x86_64 below the red zone |
| SignalRuns.DeliveredAnswers | kernel/src/level0b1/signal.rs:306-373 | all that a delivery does in every case; a handler is entered exactly when there is one and the 8 bytes of its frame are in memory |
| SignalRuns.CallAnswers | kernel/src/level0b1/signal.rs:306-373 | the same for a system call that is about to return |
| SignalRuns.SentIsAnswered | kernel/src/level0b1/signal.rs:136-165 | a signal sent to a program with nothing else to deliver ends it, is handled or is dropped at its next call; SIGKILL ends it at once |
| SignalRuns.NewHandlerRuns | kernel/src/level0b1/signal.rs:172-203 | a handler in user memory is accepted for every signal but SIGKILL, runs at the next delivery and returns to its own restorer |
| SignalRuns.ReturnAnswers | kernel/src/level0b1/signal.rs:383-402 | `sigreturn` ends the handler, goes on from the context kept aside and delivers what waited; outside a handler it returns -EINVAL |
| SignalRuns.NoNesting | kernel/src/level0b1/signal.rs:306-316 | until a handler returns, over every run of sends and calls, nothing is handled, nothing pending is lost and the interrupted context stays kept |
| SignalRuns.HandlerEntered | kernel/src/level0b1/signal.rs:340-373 | the handler starts at its address, below the interrupted stack, with the interrupted context kept aside |
| SignalRuns.SavedComesBack | kernel/src/level0b1/signal.rs:383-402 | from inside a handler, whatever happens, the first context outside is the one kept aside |
| SignalRuns.InterruptedGoesOn | kernel/src/level0b1/signal.rs:306-402 | a program goes on outside its handlers with exactly the interrupted context, also after several deliveries in a row |
| SignalRuns.StepConserves | kernel/src/level0b1/signal.rs:136-165 | a pending bit is set by sending and taken exactly once |
| SignalRuns.ConsumedOnce | kernel/src/level0b1/signal.rs:306-373 | over every run each signal sent is pending or was taken once, and handled at most as often |
| SignalRuns.Process.RaiseSignal | kernel/src/level0b1/signal.rs:136-165 | state and error are those of `Raised`; SIGKILL ends the process at once |
| SignalRuns.Process.InstallHandler | kernel/src/level0b1/signal.rs:172-203 | state and answer, the old handler or an error, are those of `HandlerSet` |
| SignalRuns.Process.CloneInto | kernel/src/level0b1/signal.rs:207-225 | the child gets the handlers, nothing pending, and is in no handler |
| SignalRuns.Process.DeliverPending | kernel/src/level0b1/signal.rs:306-373 | state, frame and outcome are those of `Delivered`, and all that `Answers` says: nothing outside user mode or inside a handler, all dropped if all are ignored, else the lowest other one is handled or ends the process |
| SignalRuns.Process.ReturnFromHandler | kernel/src/level0b1/signal.rs:383-402 | state and frame are those of `Returned` |
| Relocations.SectionsSpec | kernel/src/level0b1/binary_loader/pe32.rs:124-151 | read with unbounded sums: the image is zero where no section reaches and the last covering section's raw data elsewhere; fine exactly when every section fits |
| Relocations.SectionsOverflow | kernel/src/level0b1/binary_loader/pe32.rs:124-151 | the reading overflows exactly when the first section that does not fit lies in the file and its sum passes the test in words |
| Relocations.WalkPatchesSites | kernel/src/level0b1/binary_loader/pe32.rs:352-399 | with no site on the directory, the walk over the changing image patches exactly the sites the directory lists and ends where and as that list does |
| Relocations.EntryBytes | kernel/src/level0b1/binary_loader/pe32.rs:373-389 | kind and site of an entry in terms of its two bytes |
| Relocations.RelocationSpec | kernel/src/level0b1/binary_loader/pe32.rs:352-399 | for disjoint sites each word grows by delta modulo 2^32 and no other byte changes |
| Relocations.RelocationUndone | kernel/src/level0b1/binary_loader/pe32.rs:352-399 | a second walk with the opposite delta restores the image |
| PeLoader.CopiedSpec | kernel/src/level0b1/binary_loader/pe32.rs:124-151 | what the copy in 32-bit words leaves at every address of memory, for every section table |
| PeLoader.CopyInsideIff | kernel/src/level0b1/binary_loader/pe32.rs:138-148 | a section writes only in the image exactly when its raw data end there |
| PeLoader.SectionsStayInside | kernel/src/level0b1/binary_loader/pe32.rs:124-151 | every section loaded lies in the image exactly when the reading of the table does not overflow; then copy and reading agree |
| PeLoader.WalkStaysInside | kernel/src/level0b1/binary_loader/pe32.rs:352-399 | the walk in 32-bit words never leaves the directory and the image exactly when the reading does not overflow; then it ends, agrees with the reading and changes no byte outside |
| Relocations.SitesOverflow | kernel/src/level0b1/binary_loader/pe32.rs:352-399 | the list of a directory overflows exactly at its first block or entry that is not in order, when that one has a sum that passes the test in words |
| PeLoader.WalkLeavesIff | kernel/src/level0b1/binary_loader/pe32.rs:352-399 | the walk leaves directory or image exactly when the end of the directory passes only in words, or the first block or site out of order in its list does |
| PeLoader.LoadStaysInside | kernel/src/level0b1/binary_loader/pe32.rs:107-167 | the same for the whole load, with a condition that depends on the file alone |
| PeLoader.RelocatedMemory | kernel/src/level0b1/binary_loader/pe32.rs:352-399 | then, for disjoint sites outside the directory, each word grows by delta and no other byte of memory changes |
| PeLoader.RelocatedBack | kernel/src/level0b1/binary_loader/pe32.rs:352-399 | and a second walk with the opposite delta restores the memory |
| PeLoader.SectionBelowImage | kernel/src/level0b1/binary_loader/pe32.rs:138-148 | a section at 0xFFFFF000 that is copied to the page below the image |
| PeLoader.SiteBelowImage | kernel/src/level0b1/binary_loader/pe32.rs:380-389 | a directory whose walk ends well and has patched the word two bytes below the image |
| PeLoader.WalkNeverEnds | kernel/src/level0b1/binary_loader/pe32.rs:363-396 | two blocks, of lengths 8 and 2^32 - 8, whose walk over an otherwise empty memory goes round for ever |
| PeLoader.CopySections | kernel/src/level0b1/binary_loader/pe32.rs:124-151 | the loop over the sections does what `Copied` says, in place |
| PeLoader.PatchBlock | kernel/src/level0b1/binary_loader/pe32.rs:373-392 | the loop over the entries of a block does what `Entries` says |
| PeLoader.ApplyRelocations | kernel/src/level0b1/binary_loader/pe32.rs:352-399 | the loop over the blocks does what `Walk` says, if it ends |
| PeLoader.Load | kernel/src/level0b1/binary_loader/pe32.rs:107-167 | size test, clearing, sections and relocations do what `Loaded` says |

## Left out

- EagerForkProof.LazyForkRefinesEagerFork: the answers of the eager machine leave open whether a call found a frame or a slot; that is decided by the lazy one, with the bounds `EagerAnswer` gives. Windows are mapped as the window manager does it, from frames below the pool over absent or window pages.
- AddressSpaces.Kernel.MapUserFrames: physical addresses past the machine word are not modelled; the window manager's lie below the pool.
- AddressSpaces.Kernel.SwitchTo: the directory of the kernel is a constant below the pool; before paging is on the kernel has none.
- Processes.CallKeeps: tasks are composed on values; the code in place is in the class of each part. `terminate` and the start of `run_image` count as one step each. A program started without a space of its own, when no frame is left, shares the kernel's region and is not modelled.
- Forks.ForkSpec: the child's saved registers, its program break and its signal handlers are not part of `System`; `SignalRuns.Process.CloneInto` covers the handlers.
- TcmkfsWrites.WriteSpec: for a write that starts beyond the end of the file the bytes of the gap are left open, because the code does not clear them. The sum of offset and length is unbounded here and in the results over runs; `TcmkfsWords.WriteInWords` says when the sum in machine words makes no difference.
- TcmkfsCode.FileSystem.Write: only for writes that stay in the file, as `TcmkfsWords.WriteInWords` says; what a write does once it follows a pointer that is not the file's is not modelled.
- TcmkfsVolume.MadeCleanTree: only for paths without zero bytes; `MadeTree` has the exact condition.
- TcmkfsRuns.MountAfterRun: the device never fails, and power is never lost inside a call; the code flushes inodes before the bitmap and promises nothing for a crash in between.
- SchedulerProof.ZombieKept: the `parent` field is a slot number, so it names the new task when a dead parent's slot is used again.
- SchedulerProof.ShareInPeriod: only an upper bound; a period ends when no other ready task has credit, so there is no fixed ratio between two tasks.
- PipeRing.OrderKeptIff: `info` and readiness for `poll` are not modelled.
- PeLoader.ApplyRelocations: only for walks that end; `PeLoader.WalkStaysInside` says that the others leave the image.
- PeLoader.Load: headers, imports, the end of the image and the entry point are not part of the model, nor are page faults at addresses that are not mapped.
- SchedulerCode.Table.BeginWait: collecting a child is one step; that another waiter collects it between the test and the release of its slot is not modelled.
- `protect_user_range`, `map_mmio`, the kernel's own page tables, and the counts for reports (shared, reserved and copy-on-write pages, peak use, CPU ticks, block writes, signals sent and delivered).
- The x86_64 double mapping of a space before paging is enabled, and `map_user_frames` on the kernel directory.
- Changing stacks, TSS and interrupt frames; a context switch is a change of the current task.
- Boot stages, GDT, IDT and PIC set-up, port I/O, ATA, VGA, serial and mouse drivers; reading the clock chip.
- Window manager, canvas, fonts, shell, demonstration programs, installer and Python tools.
- System call dispatch of the POSIX and NT layers, ELF and PE32+ loaders, import thunks.
- The IPC message ring, load balancer, state monitor, `brk` and `kmalloc`, which would only add easy members; the program break is changed by the same `reserve_user_range` that is modelled.
- Small members that would only add easy results: the signal `reset` of `execve`, and reading back names, sizes and states for reports.
- The VFS name table for paths that are not canonical or too long.
