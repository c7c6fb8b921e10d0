# Two xv6 kernels and an ext2 reader, modelled and proved

The repository holds two modified xv6 kernels and some user programs. This project models
their hardest parts in Dafny and proves what they are for. `dafny verify dfyconfig.toml`
checks everything.

## What is modelled

- **Redo log** (`RedoLog`, `LogDriver`, `GroupCommit`, `GroupCounters`, `LogSizing`). The disk
  is a sequence of blocks and one block write is one atomic step. `RedoLog` treats a commit and
  a recovery as lists of writes and proves crash atomicity for every prefix of them; the class
  `LogDriver.Log` runs the loops of `log.c` and is proved to issue exactly those lists.
  `GroupCommit` lets any number of processes, the disk, crashes and recoveries interleave.
- **Lazy virtual memory** (`PageTables`, `UserView`, `MemoryNeed`, `LazyVm`, `EagerMemory`,
  `MemoryLaws`, `LazyProcess`). Two-level page tables (Intel SDM Volume 3A, section 4.3) over numbered
  physical pages. Each
  page is in exactly one place: free, a directory, a page table, behind one user page, or in
  other kernel use. What a process sees is a view; a page that `ssualloc` has reserved shows
  zeros. `EagerMemory` is the reference: a memory that allocates zeroed pages at once.
  `MemoryLaws` says what its calls mean address by address.
- **Multi-level inodes** (`InodeTree`, `MultiLevelFs`, `MultiLevelFiles`, `Mkfs`). A block is
  owned by the position (inode, slot, path of indices) from which it is reached. All runs of
  `bmap` and `itrunc` keep positions and blocks one-to-one and the bitmap exact; files are then
  plain byte sequences.
- **Continuous-sector files** (`Extents`, `ContinuousFs`, `ContinuousFiles`, `PlainFileLog`).
  Twelve entries encode a block sequence by greedy run-length packing.
- **Pipes and sleep/wakeup** (`PipeProtocol`). A transition system whose steps take and drop
  the pipe's lock and `ptable.lock` one at a time.
- **Buffer cache** (`LruList`, `BufferCache`), **heap** (`FreeList`, `Heap`; The C Programming
  Language, second edition, section 8.7) and **regular expressions** (`Regex`; The Practice of
  Programming, chapter 9).
- **ext2 reader** (`Ext2Image`, `Ext2Print`, `Ext2Tree`, `Ext2Walk`, `Ext2Layout`; The Second
  Extended File System: Internal Layout). Any image, however malformed; directory loops included.
  `Ext2Layout` writes superblocks, descriptors, inodes, pointer blocks and directory records field
  by field, and proves that what was written is what is read.

Code that changes things step by step is a class with methods; each method is tied by its
contract to a value, and the lemmas are about the values. `old` states, ghost rings, views and
histories carry the specifications.

## What does not hold

- `log_write` compares with `log.size - 1` (`log.c:218`) while `begin_op` reserves against
  `LOGSIZE`, and `mkfs` makes the log `LOGSIZE` blocks long. With operations of `MAXOPBLOCKS`
  calls that panic is reachable (`SmallLogPanics`), and because the test is made before the lock
  is taken two processes can pass it together and overrun the log region (`StaleTestOverruns`).
  `LogSizeExact` and `OverrunExact` give the sizes that are safe, and no others are; `AnyLogSize`
  says what holds on every size.
- Shrinking a process to size 0 unmaps everything, reports failure and keeps the old size
  (`FailedSbrk`). It is part of the reference memory, so that the refinement covers every `sbrk`.
- `malloc` counts in 32 bits. From 2 GB on, header included, `sbrk` is asked to shrink or for
  nothing while `morecore` takes the full size; in the last few bytes below 4 GB the sum itself
  wraps and the block is too small for the request (`RequestsThatFail`). `RequestExact`,
  `RoomExact` and `GrantExact` say exactly when the sizes, the room and the heap come out right.

## Model

| member | source | states |
|---|---|---|
| `RedoLog.CrashAtomicity` | xv6-lazy-allocation-multilevel-fs/log.c:69-202 | a commit stopped after any block write, then any number of reboots whose recoveries are themselves cut off, then one complete recovery: the header is empty and the home blocks are all old (header write not reached) or all new |
| `RedoLog.CommitStep` | xv6-lazy-allocation-multilevel-fs/log.c:177-202 | after k writes of a commit the disk recovers to the old home content up to the last log slot, to the new one from the header write on |
| `RedoLog.RecoverStep` | xv6-lazy-allocation-multilevel-fs/log.c:69-123 | any prefix of recovery keeps the state the disk recovers to; all of it empties the header and installs that state |
| `RedoLog.RebootsDurable` | xv6-lazy-allocation-multilevel-fs/log.c:115-123 | a chain of reboots with interrupted recoveries, of any length, keeps the state the disk recovers to |
| `RedoLog.HeadRoundTrip` | xv6-lazy-allocation-multilevel-fs/log.c:84-113 | write_head followed by read_head gives the same list of blocks, whatever the header block held before |
| `GroupCommit.Safety` | xv6-lazy-allocation-multilevel-fs/log.c:125-233 | in every interleaving of operations, commits, crashes and recoveries, on a log with room for what begin_op admits: no panic, committing implies no outstanding operation, the list has no duplicates and fits, and a crash recovers exactly the last committed home content; a process asleep in begin_op still has to wait |
| `GroupCommit.StepInv` | xv6-lazy-allocation-multilevel-fs/log.c:125-233 | every step of every process, of the disk and of recovery keeps the invariant behind Safety |
| `GroupCommit.AtomicGroups` | xv6-lazy-allocation-multilevel-fs/log.c:145-202 | what is durable changes only at a header write, and then by every block logged since the last commit with its latest content |
| `GroupCommit.CrashRecovers` | xv6-lazy-allocation-multilevel-fs/log.c:115-123 | a crash in any reachable state leaves a disk that recovers to the durable content |
| `GroupCommit.NoDeadlock` | xv6-lazy-allocation-multilevel-fs/log.c:125-173 | nobody is stuck: a process that is idle, in an operation, in log_write or in commit has a step to take whatever the others do, and one asleep in begin_op waits for a process that has |
| `GroupCommit.PendingLatest` | xv6-lazy-allocation-multilevel-fs/log.c:213-233 | in every run the pending content is, block by block, the last one logged since the last commit or crash, absorbed writes included |
| `GroupCommit.GroupsDurable` | xv6-lazy-allocation-multilevel-fs/log.c:145-202 | over every run, each step leaves the durable content alone or overlays it at once with the last content of every block logged since the last commit or crash, and with nothing else |
| `GroupCommit.FinishDurable` | xv6-lazy-allocation-multilevel-fs/log.c:163-173 | when a commit finishes, the last content of every block logged before it is durable |
| `GroupCounters.AnyLogSize` | xv6-lazy-allocation-multilevel-fs/log.c:125-233 | on a log of any size, the shipped one included, with at most MAXOPBLOCKS calls an operation: committing implies outstanding is 0, the list has no duplicates and at most LOGSIZE entries, the LOGSIZE test and the panic in end_op are never reached; the only panic is the test against log.size - 1 |
| `GroupCounters.CountedStep` | xv6-lazy-allocation-multilevel-fs/log.c:125-233 | one step: the counters agree with the processes again, and a panic is that of the log.size - 1 test |
| `GroupCounters.Woken` | xv6-lazy-allocation-multilevel-fs/log.c:125-173 | on a log of any size, a process asleep in begin_op has to wait, and there is a busy process whose end will wake it |
| `LogSizing.LogSizeExact` | xv6-lazy-allocation-multilevel-fs/log.c:213-233 | with two or more processes, no run panics if and only if log.size > 2 * limit + MAXOPBLOCKS, where limit bounds the calls of an operation |
| `LogSizing.OverrunExact` | xv6-lazy-allocation-multilevel-fs/log.c:213-233 | the list stays inside the log region in all runs if and only if log.size > 2 * limit + MAXOPBLOCKS or the log is the header alone |
| `LogSizing.SmallLogPanics` | xv6-lazy-allocation-multilevel-fs/log.c:218-219 | on a smaller log a run in which every operation keeps to its limit reaches the panic |
| `LogSizing.StaleTestOverruns` | xv6-lazy-allocation-multilevel-fs/log.c:218-226 | on every log of 2 to 2 * limit + MAXOPBLOCKS blocks, the one mkfs makes included, two processes that pass the unlocked test together make the list as long as the log region, so that its last slot lies outside |
| `LogSizing.AtMostThree` | xv6-lazy-allocation-multilevel-fs/log.c:125-141 | in no run are more operations outstanding than the log has room for at MAXOPBLOCKS blocks each |
| `LogSizing.ThreeAtOnce` | xv6-lazy-allocation-multilevel-fs/log.c:125-141 | with three or more processes some run has exactly that many |
| `LogDriver.Log.WriteHead` | xv6-lazy-allocation-multilevel-fs/log.c:101-113 | the header block on disk becomes n followed by the entries of lh, its other words as before, in one block write |
| `LogDriver.Log.ReadHead` | xv6-lazy-allocation-multilevel-fs/log.c:85-98 | lh becomes the entries of the header block |
| `LogDriver.Log.WriteLog` | xv6-lazy-allocation-multilevel-fs/log.c:177-190 | issues exactly the log-slot writes of a commit, from the cached blocks |
| `LogDriver.Log.InstallTrans` | xv6-lazy-allocation-multilevel-fs/log.c:69-82 | issues exactly the writes that copy the log slots home, and leaves no pending write on an installed block |
| `LogDriver.Log.Commit` | xv6-lazy-allocation-multilevel-fs/log.c:192-202 | issues exactly the write list whose every prefix CrashAtomicity covers, and empties the list |
| `LogDriver.Log.RecoverFromLog` | xv6-lazy-allocation-multilevel-fs/log.c:115-123 | issues exactly the recovery writes |
| `LogDriver.Log.LogWrite` | xv6-lazy-allocation-multilevel-fs/log.c:213-233 | the block joins the list unless it is there; its latest content is pending |
| `LazyProcess.RunOps` | xv6-lazy-allocation-multilevel-fs/vm.c:221-471 | over every sequence of ssualloc, sbrk, faults, loads, stores, copyout, fork and exit of any processes in which kalloc does not fail, all views, sizes and results are those of a memory that allocates zeroed pages at once; kalloc cannot fail if there are as many free pages as the operations need; page ownership holds in any case |
| `LazyProcess.Do` | xv6-lazy-allocation-multilevel-fs/vm.c:221-471 | one operation refines the eager one; it takes at most the pages it needs and runs out only with fewer |
| `LazyProcess.SysSsualloc` | xv6-lazy-allocation-multilevel-fs/sysproc.c:59-79 | refines the eager call; no virtual page gets or loses a physical page; failure changes nothing the process can see; the answer is the first page boundary at or above the old size, and the new size is n above it |
| `LazyProcess.GrowProc` | xv6-lazy-allocation-multilevel-fs/proc.c:158-175 | refines eager sbrk on every int, wrap-around below 0 and the failing shrink to size 0 included; a failed growth changes nothing |
| `LazyProcess.PageFault` | xv6-lazy-allocation-multilevel-fs/trap.c:50-59 | a fault changes no view; if served, exactly that page becomes present; it is never served for a protection fault, and not for a visible page only if the page is present or memory has run out |
| `LazyProcess.UserLoad` | xv6-lazy-allocation-multilevel-fs/trap.c:50-59 | a user load, with the fault it may cause, gives the byte of the eager memory, or ends the process exactly where eager memory would |
| `LazyProcess.UserStore` | xv6-lazy-allocation-multilevel-fs/trap.c:50-59 | a user store, with the fault it may cause, does what it does on eager memory |
| `LazyProcess.ForkMemory` | xv6-lazy-allocation-multilevel-fs/proc.c:193-199 | the child gets exactly the view and size of the parent; on failure every process and the set of free pages are as before |
| `LazyProcess.ExitMemory` | xv6-lazy-allocation-multilevel-fs/vm.c:358-373 | the process is gone and no other process notices |
| `LazyProcess.UserInit` | xv6-lazy-allocation-multilevel-fs/proc.c:120-132 | the first process is one page that starts with the given bytes; it fails only with fewer than 67 free pages |
| `LazyProcess.Boot` | xv6-lazy-allocation-multilevel-fs/proc.c:120-132 | a machine of 67 or more pages starts with its first process in a state from which runs begin |
| `LazyProcess.InitBytes` | xv6-lazy-allocation-multilevel-fs/proc.c:120-132 | the first process loads init at address 0, zeros up to the end of the page, all of which it may store to, and nothing after it |
| `LazyProcess.GetVp` | xv6-lazy-allocation-multilevel-fs/sysproc.c:81-85 | the number of pages the size covers, which bounds every visible page |
| `LazyProcess.GetPp` | xv6-lazy-allocation-multilevel-fs/sysproc.c:87-94 | the number of pages below the size that have memory |
| `LazyProcess.ReservingCostsNothing` | xv6-lazy-allocation-multilevel-fs/vm.c:254-281 | where no mapping changed, as for ssualloc, the count of pages with memory is unchanged up to any size |
| `LazyProcess.FaultCostsOne` | xv6-lazy-allocation-multilevel-fs/vm.c:284-303 | a served fault raises that count by exactly one |
| `EagerMemory.FailedSbrk` | xv6-lazy-allocation-multilevel-fs/proc.c:168-171 | an sbrk reports failure and yet changes the view if and only if it shrinks to size 0 a process that has pages; it then removes every page and keeps the size |
| `EagerMemory.CallFits` | xv6-lazy-allocation-multilevel-fs/sysproc.c:59-79 | every call keeps everything at or above the size invisible and the size below KERNBASE |
| `MemoryLaws.SsuallocGives` | xv6-lazy-allocation-multilevel-fs/sysproc.c:59-79 | ssualloc answers a page boundary less than a page above the old size; exactly the pages of the n bytes from there on, none of which was there, become zeroed pages; a refusal changes nothing |
| `MemoryLaws.SsuallocRefused` | xv6-lazy-allocation-multilevel-fs/sysproc.c:59-79 | a well-formed request is refused if and only if the first page boundary at or above the size and n bytes more reach KERNBASE |
| `MemoryLaws.SsuallocBytes` | xv6-lazy-allocation-multilevel-fs/sysproc.c:59-79 | address by address: what ssualloc returned could not be loaded, now loads 0 and can be stored to; all other addresses are as before |
| `MemoryLaws.SbrkGives` | xv6-lazy-allocation-multilevel-fs/proc.c:158-175 | for every int: the answer, the new size, and page by page what appears, disappears or stays; nothing happens below 0, and at 0 all pages go while the size stays |
| `MemoryLaws.StoreGives` | xv6-lazy-allocation-multilevel-fs/trap.c:50-59 | after a store a load gives the byte at its address and what it gave before everywhere else; it fails exactly where the program may not write, and then changes nothing |
| `MemoryLaws.CopyGives` | xv6-lazy-allocation-multilevel-fs/vm.c:448-471 | copyout stores the longest prefix of data whose addresses can all be loaded, changes no other byte, and succeeds if and only if that is all of it |
| `MemoryLaws.OpGives` | xv6-lazy-allocation-multilevel-fs/proc.c:193-199 | an operation leaves every process but its own alone; fork adds an equal copy, exit removes the process |
| `MemoryLaws.RunInParts` | xv6-lazy-allocation-multilevel-fs/vm.c:221-471 | a run of the reference memory is the run of its parts one after the other, one answer for each operation |
| `MemoryLaws.NeedAtMost` | xv6-lazy-allocation-multilevel-fs/vm.c:221-428 | how many free pages each operation needs at most, in terms of its argument and the size |
| `UserView.CopyOutMeans` | xv6-lazy-allocation-multilevel-fs/vm.c:448-471 | the page-by-page copy of an eager memory reaches the end if and only if every page it touches is a user page, and always stores exactly the prefix before the first page that is not |
| `UserView.FreeDetermined` | xv6-lazy-allocation-multilevel-fs/vm.c:390-428 | which pages are free is determined by who holds the others |
| `UserView.Returned` | xv6-lazy-allocation-multilevel-fs/vm.c:390-428 | an address space built and taken down again leaves the set of free pages as it was |
| `PageTables.StoreOk` | xv6-lazy-allocation-multilevel-fs/vm.c:60-80 | writing one entry moves at most one physical page and keeps each page in exactly one place |
| `PageTables.AddTable` | xv6-lazy-allocation-multilevel-fs/vm.c:44-53 | a zeroed page becomes a page table and keeps each page in exactly one place; no user entry changes |
| `PageTables.DropDir` | xv6-lazy-allocation-multilevel-fs/vm.c:358-373 | a directory without user pages gives up exactly itself and its page tables |
| `LazyVm.Machine.Kalloc` | xv6-lazy-allocation-multilevel-fs/kalloc.c:82-95 | pops the free list; fails only when it is empty; no view changes |
| `LazyVm.Machine.Kfree` | xv6-lazy-allocation-multilevel-fs/kalloc.c:59-77 | pushes a page the kernel holds, filled with junk; no view changes |
| `LazyVm.Machine.WalkAlloc` | xv6-lazy-allocation-multilevel-fs/vm.c:35-55 | the page table of a slot, allocated if missing; no user entry changes |
| `LazyVm.Machine.MapPage` | xv6-lazy-allocation-multilevel-fs/vm.c:60-80 | the page appears at that place in that view only, or nothing changes and memory ran out |
| `LazyVm.Machine.AllocUvm` | xv6-lazy-allocation-multilevel-fs/vm.c:221-249 | all the zeroed pages appear, each with memory, or none, if there were fewer than two free pages for each; the size checks and their results |
| `LazyVm.Machine.DeallocUvm` | xv6-lazy-allocation-multilevel-fs/vm.c:328-354 | exactly the pages from the first at or above newsz to oldsz disappear, present or reserved, over missing page tables too |
| `LazyVm.Machine.ReserveSsuVm` | xv6-lazy-allocation-multilevel-fs/vm.c:254-281 | zeroed pages appear while no mapping changes; it fails, leaving every view and mapping unchanged, only if something is already there or there were fewer free pages than pages to reserve |
| `LazyVm.Machine.AllocSsuPage` | xv6-lazy-allocation-multilevel-fs/vm.c:284-303 | succeeds exactly on a reserved page when a page is free; no view changes |
| `LazyVm.Machine.Uva2ka` | xv6-lazy-allocation-multilevel-fs/vm.c:432-443 | the physical page exactly of present user pages |
| `LazyVm.Machine.CopyOut` | xv6-lazy-allocation-multilevel-fs/vm.c:448-471 | does what it does on eager memory, unless fewer pages are free than it touches, and then has stored a prefix |
| `LazyVm.Machine.CountPhysPages` | xv6-lazy-allocation-multilevel-fs/vm.c:308-322 | counts the pages below the size that have memory |
| `LazyVm.Machine.SetupKvm` | xv6-lazy-allocation-multilevel-fs/vm.c:117-136 | a new address space in which nothing is visible and every kernel slot has a page table; it fails only with fewer than 65 free pages, and is then gone again |
| `UserView.KernelSlotIs` | xv6-lazy-allocation-multilevel-fs/vm.c:105-136 | the kernel slots are those of the addresses setupkvm maps: KERNBASE to KERNBASE + PHYSTOP, and from DEVSPACE on |
| `LazyVm.Machine.FreeVm` | xv6-lazy-allocation-multilevel-fs/vm.c:358-373 | the address space is gone, all its pages are free and no other process notices |
| `LazyVm.Machine.CopyUvm` | xv6-lazy-allocation-multilevel-fs/vm.c:390-428 | the child sees the parent's pages below the size, with memory for exactly those for which the parent has memory; it fails only with fewer than 65 pages and two for each page of the size; on failure exactly the pages that were free are free |
| `InodeTree.LocateBijection` | xv6-lazy-allocation-multilevel-fs/fs.c:378-464 | the four ranges of bmap map [0, MAXFILE) one-to-one onto the leaf slots of an inode |
| `InodeTree.LocateOrder` | xv6-lazy-allocation-multilevel-fs/fs.c:378-464 | logical blocks take the leaves in the order of slots and, under a slot, of paths; with the bijection this determines the position of every block |
| `InodeTree.FreshOwned` | xv6-lazy-allocation-multilevel-fs/mkfs.c:95-117 | with all slots empty and the bitmap marking the metadata, ownership holds |
| `InodeTree.GrowChildOwned` | xv6-lazy-allocation-multilevel-fs/fs.c:372-464 | a free block put into an empty entry of an index block appears at that position only, and ownership stays exact |
| `InodeTree.GrowRootOwned` | xv6-lazy-allocation-multilevel-fs/fs.c:372-464 | the same for a slot of the inode |
| `InodeTree.ClearedOwned` | xv6-lazy-allocation-multilevel-fs/fs.c:498-532 | a slot cleared after exactly its tree was freed: ownership stays exact and no other position changes |
| `InodeTree.OwnedSub` | xv6-lazy-allocation-multilevel-fs/fs.c:471-496 | in an owned file system every tree has distinct blocks, all marked in use |
| `MultiLevelFs.FileSystem.Balloc` | xv6-lazy-allocation-multilevel-fs/fs.c:56-78 | a free block, marked and zeroed; fails only when every block is in use |
| `MultiLevelFs.FileSystem.Bfree` | xv6-lazy-allocation-multilevel-fs/fs.c:81-95 | clears the bit of a block in use; "freeing free block" is its precondition |
| `MultiLevelFs.FileSystem.Bmap` | xv6-lazy-allocation-multilevel-fs/fs.c:372-464 | the block at the leaf position of bn, found or allocated with its index blocks; a mapped block changes nothing; it fails below MAXFILE only when no block is free, and the leaf then stays empty; all reachable blocks stay distinct and the bitmap exact |
| `MultiLevelFs.FileSystem.BfreeIndirect` | xv6-lazy-allocation-multilevel-fs/fs.c:471-496 | frees exactly the blocks of the tree, each once, for any level |
| `MultiLevelFs.FileSystem.Itrunc` | xv6-lazy-allocation-multilevel-fs/fs.c:498-532 | frees exactly the blocks of this inode, each once; every other position of every inode is unchanged |
| `MultiLevelFiles.WriteI` | xv6-lazy-allocation-multilevel-fs/fs.c:578-608 | the file becomes its old bytes with src spliced in and no other file changes; the refusals; whenever the tree changes the size grows, so that iupdate follows; the tree gains blocks only on the way to the file blocks written; it panics only when the file needs another block and none is free, with every other file untouched and this one holding the bytes up to there |
| `MultiLevelFiles.ReadI` | xv6-lazy-allocation-multilevel-fs/fs.c:549-575 | returns the bytes of the byte-sequence file, cut at its end, and allocates nothing |
| `MultiLevelFiles.EmptyFile` | xv6-lazy-allocation-multilevel-fs/fs.c:498-532 | thirteen empty slots are the empty file, with which files start |
| `Mkfs.Image.constructor` | xv6-lazy-allocation-multilevel-fs/mkfs.c:95-117 | the zeroed image satisfies the invariant of all later steps, and every inode is an empty file |
| `Mkfs.Image.IndexBlock` | xv6-lazy-allocation-multilevel-fs/mkfs.c:269-281 | the child pointer of an index block, numbered from freeblock if empty; fails only at the end of the image |
| `Mkfs.Image.AppendBlock` | xv6-lazy-allocation-multilevel-fs/mkfs.c:283-328 | the block lands at the position where the kernel's bmap looks for it; fails only at the end of the image, and the position then stays empty |
| `Mkfs.Image.Iappend` | xv6-lazy-allocation-multilevel-fs/mkfs.c:330-355 | the inode holds its old bytes followed by the new ones; other inodes keep theirs; the tree gains blocks only on the way to those appended; fails only at the end of the image, with the bytes up to there |
| `Mkfs.Image.Bitmap` | xv6-lazy-allocation-multilevel-fs/mkfs.c:244-267 | marks exactly the blocks below freeblock |
| `Mkfs.ImageBoots` | xv6-lazy-allocation-multilevel-fs/mkfs.c:244-355 | a kernel that starts on the image satisfies its invariant, finds every file mkfs wrote, and its bitmap is exactly metadata plus reachable blocks |
| `Mkfs.Boot` | xv6-lazy-allocation-multilevel-fs/mkfs.c:244-267 | a file system started on the image with the bitmap mkfs writes: its invariant holds and it has every file of the image |
| `Extents.PackDecodes` | xv6-continuous-sector-fs/fs.c:427-443 | the greedy packing of any block sequence decodes to that sequence |
| `Extents.PackOptimal` | xv6-continuous-sector-fs/fs.c:427-443 | no list of runs of length at most 255 for the same blocks has fewer entries |
| `Extents.EncodeRoundTrip` | xv6-continuous-sector-fs/fs.c:383-444 | the 24+8-bit entry of a run gives the run back, is never 0, and fits 32 bits |
| `Extents.DecodeAt` | xv6-continuous-sector-fs/fs.c:393-411 | block bn lies in the run at its distance past the blocks of the earlier runs |
| `ContinuousFs.CsFile.Ballocx` | xv6-continuous-sector-fs/fs.c:57-82 | the first free block, marked and zeroed, or 0 exactly when the disk is full |
| `ContinuousFs.CsFile.Bfree` | xv6-continuous-sector-fs/fs.c:92-106 | clears the bit of a block in use |
| `ContinuousFs.BitOf` | xv6-continuous-sector-fs/fs.h:55 | the bit of block b is in the i-th block of the bitmap if and only if b is in the i-th row of BPB blocks |
| `ContinuousFs.CsFile.Lookup` | xv6-continuous-sector-fs/fs.c:393-411 | finds the bn-th block exactly of mapped bn |
| `ContinuousFs.CsFile.Csbmap` | xv6-continuous-sector-fs/fs.c:383-444 | the bn-th element for mapped bn; otherwise appends exactly one block at the end; every failure leaves entries and bitmap as they were, and says why |
| `ContinuousFs.CsFile.Place` | xv6-continuous-sector-fs/fs.c:427-443 | lengthens the last run or starts a new one as greedy packing does; fails only when packing needs a thirteenth entry |
| `ContinuousFs.CsFile.Itrunc` | xv6-continuous-sector-fs/fs.c:484-508 | frees each element of the sequence once and nothing else; every bitmap block that changes and the inode are logged |
| `ContinuousFs.NoEntriesMeansNone` | xv6-continuous-sector-fs/fs.c:436-443 | when csbmap runs out of entries, no other choice of runs would have had room for the file and the new block |
| `ContinuousFiles.WriteI` | xv6-continuous-sector-fs/fs.c:579-618 | stores exactly the prefix it reports, keeps the mapped blocks at ceil(size/BSIZE), never reaches the non-sequential branch, and stops before the end only at the size limit, or at a block boundary at or past the old end where the inode and bitmap show that csbmap can add no block; the file keeps its blocks, gains only free ones, and no other block is taken; every bit, block and inode field that changes is in the log |
| `ContinuousFiles.ReadI` | xv6-continuous-sector-fs/fs.c:548-576 | returns the bytes of the byte-sequence file and allocates nothing |
| `ContinuousFiles.WriteChunk` | xv6-continuous-sector-fs/file.c:134-146 | one transaction on a CS file logs every bit, block and inode field it changes, in at most MAXOPBLOCKS distinct blocks, failures included, and is short for those reasons only |
| `ContinuousFiles.NewFile` | xv6-continuous-sector-fs/fs.c:205-229 | a CS inode just made is the empty file |
| `ContinuousFiles.FileWrite` | xv6-continuous-sector-fs/file.c:118-157 | the file gains exactly the prefix reported, the offset moves by it, other blocks keep their bytes, no block is taken that the file does not get; it is a chain of transactions that each log all they change in at most MAXOPBLOCKS blocks; it reports less than asked only at the size limit or at a block boundary where csbmap can add no block |
| `PlainFileLog.PlainFile.Bmap` | xv6-continuous-sector-fs/fs.c:446-477 | a mapped block logs nothing; a new one its bitmap block, itself and at most the indirect block and its bitmap block; the file keeps its blocks, no two positions share one, no other block is taken, and all that changes is logged; it fails only for an unmapped block on a full disk |
| `PlainFileLog.FileOrder` | xv6-continuous-sector-fs/fs.c:446-477 | file blocks are the direct entries followed by the entries of the indirect block, in order |
| `PlainFileLog.PlainFile.WriteChunk` | xv6-continuous-sector-fs/file.c:134-146 | one transaction on a T_FILE file, at any offset and alignment, is refused past the size or the limit, or stored whole with at most MAXOPBLOCKS distinct blocks in the log, among them every bitmap block, new block, data block and indirect block that changes and the inode, or panics when the file needs another block and the disk is full |
| `PipeProtocol.Safety` | xv6-lazy-allocation-multilevel-fs/pipe.c:59-121 | under every interleaving of readers, writers and closers: bytes read followed by bytes buffered are the bytes written; with the pipe's lock free, asleep on nread means empty and write-open, asleep on nwrite full and read-open; never both |
| `PipeProtocol.Results` | xv6-lazy-allocation-multilevel-fs/pipe.c:79-121 | a read that returns has the last bytes taken from the stream, as many as it asked for or all there were, and none only at end of file; a write that returns its length has put exactly its bytes into the pipe, in order, and one that returns -1, only if the pipe is full and unreadable, a prefix of them |
| `PipeProtocol.OnlyTraffic` | xv6-lazy-allocation-multilevel-fs/pipe.c:79-121 | a step adds to the bytes written only the next byte of the write that holds the lock, and to the bytes read only one that the read holding the lock gets |
| `PipeProtocol.StepSends` | xv6-lazy-allocation-multilevel-fs/pipe.c:79-98 | every step keeps that the bytes a writer has put in since its call began are the first i of its buffer, however writers interleave |
| `PipeProtocol.NoDeadlock` | xv6-lazy-allocation-multilevel-fs/pipe.c:59-121 | in every state of every run some process in a call can take a step, unless all are asleep; and then every reader faces an empty pipe that can be written, every writer a full one that can be read |
| `PipeProtocol.NoUseAfterFree` | xv6-lazy-allocation-multilevel-fs/pipe.c:60-75 | once the pipe was freed it stays freed and no process is in a call on it |
| `PipeProtocol.FreedWhenClosed` | xv6-lazy-allocation-multilevel-fs/pipe.c:60-75 | when all calls have returned the pipe is freed if and only if both ends are closed |
| `PipeProtocol.StepInv` | xv6-lazy-allocation-multilevel-fs/proc.c:417-474 | every step, the hand-off of the two locks in sleep and the scan of wakeup included, keeps the invariant: sleepers wait for something that is missing, or the holder of the lock will wake them |
| `PipeProtocol.PutStream` | xv6-lazy-allocation-multilevel-fs/pipe.c:93 | a byte stored in the ring is appended to the stream, also where the counters wrap round |
| `PipeProtocol.GetStream` | xv6-lazy-allocation-multilevel-fs/pipe.c:116 | a byte taken from the ring is the oldest of the stream |
| `PipeProtocol.LastClose` | xv6-lazy-allocation-multilevel-fs/pipe.c:70-75 | the close that finds both ends closed is the only call left |
| `PipeProtocol.Wakeup1` | xv6-lazy-allocation-multilevel-fs/proc.c:457-465 | the scan makes exactly the processes asleep on the channel runnable |
| `Heap.Heap.Free` | xv6-lazy-allocation-multilevel-fs/umalloc.c:24-44 | the ring is the old one with the block inserted in address order and joined to its neighbours, and freep is the block below it; free and live blocks still partition the memory obtained |
| `Heap.Heap.Find` | xv6-lazy-allocation-multilevel-fs/umalloc.c:30-32 | the search terminates, wherever freep is, at the block below the one freed |
| `Heap.Heap.Search` | xv6-lazy-allocation-multilevel-fs/umalloc.c:74-89 | once round the ring: the first block after freep with room gives up its tail end and freep becomes the one before it, or none has room |
| `Heap.Heap.Morecore` | xv6-lazy-allocation-multilevel-fs/umalloc.c:46-61 | new memory of at least 4096 units joins the ring; fails only if sbrk does |
| `Heap.Heap.Malloc` | xv6-lazy-allocation-multilevel-fs/umalloc.c:63-90 | for every 32-bit request, a block that was nobody's of the units the uint arithmetic gives, with room for nbytes exactly if the sum does not wrap; 0 only if no free block is that large and sbrk fails; sbrk is asked only then; the heap breaks only if sbrk grants a wrapped argument; none of this below 2 GB; the block is the tail end of the first one with room after freep, in the ring as it was or with the new memory freed into it |
| `Heap.RequestExact` | xv6-lazy-allocation-multilevel-fs/umalloc.c:54-69 | for every 32-bit request, the units are those needed and sbrk is asked for what morecore takes if and only if the request with its header is below 2 GB |
| `Heap.UnitsLeast` | xv6-lazy-allocation-multilevel-fs/umalloc.c:46-69 | a request takes the fewest units with room for it and its header; morecore asks for those units, or 4096 if they are fewer |
| `Heap.RoomExact` | xv6-lazy-allocation-multilevel-fs/umalloc.c:69 | the block has room for the request if and only if nbytes + 7 does not wrap |
| `Heap.RequestsThatFail` | xv6-lazy-allocation-multilevel-fs/umalloc.c:52-69 | 2 GB makes the argument of sbrk negative, 0xFFFFFFF8 makes it 0, 0xFFFFFFFF gives one unit and an argument of 32768 |
| `Heap.GrantExact` | xv6-lazy-allocation-multilevel-fs/umalloc.c:54-59 | free and live blocks are the memory obtained after morecore if and only if sbrk granted all the bytes morecore takes |
| `FreeList.InsertBased` | xv6-lazy-allocation-multilevel-fs/umalloc.c:33-42 | freeing keeps the list in address order with no two adjacent free blocks |
| `FreeList.InsertCells` | xv6-lazy-allocation-multilevel-fs/umalloc.c:33-42 | freeing adds exactly the cells of the block |
| `FreeList.TakeCells` | xv6-lazy-allocation-multilevel-fs/umalloc.c:75-83 | allocating removes exactly the cells of the block handed out |
| `Heap.FreeLinked` | xv6-lazy-allocation-multilevel-fs/umalloc.c:33-42 | after the assignments of free the pointers lead round the new ring |
| `Heap.StopsAt` | xv6-lazy-allocation-multilevel-fs/umalloc.c:30-32 | the two stop conditions of the search hold together at exactly one block of the ring |
| `Regex.Match` | xv6-lazy-allocation-multilevel-fs/grep.c:72-82 | true if and only if some substring, anchored as ^ and $ require, is in the language the pattern denotes |
| `Regex.MatchHere` | xv6-lazy-allocation-multilevel-fs/grep.c:85-96 | the same for the beginning of the text |
| `Regex.MatchStar` | xv6-lazy-allocation-multilevel-fs/grep.c:99-106 | true if and only if some run of c can be followed by a match of the rest |
| `Regex.HereCons` | xv6-lazy-allocation-multilevel-fs/grep.c:85-96 | a prefix is in the language of an item and a rest exactly when it splits into a piece of the item and a word of the rest |
| `Regex.ParseExact` | xv6-lazy-allocation-multilevel-fs/grep.c:85-96 | a pattern string has one reading: the only list of items, and final $, that is written like it and in which no plain character precedes a star and no plain $ is last |
| `Regex.CharHere` | xv6-lazy-allocation-multilevel-fs/grep.c:85-96 | a character that is neither starred nor a final $ matches itself, and . any one character, followed by the rest |
| `Regex.StarHere` | xv6-lazy-allocation-multilevel-fs/grep.c:99-106 | c* matches exactly the runs of c, or of anything for ., that the rest can follow |
| `Regex.LiteralHere` | xv6-lazy-allocation-multilevel-fs/grep.c:85-96 | a pattern of plain characters matches at the beginning exactly if the text starts with it; with a final $ exactly if the text is it |
| `Regex.LiteralOccurs` | xv6-lazy-allocation-multilevel-fs/grep.c:72-82 | without ^ it matches exactly if it occurs in the text; with a final $, at the end of it |
| `Regex.LiteralAnchored` | xv6-lazy-allocation-multilevel-fs/grep.c:72-82 | after ^ it matches exactly if the text starts with it; with a final $ exactly if the text is it |
| `BufferCache.Cache.constructor` | xv6-lazy-allocation-multilevel-fs/bio.c:38-56 | the list is a circular doubly linked permutation of all buffers |
| `BufferCache.Cache.Bget` | xv6-lazy-allocation-multilevel-fs/bio.c:61-93 | one more reference to the buffer that has the block; or, of the buffers that are neither referenced nor dirty, the one given up longest ago takes the block over; or the panic exactly when there is none; at most one buffer holds a block of a device other than 0 |
| `BufferCache.Cache.Fill` | xv6-lazy-allocation-multilevel-fs/bio.c:102-104 | a valid buffer with what the block currently is |
| `BufferCache.Cache.Bread` | xv6-lazy-allocation-multilevel-fs/bio.c:96-106 | a locked buffer whose data is the disk overlaid with the pending logged writes, or, exactly when another process holds the buffer, a reference with which the caller waits; a cached block never ends in the panic; a block that is not cached gets the reusable buffer given up longest ago |
| `BufferCache.Cache.Bwrite` | xv6-lazy-allocation-multilevel-fs/bio.c:109-116 | the data is on disk and the block has no pending write |
| `BufferCache.Cache.MarkDirty` | xv6-lazy-allocation-multilevel-fs/log.c:213-233 | the data of the buffer is a pending write of its block |
| `BufferCache.Cache.Deref` | xv6-lazy-allocation-multilevel-fs/bio.c:128-140 | the last reference stamps the buffer with the time and moves it to the front; the list stays a circular permutation in the order of the stamps |
| `BufferCache.RecycleCoherent` | xv6-lazy-allocation-multilevel-fs/bio.c:78-91 | a buffer that is neither referenced nor dirty can take over an uncached block without any block changing its current content |
| `LruList.UnlinkCircular` | xv6-lazy-allocation-multilevel-fs/bio.c:132-133 | unlinking leaves a circular doubly linked list of the other nodes |
| `LruList.FrontCircular` | xv6-lazy-allocation-multilevel-fs/bio.c:134-137 | linking in at the head leaves a circular doubly linked list with the node first |
| `LruList.FrontRecent` | xv6-lazy-allocation-multilevel-fs/bio.c:128-140 | a node put first with the next time stamp keeps the list in the order of the stamps, latest first |
| `Ext2Image.Open` | ssu_ext2/ssu_ext2.c:130-235 | an image is accepted if and only if superblock and group descriptors pass the checks; then the fields are those of the superblock, all blocks lie inside the file, every group has the inode table its descriptor names, and there are groups for all inodes |
| `Ext2Image.GroupExists` | ssu_ext2/ssu_ext2.c:254-268 | every inode number of an accepted image has a group below groups_count |
| `Ext2Image.BlockInside` | ssu_ext2/ssu_ext2.c:198-203 | every block number below blocks_count lies wholly inside the image |
| `Ext2Image.DataBlockInside` | ssu_ext2/ssu_ext2.c:313-354 | every file block that is translated can be read |
| `Ext2Image.DataBlockFollows` | ssu_ext2/ssu_ext2.c:313-354 | the translation of a file block follows the pointers of its slot, through holes, and fails where a pointer is out of range |
| `Ext2Image.SlotBijection` | ssu_ext2/ssu_ext2.c:313-354 | the divisions find the one slot of every file block |
| `Ext2Image.SlotsValid` | ssu_ext2/ssu_ext2.c:313-354 | file blocks have a slot exactly below 12 + per + per^2 + per^3 |
| `Ext2Print.PrintInodeData` | ssu_ext2/ssu_ext2.c:730-780 | prints the whole file, or its first lines, for which only the blocks that hold them need be translatable; on failure exactly the blocks before the first that cannot be translated, which have too few lines |
| `Ext2Print.FirstLinesShortest` | ssu_ext2/ssu_ext2.c:760-772 | the first n lines are the shortest prefix with n newlines, or all of the file if it has fewer |
| `Ext2Print.WholeFile` | ssu_ext2/ssu_ext2.c:730-746 | the bytes of all blocks are as many as the inode's size |
| `Ext2Tree.Insert` | ssu_ext2/ssu_ext2.c:369-385 | the entry goes after all names that do not come after it; the list stays sorted and gains exactly it |
| `Ext2Tree.ReadRecords` | ssu_ext2/ssu_ext2.c:424-454 | exactly the live, listed entries of a well-formed block join the list; any malformed record fails |
| `Ext2Tree.ReadDirectory` | ssu_ext2/ssu_ext2.c:388-463 | succeeds exactly on well-formed directories, with their live entries, each as often as recorded, in name order |
| `Ext2Walk.Walker.Children` | ssu_ext2/ssu_ext2.c:568-621 | each directory is expanded at most once, only what can be reached is marked, and what a successful call marked is finished; its lines are those of its entries, in name order, each followed by lines drawn under it only |
| `Ext2Walk.Tree` | ssu_ext2/ssu_ext2.c:698-714 | expands no directory twice and none that cannot be reached; succeeds if and only if every directory it expanded can be listed; a recursive walk that succeeds expands exactly the directories that can be reached, unless one lies more than MAX_TREE_DEPTH deep on a path without repetition; without -r only the root is expanded; every directory expanded is shown in name order under its own line; the totals are the lines of directories, with the root, and the other lines |
| `Ext2Walk.ClosedReaches` | ssu_ext2/ssu_ext2.c:568-621 | a set closed under children holds all that can be reached from it |
| `Ext2Layout.SuperReadBack` | ssu_ext2/ssu_ext2.c:160-203 | a superblock written field by field is read back, and which superblocks are accepted in terms of its fields |
| `Ext2Layout.DescriptorReadBack` | ssu_ext2/ssu_ext2.c:217-234 | the descriptors are a row of 32-byte records after the superblock's block; the inode table of a group is the one its descriptor was written with |
| `Ext2Layout.GroupsLeast` | ssu_ext2/ssu_ext2.c:205-209 | the number of groups is the smallest with room for all blocks and all inodes |
| `Ext2Layout.InodeFrom` | ssu_ext2/ssu_ext2.c:254-281 | a group's table is a row of records of inode_size bytes, whatever that is; an inode can be read exactly if 128 bytes of its own record are there, and its fields are those of that record |
| `Ext2Layout.InodeNumbers` | ssu_ext2/ssu_ext2.c:263-270 | inode numbers count through the tables of the groups, one after the other |
| `Ext2Layout.InodeReadBack` | ssu_ext2/ssu_ext2.c:275-280 | mode, both halves of the size and the fifteen block pointers written to a record are what is read from it |
| `Ext2Layout.PointerReadBack` | ssu_ext2/ssu_ext2.c:290-310 | a pointer block is a row of little-endian words: entry i is the i-th word written, unless it is out of range |
| `Ext2Layout.BlockIs` | ssu_ext2/ssu_ext2.c:299-304 | block b is the bytes after b blocks |
| `Ext2Layout.SlotOrder` | ssu_ext2/ssu_ext2.c:313-354 | file blocks take the slots in the order of the inode's pointers and of the entries under them; with the bijection this determines the slot of every block |
| `Ext2Layout.FollowChases` | ssu_ext2/ssu_ext2.c:313-354 | a file block is found from its pointer in the inode, entry by entry down its way |
| `Ext2Layout.ContentByte` | ssu_ext2/ssu_ext2.c:730-780 | byte k of a file is byte k % block_size of the block that holds file block k / block_size, or 0 in a hole |
| `Ext2Layout.SizeIs` | ssu_ext2/ssu_ext2.c:283-288 | the size of a regular file is the 64-bit number its two halves were written from, of any other file the lower half |
| `Ext2Layout.ModeIs` | ssu_ext2/ssu_ext2.c:283-288 | directories and regular files are told by the upper four bits of the mode |
| `Ext2Layout.DirBlockIs` | ssu_ext2/ssu_ext2.c:408-422 | what a directory has in one of its blocks: the bytes of the block up to the end of the directory, and nothing in a hole |
| `Ext2Layout.RecordsReadBack` | ssu_ext2/ssu_ext2.c:424-454 | a directory block written as records is read as those in use, but for the names left out |
| `Ext2Layout.RecordsAreWritten` | ssu_ext2/ssu_ext2.c:424-454 | a directory block that is accepted consists of well-formed records and nothing else |
| `Ext2Layout.DirectoryReadBack` | ssu_ext2/ssu_ext2.c:388-463 | a directory written as blocks of records is read as those in use, in order |
| `Ext2Layout.NotAfterLex` | ssu_ext2/ssu_ext2.c:369-385 | the order of names is that of the first byte in which they differ, a prefix first |
| `Ext2Layout.SkippedIs` | ssu_ext2/ssu_ext2.c:445-446 | the names left out are ., .. and, in a tree, lost+found |
| `Ext2Layout.CStringIs` | ssu_ext2/ssu_ext2.c:442-444 | a name ends at its first NUL or with the record |

## Left out

- Hardware, boot code, `ide.c` beyond one atomic block transfer, `spinlock.c`, `sleeplock.c`:
  acquire and release are atomic steps.
- The `killed` flag in pipes, sleep and traps: a kill may land between the check and the sleep.
- Directories, paths, `sysfile.c`, `iput`/`ilock` and the inode cache: easier than the block layer.
- Device inodes (`T_DEV`) in `readi` and `writei`.
- Device errors, and `pread` failing inside the image in `ssu_ext2`.
- MultiLevelFiles.WriteI: states no MAXOPBLOCKS bound, because the chunk size of the
  multi-level tree was not widened for its extra index levels; a full disk and an overfull log
  are panics.
- MultiLevelFs.FileSystem.Itrunc: states no bound on the bitmap blocks it logs.
- The root directory that `mkfs` builds, whose size is rounded up past its mapped blocks.
- LazyVm.Machine.SetupKvm: the entries of the kernel's page tables are not modelled, only that
  each kernel slot has a page table; they map physical memory and are never user pages.
- LazyVm.Machine.DeallocUvm: clears an entry before it frees the page, the source after; nothing
  runs in between.
- A physical page is both a table of entries and a string of bytes, and the two are not related:
  the kernel uses a page as one or the other. For the same reason a block of the file system has
  index words and bytes.
- `exec`, `loaduvm`, `clearpteu`; the kernel stack and the other parts of `fork`.
- BufferCache.Cache.Bread: stops where the source sleeps on a buffer another process holds; the
  rest of such a call is Lock and Fill.
- BufferCache.Cache.MarkDirty: the buffer part of `log_write` only; the list is in GroupCommit.
- Reference counts of buffers are unbounded.
- GroupCounters.AnyLogSize: a recovery whose slots lie past the end of the disk takes no step; the
  device refuses such a block.
- PipeProtocol.Results: a negative length, which the system calls refuse, is not modelled.
- Heap.Heap.Malloc: the answer of sbrk is a parameter, an area not in use yet above the static
  header or nothing; what the heap does after it has been broken by a wrapped argument.
- Regex.Match: the loop of `grep` that cuts its input into lines.
- Ext2Walk.Tree: the labels of the lines (size, permissions), which are formatting; the visited
  bitmap is a set; `malloc` does not fail.
- Ext2Print.PrintInodeData: requires a positive line limit, which the command's parser ensures.
- `ssu_score`, `ssu_cleanup`, `sh.c`, `ext2_resolve_path`, formatting, prompts and the small user
  programs: easier members, or without a clean theorem.
