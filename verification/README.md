# A verified model of xv6-osw

This project models the parts of the xv6-osw kernel and userland whose correctness is not
visible in any one function, and proves what they promise. Each module follows one source file,
or one property that spans several.

- **Storage stack.** `BufCache` is the block cache: pinning, the MRU ring, caching switched on
  and off, as a transition system over all interleavings and as a class with the kernel's linked
  ring. `Bio` adds reading, writing and copying blocks through it. `NativeLog` is the redo log as
  sequences of block writes with a crash possible between any two; `LogRuns` is group commit by
  any number of concurrent system calls, with crashes; `LogDriver` is the log code itself on top
  of the cache, shown to perform those writes. `NativeFs` is the block bitmap, the direct and
  indirect addresses of inodes, and files as byte sequences.
- **Arithmetic and allocators.** `Udiv` is 64-bit division from 32-bit halves (`Bits` holds the
  shift and mask facts it needs). `Umalloc` is the user-level allocator. `Vm` is the frame
  allocator and the user part of a page table.
- **Trees in tables.** `Cgroup` is the control group tree with its counters and controllers;
  `Kmount` is the mount table with the mount lists of all namespaces, and the cloning of one.
- **Object store.** `ObjCache` is the buffer cache in front of whole-object reads and writes;
  `ObjDisk` is the placement of objects on the device.
- **Small languages and a buffer.** `Shell` is the command parser, `Grep` the pattern matcher,
  `Pipe` the ring buffer.

Conventions. A critical section under a lock is one step. `panic` is a result of its own, or is
proved unreachable. Where the code updates a structure in place, the model is a class whose
methods do the same updates; they are proved against functions on values, and the invariants are
proved about those functions. I/O results, recycled memory contents and failures of lower layers
are parameters. `Wrappers` and `Blocks` hold the optional value and the disk block. Nothing here
is meant to be executed.

## Findings

- fixparents looks for the copy of a parent from the entry's own copy on, not from the head of the
  new list, so it finds the right one only for the first mount (`Kmount.WalkIsRight`). It stays
  inside the new list exactly when the namespace has at most two mounts
  (`Kmount.WalkStaysInside`); cloning one with three, two of them on the root, follows a null
  pointer (`Kmount.CloneOfThree`).
- The log's guard stops at `log.size - 1` and mkfs makes the log `LOGSIZE` blocks long, so
  MAXOPBLOCKS (10) calls of log_write per operation, which begin_op reserves for, can reach the
  "too big a transaction" panic (`LogRuns.TenWritesPanic`), and two calls that pass the guard
  together can fill one block more than the log area has (`LogRuns.TenWritesOverflow`). Both are
  possible exactly with ten calls and a log area of exactly `LOGSIZE` blocks
  (`LogRuns.PanicExactly`); with nine calls, or one more block, every result about runs holds.
- malloc is right exactly for requests up to 0x7ffffff0 bytes (`Umalloc.RequestLimit`): beyond
  that the count of units wraps or becomes a negative argument of sbrk
  (`Umalloc.LargestRequestWraps`).
- A failed obj_cache_add or obj_cache_write leaves its bytes in valid, dirty buffers, so a later
  read returns bytes that are not on the device (`ObjCache.FailedAddIsRead`). The cache is right
  after a failed add exactly if there was no data or the objects with these buffers begin with the
  blocks it filled (`ObjCache.FailedAddExactly`), and after a failed write exactly if it would
  have changed no byte and needed no new block (`ObjCache.FailedWriteExactly`).
- Buffers are found by the first nineteen characters of a name, though names may have twenty. Two
  objects with these in common read each other's blocks (`ObjCache.TwinIsRead`), and so does an add
  that the device refuses because of a longer name (`ObjCache.OverlongNameIsRead`). An add keeps the
  cache right exactly if no other object on the device has the same nineteen characters
  (`ObjCache.SharedBuffersExactly`), as is the case with names of at most nineteen everywhere
  (`ObjCache.ShortNamesApart`).
- obj_id_cmp takes the low byte of the offset for the end of a name of twenty characters. Such an
  object is found exactly if its offset is a multiple of 256 (`ObjDisk.FoundExactly`); one byte
  under any such name is stored and not found again, and stored twice (`ObjDisk.LongNameLost`).
- A controller cannot be disabled while a deleted group in a slot that was not reused yet still
  has it enabled (`Cgroup.Cgroups.Disable`, `Cgroup.DeletedStillEnables`).
- The sign test of the division loop is right only because `d - r - 1` stays in the signed range
  there (`Udiv.SignMaskCompares`, `Udiv.SignMaskFailsOutOfRange`).
- A page given up by a control group is there for the next kalloc exactly if the free list is not
  empty (`Vm.ReservedPageIsThere`). A group can count a reservation that was refused, and is then
  refused the page (`Vm.ReservedInVain`).

## Model

| member | source | states |
|---|---|---|
| Udiv.UDivMod | kernel/udiv.c:49-228 | for all 64-bit a and b: traps exactly for b = 0, else a = q·b + r with r < b, through every branch |
| Udiv.DivideWord | kernel/udiv.c:60-68 | the 32-bit instruction the special cases use: x = q·y + r, r < y |
| Udiv.DivideByHighWord | kernel/udiv.c:99-129 | divisor with an empty low word: exact quotient and remainder, by mask, by comparison, or by the loop |
| Udiv.DivideByLowWord | kernel/udiv.c:132-173 | divisor of one word: exact quotient and remainder in all three alignments of the shift |
| Udiv.DivideByBothWords | kernel/udiv.c:174-198 | divisor of two words: exact quotient and remainder, including the shift by a whole word |
| Udiv.ShiftHigh | kernel/udiv.c:122-129 | shifting both halves by less than a word starts the loop in a state from which it divides exactly |
| Udiv.ShiftSubtract | kernel/udiv.c:206-227 | from any normalized start the shift-subtract loop yields the quotient and remainder of the dividend |
| Udiv.Round | kernel/udiv.c:207-224 | one round keeps the invariant that `quo` divides the dividend bits consumed so far, with its last bit in carry |
| Udiv.ShiftWords | kernel/udiv.c:209-212 | the four word shifts double the 128-bit pair r:q with carry coming in |
| Udiv.SignMaskCompares | kernel/udiv.c:213-223 | for r < 2d, with the top bit of r set whenever that of d is, d - r - 1 fits a signed 64-bit value and its sign mask is all ones exactly when r >= d |
| Udiv.SignMaskFailsOutOfRange | kernel/udiv.c:221 | remainder 0 against the largest divisor: outside the signed range the mask is wrong |
| Udiv.LoopStep | kernel/udiv.c:207-224 | subtracting the masked divisor and recording carry extends the quotient by the right bit |
| Udiv.RoundMask | kernel/udiv.c:221-223 | in every round of the loop the mask selects the divisor exactly when it fits into the remainder |
| Udiv.LastBit | kernel/udiv.c:225-227 | the final shift turns the waiting carry into the last quotient bit |
| Udiv.StartHigh | kernel/udiv.c:122-129 | the shifted halves are the dividend split at bit sr, high part below the divisor |
| Udiv.StartHighWord | kernel/udiv.c:189-192 | the same when the shift is a whole word |
| Udiv.StartLow | kernel/udiv.c:150-173 | the same for a one-word divisor, in its three cases |
| Udiv.HighPowerOfTwo | kernel/udiv.c:103-111 | a power of two in the high word divides by a shift, with the remainder by a mask |
| Udiv.LowPowerOfTwo | kernel/udiv.c:137-145 | a power of two in the low word divides by a funnel shift over both halves |
| Udiv.SmallDividend | kernel/udiv.c:116-121 | the unsigned difference of leading zeros exceeds 30 only if the dividend is below the divisor |
| Udiv.UDiv | kernel/udiv.c:230 | returns a / b for b != 0 |
| Udiv.UMod | kernel/udiv.c:232-236 | returns a % b for b != 0 |
| BufCache.NextKeepsInv | kernel/device/buf_cache.c:56-175 | every step of every caller keeps: one buffer per block, a clean valid unlocked buffer equals its device block, unwritten content is pinned |
| BufCache.RunKeepsInv | kernel/device/buf_cache.c:56-175 | the invariant holds after any interleaving of steps |
| BufCache.ViewIsLastWritten | kernel/device/bio.c:60-76 | after any run the content readers see of a block is the one last written or logged for it |
| BufCache.ReadsReturnLatest | kernel/device/bio.c:60-70 | a filled buffer held after any run, with caching switched at will, holds the content last written or logged for its block |
| BufCache.PinnedNeverRecycled | kernel/device/buf_cache.c:74-92 | no step takes a referenced or dirty buffer away from its block |
| BufCache.RunKeepsReleaseOrder | kernel/device/buf_cache.c:95-140 | with caching on and no hints, unreferenced buffers stand on the ring in the order of their last release after any run |
| BufCache.NextKeepsReleaseOrder | kernel/device/buf_cache.c:95-140 | one step keeps that order |
| BufCache.RecyclesLeastRecentlyReleased | kernel/device/buf_cache.c:74-90 | the recycled buffer is the least recently released one that is clean and unreferenced |
| BufCache.RunKeepsForgotten | kernel/device/buf_cache.c:95-175 | with caching off no buffer that is unreferenced and clean is valid, after any run |
| BufCache.ReleasedByHint | kernel/device/buf_cache.c:56-140 | in every run the last holder leaves a buffer at the end of the ring exactly if it was recycled with the hint or caching is off, else at the front |
| BufCache.Unlink | kernel/device/buf_cache.c:121-123 | the two assignments that remove a node leave a ring of the others with consistent back links |
| BufCache.LinkFirst | kernel/device/buf_cache.c:124-129 | the four assignments at the head give the ring with the node first |
| BufCache.LinkLast | kernel/device/buf_cache.c:130-136 | the four assignments at the tail give the ring with the node last |
| BufCache.Cache.constructor | kernel/device/buf_cache.c:20-40 | all buffers on the ring, unused, caching on |
| BufCache.Cache.FindCached | kernel/device/buf_cache.c:64-72 | the forward walk finds the buffer of the block if there is one |
| BufCache.Cache.FindRecyclable | kernel/device/buf_cache.c:74-78 | the backward walk finds the last clean unreferenced buffer on the ring |
| BufCache.Cache.Get | kernel/device/buf_cache.c:56-92 | reference and buffer as the transition says; none exactly when it panics |
| BufCache.Cache.Release | kernel/device/buf_cache.c:95-140 | drops lock and reference and requeues on the linked ring as the transitions say; panics exactly if the buffer is not held |
| BufCache.Cache.Unreference | kernel/device/buf_cache.c:103-140 | the part under the spin lock: last reference moves the buffer to head or tail |
| BufCache.Cache.Requeue | kernel/device/buf_cache.c:121-136 | rewiring the links moves the node to the head or the tail of the ring and keeps the others in order |
| BufCache.Cache.Transfer | kernel/device/bio.c:49-57 | a dirty buffer goes to its device block, a clean one is filled from it |
| BufCache.Cache.Write | kernel/device/bio.c:72-76 | device and readers have the buffer's content afterwards; panics exactly if the buffer is not held |
| BufCache.Cache.MarkDirty | kernel/fs/native_log.c:227-229 | the logged content is what readers see from now on, and the buffer is pinned |
| BufCache.Cache.EnableCache | kernel/device/buf_cache.c:152-158 | switching caching on changes no buffer, and cached content stays right |
| BufCache.Cache.DisableCache | kernel/device/buf_cache.c:160-175 | forgets exactly the unreferenced clean buffers, if caching was on |
| Bio.LookupSucceeds | kernel/device/buf_cache.c:74-92 | while one buffer is neither referenced nor dirty, a lookup does not panic |
| Bio.Bread | kernel/device/bio.c:60-70 | a locked buffer with the latest content of the block, no other buffer's content touched |
| Bio.CopyBlock | kernel/fs/native_log.c:172-183 | copying a block through two buffers changes the device at the target block only |
| NativeLog.HeadRoundTrip | kernel/fs/native_log.c:91-115 | reading the header block back gives the block numbers written to it |
| NativeLog.LogPrefix | kernel/fs/native_log.c:172-183 | stopping anywhere in write_log leaves header and home blocks as they were |
| NativeLog.HeadCommits | kernel/fs/native_log.c:105-115 | the one header write turns the logged blocks into a committed transaction |
| NativeLog.InstallPrefix | kernel/fs/native_log.c:75-88 | stopping anywhere in install_trans leaves the transaction committed |
| NativeLog.EraseFinishes | kernel/fs/native_log.c:185-193 | after the last install the erasing header write leaves a clean log |
| NativeLog.RecoveryPrefix | kernel/fs/native_log.c:117-122 | stopping anywhere in recovery leaves a state that recovers to the same content |
| NativeLog.RecoverReaches | kernel/fs/native_log.c:117-122 | recovery crashed any number of times and rerun ends clean with that content |
| NativeLog.CrashAtomicity | kernel/fs/native_log.c:75-122 | crash after any number of commit's writes, any crashes during recovery: all home blocks as before the transaction or all as after, decided by the header write |
| LogRuns.NextKeepsInv | kernel/fs/native_log.c:125-230 | begin, guard, append, end, one disk write, finish and crash keep reservation, distinct log blocks, and device and view in agreement with the history |
| LogRuns.RunKeepsInv | kernel/fs/native_log.c:125-230 | the invariant holds and no panic happened after any interleaving, with at most nine log_write calls per operation, or ten and a log area larger than LOGSIZE |
| LogRuns.RecoveryIsAtomic | kernel/fs/native_log.c:117-193 | from any reachable state recovery brings back a prefix of the logged blocks that splits no operation and holds nothing of an open one |
| LogRuns.QuietIsDurable | kernel/fs/native_log.c:143-193 | with no operation open and no commit running the log is empty and everything logged is on the device |
| LogRuns.NeverStuck | kernel/fs/native_log.c:125-193 | in every reachable state a commit can go on, an open operation can log or end, and with neither one can begin |
| LogRuns.ReservationHolds | kernel/fs/native_log.c:125-230 | with up to ten log_write calls per operation and any log area: logged blocks plus unspent reservations never exceed LOGSIZE, logged blocks are distinct, commit runs with no operation open, and with neither the log is empty |
| LogRuns.PanicExactly | kernel/fs/native_log.c:204-230 | the panic, and a log larger than its area, are reachable exactly with ten log_write calls per operation and a log area of LOGSIZE blocks |
| LogRuns.TenWritesPanic | kernel/fs/native_log.c:204-208 | a run with ten log_write calls per operation that panics |
| LogRuns.TenWritesOverflow | kernel/fs/native_log.c:204-230 | a run in which two calls past the guard fill a block beyond the log area |
| LogDriver.EncodeHead | kernel/fs/native_log.c:105-115 | the loop writes the header block that HeadRoundTrip reads |
| LogDriver.DecodeHead | kernel/fs/native_log.c:91-100 | the loop reads back the block numbers of the header |
| LogDriver.Log.WriteLog | kernel/fs/native_log.c:172-183 | performs exactly the log writes, with the content readers see |
| LogDriver.Log.InstallTrans | kernel/fs/native_log.c:75-88 | performs exactly the home writes, and readers see them |
| LogDriver.Log.WriteHead | kernel/fs/native_log.c:105-115 | performs the one header write |
| LogDriver.Log.ReadHead | kernel/fs/native_log.c:91-100 | in-memory header equals the one on the device |
| LogDriver.Log.Commit | kernel/fs/native_log.c:185-193 | its trace of device writes is the sequence crash atomicity is proved about; readers see the same home blocks throughout |
| LogDriver.Log.Recover | kernel/fs/native_log.c:117-122 | its trace is the recovery sequence |
| LogDriver.Log.BeginOp | kernel/fs/native_log.c:125-139 | admits exactly when no commit runs and MAXOPBLOCKS more blocks fit for everyone |
| LogDriver.Log.LogWrite | kernel/fs/native_log.c:204-230 | panics exactly on a full log or outside an operation; else absorbs or appends the block and pins the buffer |
| LogDriver.Log.EndOp | kernel/fs/native_log.c:143-169 | the last operation commits, any other leaves log and device alone; readers see no change |
| LogDriver.InstallShowsNothing | kernel/fs/native_log.c:75-88 | installing any prefix of a logged transaction changes no home block for readers |
| NativeFs.SetBitUsed | kernel/fs/native_fs.c:75-77 | setting a bit of a bitmap byte marks that block used and no other |
| NativeFs.ClearBitUsed | kernel/fs/native_fs.c:97-101 | clearing a bit frees that block and no other |
| NativeFs.TakeKeeps | kernel/fs/native_fs.c:64-87 | balloc's block was owned by nobody, is zero, and every other block keeps its owner |
| NativeFs.StoreKeeps | kernel/fs/native_fs.c:421-447 | an allocated block stored at an empty position is owned once, and set bits stay metadata plus owned blocks |
| NativeFs.OwnedIsUsed | kernel/fs/native_fs.c:90-104 | the bit of an owned block is set, so freeing it does not panic |
| NativeFs.FreeKeeps | kernel/fs/native_fs.c:284-311 | freeing a block still named by an inode keeps ownership for all other positions |
| NativeFs.ClearKeeps | kernel/fs/native_fs.c:284-311 | clearing the freed positions restores set bits = metadata plus owned blocks |
| NativeFs.PutDataKeeps | kernel/fs/native_fs.c:520-527 | writing file data touches no bitmap, no indirect block and no other file |
| NativeFs.WroteAll | kernel/fs/native_fs.c:503-534 | with all pieces copied and the size set, content is the old one with the new bytes spliced in, without holes |
| NativeFs.OthersRead | kernel/fs/native_fs.c:503-534 | every other inode has the same content as before |
| NativeFs.FileSystem.FindClear | kernel/fs/native_fs.c:64-84 | the two loops find the first clear bit |
| NativeFs.FileSystem.Balloc | kernel/fs/native_fs.c:64-87 | the first clear block, marked and zeroed; none exactly when all are used |
| NativeFs.FileSystem.Bfree | kernel/fs/native_fs.c:90-104 | panics exactly on a clear bit, else clears it |
| NativeFs.FileSystem.Bmap | kernel/fs/native_fs.c:421-447 | keeps ownership; returns the block's address exactly if there are as many free blocks as it takes: none, the block, or that and the indirect block; other data unchanged |
| NativeFs.FileSystem.Itrunc | kernel/fs/native_fs.c:284-311 | keeps ownership, never panics, leaves the inode empty and the others as they were |
| NativeFs.FileSystem.Readi | kernel/fs/native_fs.c:466-498 | exactly content[off..min(off+n, size)], or -1 exactly for a bad offset or overflow, changing nothing |
| NativeFs.FileSystem.Writei | kernel/fs/native_fs.c:503-534 | content becomes the splice, no hole appears, other inodes keep their bytes; -1 exactly for a bad range, the panic exactly if fewer blocks are free than the range lacks, indirect block included |
| NativeFs.PaidBoth | kernel/fs/native_fs.c:421-447 | the two allocations of an indirect file block together cost what was missing |
| NativeFs.TracksStep | kernel/fs/native_fs.c:503-534 | one turn of the loop takes the blocks of one more file block, or fewer are free than the range so far needs |
| Umalloc.FreeKeepsInv | user/lib/umalloc.c:24-46 | free keeps the list circular, in address order and without adjacent free blocks, and live plus free blocks tile the memory |
| Umalloc.FreeLeavesRoom | user/lib/umalloc.c:35-46 | some free block is at least as large as the one given back |
| Umalloc.CarveKeepsInv | user/lib/umalloc.c:71-81 | taking a whole block or the tail of one keeps all that, and the result was not live |
| Umalloc.ExtendKeepsInv | user/lib/umalloc.c:48-57 | new memory from sbrk joins the tiling as one block |
| Umalloc.PlaceExists | user/lib/umalloc.c:33-34 | every block has a place in the list, so free's search ends |
| Umalloc.RequestLimit | user/lib/umalloc.c:65 | the request reaches morecore unchanged exactly up to 0x7ffffff0 bytes |
| Umalloc.LargestRequestWraps | user/lib/umalloc.c:65 | the largest request asks for a single unit |
| Umalloc.Allocator.FindPlace | user/lib/umalloc.c:33-34 | the walk from freep ends at the free block after which the block belongs |
| Umalloc.Allocator.LinkIn | user/lib/umalloc.c:35-44 | the pointer writes of both joins are the one update FreeKeepsInv speaks about |
| Umalloc.Allocator.Free | user/lib/umalloc.c:24-46 | removes exactly this block from the live ones and points freep at the free block before it; NULL is ignored |
| Umalloc.Allocator.Morecore | user/lib/umalloc.c:48-59 | fails exactly when sbrk does; else a free block of the size asked for exists |
| Umalloc.Allocator.Scan | user/lib/umalloc.c:70-83 | one turn round the list finds a block that is large enough, or there is none |
| Umalloc.Allocator.Take | user/lib/umalloc.c:71-81 | the block handed out was free and has exactly the units asked for |
| Umalloc.Allocator.Malloc | user/lib/umalloc.c:61-85 | ends; with a large enough block on the free list it succeeds without sbrk, else exactly if sbrk does; the block was not live and has room for nbytes, everything still tiled |
| Vm.KallocKeeps | kernel/kalloc.c:104-116 | the frame given out was free and is now in the caller's hands only; counters stay right |
| Vm.KfreeKeeps | kernel/kalloc.c:55-69 | a frame in hand is free again, no mapping changed |
| Vm.ReservedPageIsThere | kernel/vm.c:264-273 | after a reserved page is given up kalloc succeeds exactly if there is a free page |
| Vm.ReservedInVain | kernel/vm.c:264-278 | with no free page a refused reservation is counted, given up, and the page is not there |
| Vm.GrownMapped | kernel/vm.c:212-234 | when allocuvm gives up, the pages it unmaps are those it had mapped |
| Vm.GrowingStep | kernel/vm.c:212-234 | each page takes its frame and its missing table; one that cannot be paid for makes the whole range too dear |
| Vm.ProtectKeeps | kernel/kalloc.c:71-96 | changing page_protect within page_cnt keeps frames and mappings |
| Vm.AddTable | kernel/vm.c:35-51 | a new zeroed table adds no page and is owned at one directory entry |
| Vm.MapKeeps | kernel/vm.c:57-72 | a frame entered at an empty page is owned there and nowhere else |
| Vm.UnmapKeeps | kernel/vm.c:242-260 | a page cleared gives up its frame, no other page changes |
| Vm.ClearTable | kernel/vm.c:282-294 | freeing a table without pages keeps every frame accounted for |
| Vm.LastFrame | kernel/vm.c:282-294 | with the directory freed every frame is on the free list once |
| Vm.PageTable.Kalloc | kernel/kalloc.c:104-116 | succeeds exactly if more pages are free than protected and the list is not empty |
| Vm.PageTable.Kfree | kernel/kalloc.c:55-69 | the frame is first on the list and filled with junk |
| Vm.PageTable.WalkAlloc | kernel/vm.c:35-51 | the table is there afterwards unless one was needed and kalloc failed; no page changes |
| Vm.PageTable.MapPage | kernel/vm.c:57-72 | maps this page to this frame and no other page, or fails with the frame still in hand |
| Vm.PageTable.Dealloc | kernel/vm.c:242-262 | exactly the pages between the two sizes are unmapped, across missing tables, and as many frames are free again |
| Vm.PageTable.Alloc | kernel/vm.c:203-236 | succeeds exactly if the pages and missing page tables of the range leave as many frames free as stay protected; then every page of the range has its own zeroed frame and the group's reservation has paid its share; else all pages, the reservation and page_protect are as before |
| Vm.PageTable.FreeAll | kernel/vm.c:282-294 | user frames, tables and directory are each released exactly once |
| Cgroup.AncestorsLive | kernel/cgroup.c:127-191 | a live group's ancestors are live, get less deep and end at slot 0 |
| Cgroup.CreateKeepsInv | kernel/cgroup.c:127-191 | create keeps the tree, descendant and process counts, and controller inheritance, also when a slot is reused |
| Cgroup.CreatedChild | kernel/cgroup.c:240-307 | what a new group holds and inherits, and that nothing else changes but counts |
| Cgroup.LimitsExactly | kernel/cgroup.c:147-164 | from a tree within all its limits, creating stays within them exactly if no ancestor is at its limit |
| Cgroup.DeleteKeepsInv | kernel/cgroup.c:194-238 | delete of a group without descendants and processes keeps them |
| Cgroup.JoinKeepsInv | kernel/cgroup.c:402-418 | entering a group keeps num_of_procs = processes in the subtree, for every group |
| Cgroup.LeaveKeepsInv | kernel/cgroup.c:59-80 | leaving does too, with populated exactly when the count is positive |
| Cgroup.EnableKeepsInv | kernel/cgroup.c:469-493 | enabling keeps: available exactly if the parent enables, enabled only if available |
| Cgroup.DisableKeepsInv | kernel/cgroup.c:502-531 | disabling keeps it, given that no child has it enabled |
| Cgroup.DeletedStillEnables | kernel/cgroup.c:221-236 | a deleted group keeps counting as a child that enables its controllers |
| Cgroup.DefaultLimitsSuffice | kernel/cgroup.c:147-164 | with the default limits neither limit panic of create is reachable |
| Cgroup.Cgroups.constructor | kernel/cgroup.c:240-255 | the zeroed table with its root satisfies the invariant |
| Cgroup.Cgroups.Lookup | kernel/cgroup.c:34-45 | the first slot with the path, none for the empty path |
| Cgroup.Cgroups.CheckLimits | kernel/cgroup.c:147-164 | rejects exactly if some ancestor is at its depth or descendant limit |
| Cgroup.Cgroups.FindFree | kernel/cgroup.c:166-173 | the first slot that is deleted and not open |
| Cgroup.Cgroups.CountGroup | kernel/cgroup.c:184-188 | the walk up changes the count of exactly the group's ancestors |
| Cgroup.Cgroups.CountProc | kernel/cgroup.c:411-418 | the walk up changes the count of exactly the group and its ancestors |
| Cgroup.Cgroups.Create | kernel/cgroup.c:127-191 | when it creates, fails and panics; the first free slot has a child of the parent with this path, nothing enabled and default limits, and a path not in use leads to it; no other group changes but in its count; limits of all ancestors are respected |
| Cgroup.Cgroups.Delete | kernel/cgroup.c:194-238 | succeeds exactly if no live group is below and, except for the root, no process is in the subtree, and the kind fits; then this group alone loses its path |
| Cgroup.Cgroups.Erase | kernel/cgroup.c:59-80 | nothing unless the process is in the group; then it is in none, and all counts are right |
| Cgroup.Cgroups.Insert | kernel/cgroup.c:354-419 | succeeds exactly under its limits; the process is then in this group only, whose process limit holds; other processes and the tree are as before |
| Cgroup.OneMore | kernel/cgroup.c:354-419 | moving a process adds at most one to any group |
| Cgroup.Cgroups.Enable | kernel/cgroup.c:469-493 | fails exactly for a populated group or a failed reservation; an available controller is then enabled here and available in the children, nothing else changes |
| Cgroup.Cgroups.Disable | kernel/cgroup.c:502-531 | fails exactly if it is enabled here and some slot that names this group as parent, deleted or not, has it enabled; else it is not enabled here nor available in the children, nothing else changes |
| Cgroup.Cgroups.Open | kernel/fs/cgfs.c:262-285 | refuses deleted groups; an open group's slot is not reused |
| Cgroup.Cgroups.SetLimits | kernel/cgroup.c:553-559 | changes these limits of this group only, and keeps the invariant |
| Cgroup.Cgroups.SetMaxProcs | kernel/cgroup.c:654-666 | takes exactly limits from 0 to NPROC, and keeps the invariant |
| Cgroup.Cgroups.Close | kernel/fs/cgfs.c:1286-1292 | drops one reference, after which a deleted slot may be reused without harm to any count |
| Cgroup.Cgroups.Mount | kernel/cgroup.c:47-57 | names the root, an empty path leaving the old name; the tree is untouched |
| Kmount.MountKeepsInv | kernel/kmount.c:130-176 | a new mount at the front keeps: lists linked, parents strictly later, ref = 1 + children + outside holders, free slots unlinked |
| Kmount.UnmountKeepsInv | kernel/kmount.c:178-243 | removing a mount without children keeps all that in every namespace |
| Kmount.UnmountTest | kernel/kmount.c:197-212 | for a caller with a reference, the tests on parent and ref > 2 hold exactly for a mount that is no root, has no children and no other holder |
| Kmount.HeldKeepsInv | kernel/kmount.c:96-107 | taking and dropping references keeps the invariant |
| Kmount.CloneCounts | kernel/kmount.c:284-361 | of at most two mounts: every mount of the clone has 1 + children references, and one more if it is the cwd mount |
| Kmount.CloneKeepsInv | kernel/kmount.c:284-347 | the clone of a namespace with at most two mounts keeps the invariant of all namespaces together |
| Kmount.WalkIsRight | kernel/kmount.c:329-341 | the parent found for an entry is the copy of its own exactly for the first entry and the root |
| Kmount.LastWalkLeaves | kernel/kmount.c:329-341 | from three mounts on, the walk for the last entry but one leaves the new list |
| Kmount.WalkStaysInside | kernel/kmount.c:325-347 | all walks stay inside the new list, and all find the copy of the parent, exactly for at most two mounts |
| Kmount.WalkStep | kernel/kmount.c:325-347 | one entry gets the parent its walk ended at; the new list stays linked and nothing else changes |
| Kmount.CloneOfThree | kernel/kmount.c:284-361 | two mounts on the root and a clone, which follows a pointer off the new list |
| Kmount.ShallowStep | kernel/kmount.c:284-323 | one copied entry continues a list in the same order; needs that free slots have no next |
| Kmount.Mounts.constructor | kernel/kmount.c:85-94 | the initial root mount alone |
| Kmount.Mounts.FindFree | kernel/kmount.c:109-121 | the first slot whose reference count is zero |
| Kmount.Mounts.IsMounted | kernel/kmount.c:143-158 | finds exactly whether the list has a mount at this point of this parent |
| Kmount.Mounts.Mount | kernel/kmount.c:130-176 | when it mounts, fails and panics; a failure changes nothing in use; else the first free slot has the mount asked for at the front of the list, and no other slot changes but in counts and links |
| Kmount.Mounts.Locate | kernel/kmount.c:178-190 | the mount's position in the list and the mount before it |
| Kmount.Mounts.Umount | kernel/kmount.c:178-243 | succeeds exactly for a mount that is no root, has no children and is held by the caller alone; then it alone is gone |
| Kmount.Mounts.CopySlots | kernel/kmount.c:284-323 | fresh slots, same order and contents, and the copy of the working directory's mount; panics exactly if there are fewer free slots than mounts |
| Kmount.Mounts.FindCopy | kernel/kmount.c:329-339 | as many steps from the entry's copy as the parent is from the head: the slot there, or past the end; the panic is unreachable |
| Kmount.Mounts.FixParents | kernel/kmount.c:325-347 | ends inside the new list exactly for at most two mounts, with the same parents by position and every count 1 + children; otherwise some entry's walk leaves it and those before have the parents their walks ended at |
| Kmount.Mounts.Clone | kernel/kmount.c:349-361 | with free slots for all: succeeds exactly for at most two mounts; then the new namespace is the old one renamed, the cwd mount has one more holder and the old one less, all namespaces stay well formed |
| Kmount.Mounts.GetRoot | kernel/kmount.c:363-378 | ends, at the last mount of the list |
| ObjCache.CopyTo | kernel/device/obj_cache.c:88-112 | exactly the bytes of the range change, across block boundaries, and exactly its blocks become valid and dirty |
| ObjCache.CopyFrom | kernel/device/obj_cache.c:114-138 | exactly the bytes of the range |
| ObjCache.BlockPart | kernel/device/obj_cache.c:94-106 | each block's share of the range: no byte twice, none left out |
| ObjCache.Spliced | kernel/device/obj_cache.c:248-296 | a write that validates only the blocks it does not cover holds the whole new object |
| ObjCache.WriteKeeps | kernel/device/obj_cache.c:248-296 | releasing the buffers of an object whose key no other has keeps every cached block equal to its object |
| ObjCache.DeleteKeeps | kernel/device/obj_cache.c:337-359 | emptying the buffers of the object keeps the cache coherent, whoever shares them |
| ObjCache.ReleasedExactly | kernel/device/obj_cache.c:77-86 | a coherent cache stays so exactly if the buffers given back and those not taken are blocks of every object with the key |
| ObjCache.FailedAddExactly | kernel/device/obj_cache.c:217-246 | after a failed add the cache is coherent exactly if the objects with these buffers begin with the blocks it filled, tail of the last one included |
| ObjCache.FailedWriteExactly | kernel/device/obj_cache.c:248-296 | after a failed write of an object the cache is coherent exactly if no byte differs and no block is new |
| ObjCache.SharedBuffersExactly | kernel/device/obj_cache.c:47-75 | every add of a name keeps every coherent cache coherent exactly if no object shares its first nineteen characters |
| ObjCache.HitIsRight | kernel/device/obj_cache.c:298-313 | bytes read from a coherent cache are those of the object, and without a shared key there is one |
| ObjCache.FailedAddIsRead | kernel/device/obj_cache.c:217-335 | a second add of an object fails, and a read returns its byte instead of the one on the device |
| ObjCache.TwinIsRead | kernel/device/obj_cache.c:55-56 | for any two names of at most twenty characters with the first nineteen in common, a read of one object returns the other's byte |
| ObjCache.OverlongNameIsRead | kernel/device/obj_cache.c:217-246 | an add refused for its long name changes what is read of the object with the same first nineteen characters |
| ObjCache.ObjectCache.GetBufs | kernel/device/obj_cache.c:47-75 | the buffers cached for the first nineteen characters of the name, others not valid |
| ObjCache.ObjectCache.Release | kernel/device/obj_cache.c:77-86 | the cache has the buffers with their flags, and otherwise what it had |
| ObjCache.ObjectCache.GetObject | kernel/device/obj_disk.c:420-464 | all buffers valid and holding the object; fails exactly if it is not found or too large, a name that is too long included |
| ObjCache.ObjectCache.ToDisk | kernel/device/obj_disk.c:204-217 | the object the buffers hold, of the given size; the buffers are clean afterwards |
| ObjCache.ObjectCache.Validate | kernel/device/obj_cache.c:140-166 | succeeds exactly if the object is found or the asked blocks are valid; for an object found they are valid afterwards and valid bytes right |
| ObjCache.ObjectCache.Add | kernel/device/obj_cache.c:217-246 | when it succeeds; device and buffers afterwards, dirty after a failure; for a name nobody shares the cache is coherent after success exactly if the device finds the object again or it is empty; after failure exactly as FailedAddExactly says |
| ObjCache.ObjectCache.Write | kernel/device/obj_cache.c:248-296 | succeeds exactly if the object is found and the device takes it; from a coherent cache it is then the old one with the bytes spliced in; for a name nobody shares the cache is coherent afterwards exactly if the object is still found, and after a failure exactly if nothing changed or nothing was copied |
| ObjCache.ObjectCache.Read | kernel/device/obj_cache.c:298-335 | from the cache if all of it is valid there, else from the device; with a coherent cache the object's bytes, and for a name nobody shares it fails exactly if there is no such object |
| ObjCache.ObjectCache.Delete | kernel/device/obj_cache.c:337-359 | the object is gone from the device; a coherent cache stays coherent |
| ObjCache.ObjectCache.Forget | kernel/device/buf_cache.c:74-90 | recycling clean buffers keeps a coherent cache coherent; dirty ones stay |
| ObjDisk.BubbleSort | kernel/device/obj_disk.c:72-83 | a permutation of the entries, in the order of their offsets |
| ObjDisk.Pass | kernel/device/obj_disk.c:75-82 | one pass carries the largest of the rest to its place |
| ObjDisk.OneAfterOther | kernel/device/obj_disk.c:137-156 | in that order every object ends before the next starts, so no gap subtraction is negative |
| ObjDisk.GapFits | kernel/device/obj_disk.c:137-156 | the place at the right end of a large enough gap is in the store and disjoint from every object |
| ObjDisk.NoGapNoFit | kernel/device/obj_disk.c:137-162 | if no gap is large enough, no address at all fits |
| ObjDisk.FindEmptySpace | kernel/device/obj_disk.c:101-162 | an address that fits, and none only if nothing fits |
| ObjDisk.PickGap | kernel/device/obj_disk.c:130-162 | the same for the sorted entries |
| ObjDisk.PlaceKeeps | kernel/device/obj_disk.c:278-295 | a placed object keeps extents disjoint and every other object's bytes |
| ObjDisk.ShrinkKeeps | kernel/device/obj_disk.c:361-366 | rewriting in place does too |
| ObjDisk.IdCmp | kernel/device/obj_disk.c:48-56 | equal exactly if the names are and the entry's is shorter than twenty characters or its offset a multiple of 256 |
| ObjDisk.FoundExactly | kernel/device/obj_disk.c:19-56 | an object is found exactly if its name has at most nineteen characters or its offset is a multiple of 256; then it alone is found under its name |
| ObjDisk.LongNameLost | kernel/device/obj_disk.c:19-325 | one byte under any name of twenty characters is stored, not found, and stored again |
| ObjDisk.Device.Add | kernel/device/obj_disk.c:297-325 | the object is stored byte for byte, all others unchanged, and is found afterwards exactly if its entry is visible; refuses a name exactly if it is found; each error case |
| ObjDisk.Device.Write | kernel/device/obj_disk.c:343-394 | the object found has the new bytes, in place or moved, all others unchanged, and is found afterwards exactly if its entry is visible; each error case |
| ObjDisk.Device.Grow | kernel/device/obj_disk.c:367-384 | a moved object may take its own old place; without room nothing changes |
| ObjDisk.Device.Get | kernel/device/obj_disk.c:420-464 | the bytes stored in the entry found for the name; NotExists exactly if none is found |
| ObjDisk.Device.Delete | kernel/device/obj_disk.c:466-491 | the entry found is free, all others unchanged, and none is found under the name; each error case |
| ObjDisk.Device.Lookup | kernel/device/obj_disk.c:19-30 | a visible entry with the name, or there is none |
| Shell.ParsesExactly | user/sh.c:461-562 | for every text and tree: the parser returns the tree exactly if the tokens of the text are a line of the grammar with that tree |
| Shell.LineAccepted | user/sh.c:476-562 | every line of the grammar parses to its tree, wherever a line may end |
| Shell.LineSound | user/sh.c:476-562 | what the parser accepts is a line of the grammar with the tree it returns |
| Shell.LexSpelled | user/sh.c:406-445 | tokens written with any white space, where needed, are read as these tokens |
| Shell.RoundTrip | user/sh.c:406-604 | every command tree of at most nine words per command, printed with parentheses only where the grammar needs them and with any white space, parses to itself |
| Shell.PipelineParses | user/sh.c:491-500 | commands joined by | without parentheses, however many, parse to the right-nested pipeline |
| Shell.TokenAdvances | user/sh.c:409-445 | every token but the end consumes text, and a word token is a maximal word |
| Shell.LineWords | user/sh.c:476-562 | every word in a parsed tree is a maximal word of the text |
| Shell.WordsTerminated | user/sh.c:564-604 | once nulterminate wrote at all word ends, each word is exactly the C string at its start |
| Shell.GetToken | user/sh.c:409-445 | the loops compute the token |
| Shell.PeekToken | user/sh.c:447-454 | whether the next character is one of the given, past white space |
| Shell.ReadRedirs | user/sh.c:502-522 | the loop collects the redirections the grammar has here |
| Shell.ReadArgs | user/sh.c:544-562 | the loop collects words and redirections; the tenth word panics |
| Shell.ReadExec | user/sh.c:536-562 | ends, with the tree of the grammar or the panic |
| Shell.ReadBlock | user/sh.c:524-534 | ends, with the tree of the grammar or the panic |
| Shell.ReadPipe | user/sh.c:491-500 | ends, with the tree of the grammar or the panic |
| Shell.ReadLine | user/sh.c:476-489 | ends on every input, with the tree of the grammar or the panic |
| Shell.NulTerminate | user/sh.c:564-604 | writes NUL at exactly the word ends of the tree |
| Shell.ReadCmd | user/sh.c:461-474 | returns a tree exactly if the tokens are a line of the grammar with it; every word of the tree is, in the buffer, exactly its token; else panics |
| Grep.HereIsPrefix | user/grep.c:76-83 | matchhere holds exactly if the pattern denotes a prefix of the text, all of it when it ends in $ |
| Grep.StarIsPrefix | user/grep.c:86-91 | matchstar holds exactly if the rest matches after some number of repetitions |
| Grep.Match | user/grep.c:67-73 | returns 1 exactly if the pattern denotes a prefix of some suffix of the text, of the text itself after ^ |
| Grep.Here | user/grep.c:76-83 | ends, and agrees with matchhere as a function |
| Grep.Repeat | user/grep.c:86-91 | the loop agrees with matchstar as a recursion |
| Pipe.CountersTell | kernel/pipe.c:67-106 | the 32-bit counters tell full from empty and give the number of bytes, also after wrapping |
| Pipe.PutHolds | kernel/pipe.c:80 | a byte put into a ring that is not full overwrites nothing unread |
| Pipe.DropHolds | kernel/pipe.c:99-100 | the byte taken is the oldest unread one |
| Pipe.FirstInFirstOut | kernel/pipe.c:67-106 | in every interleaving the bytes read are a prefix of the bytes written and at most 512 are on the way |
| Pipe.Buffer.constructor | kernel/pipe.c:20-31 | an empty ring |
| Pipe.Buffer.Write | kernel/pipe.c:67-85 | appends the bytes it reports, stops only when 512 are unread |
| Pipe.Buffer.Read | kernel/pipe.c:87-106 | takes min(n, unread) bytes, in order |

## Left out

- Bio.Bread: requires that nobody holds the block, where the source sleeps, and a buffer that can be recycled, where it panics.
- Bio.CopyBlock: requires the same of both blocks.
- Loop devices: log_write sends their blocks straight to the device, re-entering the backing file system.
- buf_cache_invalidate_blocks: discards dirty data on purpose when a device goes away.
- The ownership of blocks after a crash: recovery is proved to restore a prefix of whole operations, and every operation to keep ownership, but inode records inside blocks are not modelled.
- On-disk inodes, iupdate, ialloc, directories and device inodes: thin layers over the block operations that are modelled.
- NativeFs.FileSystem.Readi: stated for inodes without holes; writei never makes one.
- NativeFs.FileSystem.Writei: after a panic on a full disk only ownership is stated, since the kernel stops.
- Umalloc.Allocator.Malloc: requires a request within RequestLimit and that sbrk returns memory at or above the current break.
- Umalloc.Allocator.Free: requires a live block or NULL, as the C library does of its callers.
- LogDriver.Log.LogWrite: requires a block outside the log area; blocks of loop devices and the cgroup statistics are not modelled.
- LogDriver.Log.EndOp: requires that no commit is running, which LogRuns proves of every run.
- LogDriver.Log.Recover: requires a header block that the log itself could have written.
- Vm.PageTable.Dealloc: requires sizes up to KERNBASE, since pages above are the kernel's; larger arguments would wrap the address.
- Vm.PageTable.Alloc: requires the new range to be unmapped, as the process size guarantees (mapping twice panics); the sum of the groups' reservations is not tied to page_protect, since inc_protect_mem ignores a failed reservation.
- Vm.PageTable.MapPage: requires that the page is not mapped, which is a panic.
- Vm.PageTable.Kfree: the range check on the address is not modelled; frames come from the allocator.
- copyuvm, setupkvm, loaduvm, copyout: not modelled; copyuvm loses the frame it just took when mapping fails.
- Cgroup.Cgroups.Insert: requires a live group, as the write to cgroup.procs and fork guarantee; memory amounts and limits are parameters.
- Cgroup.Cgroups.Disable: requires a live group, as the write to cgroup.subtree_control guarantees; resetting the memory limits is not modelled.
- Cgroup.Cgroups.Enable: the four controllers share one model; the memory controller's page count is a parameter.
- Cgroup: path formatting, statistics, frozen groups, dying descendants and I/O accounting.
- Kmount.Mounts.Clone: nothing is said of the namespaces after a walk has left the new list, since the kernel then works on a null pointer.
- Kmount.Mounts.Umount: requires the caller's own reference, as its comment says; superblock and inode references are not modelled.
- umountall, mntlookup and unsharing twice: they work on the current process's list whatever namespace is meant.
- ObjCache.ObjectCache.Write: requires an offset within the object and its true size, as the file layer guarantees; coherence is stated for a name that shares its buffers with no other object.
- ObjCache.ObjectCache.Add: whether the device finds a name of twenty characters again is a parameter, decided by the offset in ObjDisk.
- ObjCache: cache hints and statistics, which only influence what is recycled; a full buffer cache.
- ObjDisk.FindEmptySpace: moving the start of the store is not modelled and counts as no space; an empty table without room is excluded, since the code then reads before its array.
- ObjDisk.Device.Add: extending a full table is not modelled.
- ObjDisk.Device.Write: requires a new size above zero, as obj_cache_write guarantees, and names other than the two reserved ones.
- bytes_occupied and the other counters of the object super block.
- Shell: running commands and the built-in commands.
- Grep: reading input in pieces.
- Pipe: wakeup liveness and closing.
- Hardware, boot, traps, system call arguments, procfs and cgfs text, the other user programs.
