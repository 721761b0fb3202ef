# Linux 0.12 kernel: verified models

A Dafny model of the parts of the Linux 0.12 kernel that keep state over many operations, with proofs of what they
promise. Each module follows one source file or one group of functions; objects that the kernel updates in place are
classes with the same fields, and each method is proved against functions on the state before it.

| files | what they model |
|---|---|
| PagingState, PagingSteps, PagingTables, PagingDemand, PagingCopies, PagingRuns, PagingFailures, Paging, PagingFiles | mm/memory.c and mm/swap.c: reference counts, page tables, copy-on-write, sharing, swapping, demand loading; fork's copy; runs |
| Fork | find_empty_process |
| WaitQueues | the sleep chain of kernel/sched.c and its second client, fs/select.c, as a state machine |
| Scheduler | schedule and the tick |
| FileTree, FileAlloc, FileCuts, FileSystem, FileDev | block tree, bitmap, truncation, file reads and writes |
| LinkedLists, BufferState, BufferCache, BufferCoherence | the buffer cache: its lists and getblk under interference; the cache against a plain array of blocks |
| Elevator | the request lists of the block drivers, and that no request waits for ever |
| MallocState, MallocSteps, Malloc, MallocRuns | the bucket allocator |
| LineEditing, Tty | canonical input of the terminals |
| Exec | argument and environment strings |
| PathSpec, PathGrowth, PathLaws, Namei | path resolution with its references, and new entries |
| MathWords, MathDiv, MathAdd, MathConvert, MathIntegers, MathFormats, MathBcd | the 80-bit floating point emulation |

`dafny verify dfyconfig.toml` checks everything.

How the models are set up:

- A memory state is one invariant over all tasks: the count of a frame is the number of entries, tables and kernel
  holders; a writable page is counted once; a swap slot is free or named once. Bytes are compared through what a task
  reads at an address, wherever they are kept.
- The chain of sleepers lives in local variables of the sleeping functions. The state machine keeps those variables
  per task and proves that they form a stack for each queue.
- All inodes, indirect and double-indirect blocks are one tree of slots. Pointers and data share the same disk bytes.
- A sleep in getblk is replaced by an arbitrary cache that satisfies the invariant. A list of such caches stands for
  the future; a call that runs out of it has not returned yet.
- Words are naturals below 2^32; carries, wrap-around and truncation are written out.

Results that differ from what one might expect of the code:

- A page made writable by write_verify for a shared frame is not marked dirty; reclaim then loses it
  (`PagingSteps.VerifyThenReclaim`, from boot in `PagingFailures.LossFromBoot`). Over whole runs nothing else loses a
  page with a store in it (`PagingRuns.Replay`).
- swap_out gives up although a page can be taken exactly when all such pages are among the first entries of the first
  table it meets, because absent tables before that one are paid for twice (`Paging.Machine.SwapOut`, with such a state
  in `PagingFailures.GivesUpTooSoon`).
- Some member of a woken queue can run as long as its blocked members leave that queue first
  (`WaitQueues.SleepersRun`), which sleep_on guarantees; where a sleeper in select leaves another queue first, a new
  sleeper there and a signal break it from any state in which no member runs (`WaitQueues.OthersCanBlock`), so the
  condition is exact (`WaitQueues.LeaveFirstIsExact`). What always holds is `WaitQueues.SomeoneRuns`.
- A failing new_block leaves the bitmap alone exactly when all its bits are set (`FileAlloc.FailsQuietly`); otherwise it
  sets a bit that stands for no block (`FileAlloc.SpareBitLost`).
- A failed write loses the block's new contents (`BufferCoherence.FailedWrite`), and a change made while it was under
  way comes back with a later write (`BufferCoherence.StepRefines`).
- real_to_int looks at 32 fraction bits only (`MathConvert.RoundingExact`, `MathConvert.JustAboveHalf`); temp_to_short
  never rounds up at a half (`MathFormats.ShortRounding`); temp_to_long tests the wrong bits in directed modes
  (`MathFormats.LongRounding`, `MathFormats.LongRoundTrip`, `MathFormats.UpChangesLong`); fdiv never reports
  an inexact quotient (`MathDiv.ExactWhen`, `MathDiv.OneThird`).
- empty_dir forgets its buffer exactly on a directory whose first two slots are not "." and ".."
  (`Namei.Lookup.EmptyDir`, `Namei.BufferKept`).
- open_namei refuses an existing file under O_EXCL also without O_CREAT (`Namei.Lookup.OpenNamei`), and a file it makes
  can be found under its path exactly unless that is ".." in the root directory (`Namei.MadeIsNamed`).

## Model

| member | source | states |
|---|---|---|
| PagingState.CountBound | linux-0.12/mm/memory.c:118-166 | in every state that satisfies the invariant a frame of the pool is counted fewer times than there are task slots, because its users sit at one offset of different tasks |
| PagingState.SoleMapping | linux-0.12/mm/memory.c:228-245 | a mapped frame with count 1 is mapped nowhere else, is no page table and is held by nobody: the ground for making it writable in place |
| PagingState.MappedNotPrivate | linux-0.12/mm/memory.c:53-63 | the count of a mapped frame is exactly the number of entries that map it, and it is neither a page table nor held by the kernel |
| PagingState.PrivateFrameUnmapped | linux-0.12/mm/memory.c:174-196 | a frame that the kernel holds or that is a page table is mapped by no entry and used as a table at most once |
| PagingState.SoleHolder | linux-0.12/mm/swap.c:69-93 | a swap slot named by an entry is marked used and named by no other entry |
| PagingState.FreeSlotUnheld | linux-0.12/mm/swap.c:46-56 | a slot the bitmap calls free is named by no entry |
| PagingSteps.CopyOnWriteKeeps | linux-0.12/mm/memory.c:228-245 | giving an entry a private copy keeps the whole invariant and changes the bytes no entry sees |
| PagingSteps.ShareKeeps | linux-0.12/mm/memory.c:118-166 | sharing a present page write-protected keeps the invariant, and both entries read the same bytes |
| PagingSteps.SplitSwappedKeeps | linux-0.12/mm/memory.c:146-153 | copying a swapped-out entry brings the page in for one task and leaves the slot to the other; both still read the saved bytes |
| PagingSteps.SendOutKeeps | linux-0.12/mm/swap.c:95-121 | writing a dirty page to a free slot and freeing its frame changes no bytes that any entry reads |
| PagingSteps.BringInKeeps | linux-0.12/mm/swap.c:69-93 | reading a slot into a fresh frame and freeing the slot changes no bytes that any entry reads |
| PagingSteps.RemoveTableKeeps | linux-0.12/mm/memory.c:69-99 | dropping an empty page table keeps the invariant and every view |
| PagingSteps.SharedCopyIsDropped | linux-0.12/mm/memory.c:228-245 | the copy made for a shared page carries no dirty mark, so a following reclaim drops its bytes although nothing else holds them |
| PagingSteps.VerifyThenReclaim | linux-0.12/mm/memory.c:274-285 | a dirty page that write_verify made writable survives reclaim exactly when its frame was not shared |
| PagingSteps.ForkVerifyReclaimLoses | linux-0.12/mm/memory.c:228-245 | in every state with a dirty, unshared page, fork, write_verify and reclaim together leave the parent nothing of it |
| PagingFailures.LossFromBoot | linux-0.12/mm/memory.c:228-245 | the same from a state reached from boot: two page tables, one page written to, and after fork, write_verify and reclaim the page is gone |
| PagingFailures.GivesUpTooSoon | linux-0.12/mm/swap.c:128-166 | in that boot state, with the cursor on an absent table, swap_out finds nothing although the one page in memory can be taken |
| Paging.Machine.FreePage | linux-0.12/mm/memory.c:53-63 | exact new reference counts; low memory is ignored, a free frame or an address beyond memory panics |
| Paging.Machine.GetFreePage | linux-0.12/mm/swap.c:172-197 | the highest free frame, cleared and counted once, or 0 exactly when every count is nonzero; no view changes and one free frame less |
| Paging.Machine.PutPage | linux-0.12/mm/memory.c:174-196 | the held page appears with its bytes at the address; it fails, changing nothing, exactly when the page table is absent and no frame is free for it |
| Paging.Machine.GetSwapPage | linux-0.12/mm/swap.c:46-56 | the lowest free slot but 0 and only its bit cleared; 0 exactly when there is none |
| Paging.Machine.SwapFree | linux-0.12/mm/swap.c:58-67 | slot 0 and slots beyond the device are refused; otherwise the bit is set and a slot already free is reported |
| Paging.Machine.SwapIn | linux-0.12/mm/swap.c:69-93 | with a free frame, and only then, the entry becomes present, writable and dirty, reads the same bytes as before, and its slot is free again |
| Paging.Machine.TryToSwapOut | linux-0.12/mm/swap.c:95-121 | the entry is evicted exactly when it maps a counted frame and, if dirty, the frame has one user and a slot is free; a dirty page keeps its bytes in the slot, a clean one is dropped; otherwise nothing changes |
| Paging.Machine.SwapOut | linux-0.12/mm/swap.c:128-166 | the scan terminates and finds a page exactly when one can be evicted outside the entries it overlooks: the first ones of the first table present, when the cursor stands on an absent table or on index 0 behind one; only a page without a dirty mark loses its bytes |
| Paging.Machine.UnWpPage | linux-0.12/mm/memory.c:228-245 | the entry becomes writable and still reads the same bytes, failing exactly when the frame is shared and none is free; no other entry is affected; a sole owner keeps its frame |
| Paging.Machine.WriteVerify | linux-0.12/mm/memory.c:274-285 | afterwards a present page is writable, or it was shared and no frame was free; its bytes are unchanged |
| Paging.Machine.TryToShare | linux-0.12/mm/memory.c:305-347 | a clean page of another task above low memory is shared read-only at the same offset, and nothing else is; out of memory exactly when the page table is missing and no frame is free for it |
| Paging.Machine.SharePage | linux-0.12/mm/memory.c:357-379 | the first task running the same executable whose page can be shared supplies the bytes, and one does whenever there is such a task and memory for a page table |
| Paging.Machine.DoNoPage | linux-0.12/mm/memory.c:395-441 | a swapped page returns with its bytes; otherwise the page is that of the first task that can share it, or the file page it is handed, or zero; it fails exactly when fewer frames are free than the page and its table need |
| PagingFiles.ReadPage | linux-0.12/mm/memory.c:425-436 | the 4096 bytes of the file that lie 1024 further on than the place in executable or library, missing blocks as zeros, and zeros from the end of the data on, also when the data ends in the page |
| PagingFiles.GiverIsLast | linux-0.12/mm/memory.c:357-379 | the first task that share_page finds is the last one in the table that runs the file and has the page clean in memory |
| PagingFiles.NoPage | linux-0.12/mm/memory.c:381-441 | after a fault the task reads its page from swap, or that of the last other task running the same file that has it clean, or its own bytes of executable or library cut off at the end of the data, or zeros; it fails exactly when frames run short |
| PagingFiles.AloneFinds | linux-0.12/mm/memory.c:405-441 | a task that shares with nobody finds, byte by byte, its executable behind the header up to the end of its data, then zeros, and from 60 MB on its library |
| PagingCopies.KernelShown | linux-0.12/mm/memory.c:118-166 | the first task finds exactly the 160 lowest pages of the kernel at the bottom of its window |
| Paging.Machine.WriteFault | linux-0.12/mm/memory.c:254-272 | the page becomes present and writable and shows what it showed before or what the load found, exactly when enough frames are free for load, table and private copy |
| Paging.Machine.UserWrite | linux-0.12/mm/memory.c:254-272 | exactly then the page is what it was, or what the load found, with the one byte at its place changed and every other byte the same, and no other page of any task changes |
| Paging.Machine.FreePageTables | linux-0.12/mm/memory.c:69-99 | the region loses all its pages and tables, nothing outside it changes, and counts and slots balance |
| Paging.Machine.CopyPageTables | linux-0.12/mm/memory.c:118-166 | the child reads the parent's bytes at every offset, swapped pages included, and reclaim must save what it had to save for the parent; nobody else sees a change; it fails exactly when fewer frames are free than page tables plus pages in swap |
| Paging.Machine.CopyMem | linux-0.12/kernel/fork.c:39-61 | fork's copy either gives the child all the parent's bytes or, exactly when frames run short, is rolled back to an empty child region, with all counts right |
| Paging.Machine.MemInit | linux-0.12/mm/memory.c:443-455 | the state after mem_init satisfies the invariant |
| Paging.Machine.Step | linux-0.12/mm/memory.c:53-441 | every call works exactly when it is accepted and memory suffices, makes of every page of every task what Does says, takes and frees exactly the frames Spends says, and leaves alone the pages of every task it does not act for |
| Paging.Machine.Run | linux-0.12/mm/memory.c:53-441 | a run of faults, stores, forks, exits, verifications and reclaims is a run of the steps the replay speaks of, and a task no operation acts for keeps its unsaved bytes and never sees others' writes |
| PagingRuns.Replay | linux-0.12/mm/memory.c:53-441 | over every run each page of each task is what its owner's last stores left on top of what the fork that made it, or its load, gave it, or reclaim dropped it and it waits to be loaded; a page with a store in it is never dropped unless write_verify copied it since |
| PagingRuns.ReplayExactly | linux-0.12/mm/memory.c:53-441 | in a run without reclaim the equality is exact for every page |
| PagingRuns.FreedExactly | linux-0.12/mm/memory.c:69-99 | when page tables and their entries are gone a frame is free exactly when nothing outside them used it |
| Fork.FindEmptyProcess | linux-0.12/kernel/fork.c:143-157 | every id between last_pid and the new one, wrapping from the largest to 1, is some task's pid or group and the new one is nobody's, found within twice as many tries as tasks and one; the lowest free slot but 0, or none |
| Fork.VainTries | linux-0.12/kernel/fork.c:147-152 | ids tried in vain are pairwise different and all in use, so the search ends |
| Fork.TriedOnce | linux-0.12/kernel/fork.c:148-148 | going round after the largest id, no id comes twice before all have come |
| WaitQueues.StepKeeps | linux-0.12/kernel/sched.c:171-213 | every interleaving of sleeps, wakeups, signals and departures keeps the chain of local variables a stack under the queue head |
| WaitQueues.StackDistinct | linux-0.12/kernel/sched.c:171-192 | no task is twice on a queue, so the chain has no cycle |
| WaitQueues.LeaveInReverse | linux-0.12/kernel/sched.c:182-191 | tasks leave a queue in reverse order of arrival |
| WaitQueues.SomeoneRuns | linux-0.12/kernel/sched.c:182-191 | while any member has been woken, some task not older than it can run |
| WaitQueues.SleepersRun | linux-0.12/kernel/sched.c:171-213 | if every member that is not running leaves this queue next, then once one is woken a member of the queue itself can run |
| WaitQueues.OneQueueEach | linux-0.12/kernel/sched.c:171-192 | that is always so when the members wait through sleep_on |
| WaitQueues.OthersCanBlock | linux-0.12/fs/select.c:62-80 | otherwise it can be broken from every state: a new sleeper on the queue left first and a signal leave the woken queue without a member that can run |
| WaitQueues.LeaveFirstIsExact | linux-0.12/fs/select.c:47-80 | so the condition is exact: while no member runs and some task is idle, either the blocked members leave this queue first and it is not stuck, or it is stuck or gets stuck in three steps |
| WaitQueues.ModesKept | linux-0.12/kernel/sched.c:171-192 | whoever sleeps uninterruptibly does so on one queue, in every state |
| WaitQueues.SelectMemberMayBlock | linux-0.12/fs/select.c:62-80 | a reachable state in which no member of a woken queue can run, only a member of the other queue selected on |
| WaitQueues.WakeActivates | linux-0.12/kernel/sched.c:204-213 | a wakeup of a non-empty queue wakes a member of it |
| WaitQueues.ActiveUntilEmpty | linux-0.12/kernel/sched.c:171-213 | a queue with a woken member keeps one until it is empty, whatever else happens |
| WaitQueues.RunnableCanFree | linux-0.12/fs/select.c:62-80 | a member that can run is always able to take its next step of leaving |
| WaitQueues.AddWaits | linux-0.12/fs/select.c:47-60 | select enters itself once on each distinct queue, remembers its old head and becomes its head, and touches no other queue |
| WaitQueues.BlockProgress | linux-0.12/fs/select.c:69-73 | waking the newer head and waiting for it strictly lowers a measure |
| WaitQueues.MoveProgress | linux-0.12/fs/select.c:74-79 | leaving a queue strictly lowers the first measure |
| WaitQueues.TurnsEnd | linux-0.12/fs/select.c:62-80 | no schedule, in any order of the tasks that can run, has more turns than the weight of the state, so the turns end |
| WaitQueues.AllLeave | linux-0.12/fs/select.c:62-80 | every schedule that goes on until nobody can run leaves no woken task waiting and every queue empty that had a woken member |
| WaitQueues.RunWaiters | linux-0.12/fs/select.c:62-80 | returns the schedule it took, each turn by a task able to run, and the state that schedule leads to: nobody can run, nobody woken waits, and every queue that had a woken member is empty |
| WaitQueues.IdleInv | linux-0.12/kernel/sched.c:171-213 | the state with all queues empty satisfies the invariant |
| Scheduler.TaskTable.Select | linux-0.12/kernel/sched.c:144-154 | one pass finds a runnable task of maximal counter, the highest slot among equals |
| Scheduler.TaskTable.CheckTasks | linux-0.12/kernel/sched.c:126-140 | a task can run afterwards exactly when it could before, or slept interruptibly and its timeout is over or a signal that is not blocked is pending, counting SIGALRM of an expired alarm; nothing else changes |
| Scheduler.CheckSees | linux-0.12/kernel/sched.c:126-140 | the same for one task; SIGKILL and SIGSTOP count even when blocked |
| Scheduler.TaskTable.Schedule | linux-0.12/kernel/sched.c:119-162 | a second selection pass exactly when every runnable task has used up its slice after the checks, and then every task but the idle one gets half of what it had and its priority, otherwise no counter changes; the process chosen is a pick in the final table |
| Scheduler.TaskTable.Tick | linux-0.12/kernel/sched.c:324-368 | a tick charges exactly one to the running task, if it has any left, and switches only from user mode when its slice is over, as schedule does |
| Scheduler.RechargeBounded | linux-0.12/kernel/sched.c:156-159 | recharging keeps counters nonnegative, and between 0 and 2 * priority - 1 when they were |
| Scheduler.PickedZero | linux-0.12/kernel/sched.c:144-159 | a picked counter of 0 means that every runnable task has used up its slice |
| Scheduler.EventAhead | linux-0.12/kernel/sched.c:119-162 | each tick of user code lowers the work ahead of a waiting runnable task by one, and no other event adds to it but a priority raised by sys_nice, by twice the raise and only to the next epoch |
| Scheduler.NotForgotten | linux-0.12/kernel/sched.c:119-162 | a task that stays runnable waits at most as many ticks of user code as all counters and caps together, and raised priorities add, and within its epoch no more than the counters left; truncate giving up a slice and sys_nice included |
| FileTree.GrowKeeps | linux-0.12/fs/inode.c:84-88 | linking a freshly allocated block keeps the one-tree invariant, adds exactly that pointer and shows nothing new in any file |
| FileTree.PruneKeeps | linux-0.12/fs/truncate.c:24-27 | freeing a block without children and clearing its number keeps the invariant, removes exactly that pointer and turns only its slot into a hole |
| FileTree.PruneOrder | linux-0.12/fs/truncate.c:24-27 | freeing first and clearing the number afterwards comes to the same |
| FileTree.StoreKeeps | linux-0.12/fs/file_dev.c:69-82 | overwriting a data block changes that slot of that file and no pointer |
| FileTree.DataSlotInjective | linux-0.12/fs/inode.c:83-140 | different file blocks never share a place in the tree |
| FileTree.DataSlotValid | linux-0.12/fs/inode.c:79-82 | exactly the first 7+512+512*512 blocks of a file have a place |
| FileTree.WhereBlockIs | linux-0.12/fs/inode.c:83-140 | the number of block n of a file is in i_zone[n] for the first 7, then in the shorts of the indirect block, then two levels below the double-indirect block |
| FileTree.ShortOfPut | linux-0.12/fs/inode.c:102-107 | a pointer stored in an indirect block is read back and the other 511 are untouched |
| FileTree.SetPtrPtrs | linux-0.12/fs/inode.c:84-137 | writing one pointer changes the tree only there, given that what hangs below was and is empty |
| FileAlloc.AllocateGives | linux-0.12/fs/bitmap.c:76-106 | new_block returns the lowest free block of the data zone, cleared, and fails exactly when the zone is full |
| FileAlloc.AllocateFails | linux-0.12/fs/bitmap.c:94-96 | a failing new_block, even when it sets a bit past the last zone, leaves tree and files alone |
| FileAlloc.FailsQuietly | linux-0.12/fs/bitmap.c:82-96 | it leaves the bitmap alone too exactly when all its bits are set, spare ones included |
| FileAlloc.SpareBitLost | linux-0.12/fs/bitmap.c:94-96 | a disk, with one bitmap block and no data zone, on which a failing call does set a bit |
| FileAlloc.Create | linux-0.12/fs/inode.c:147-150 | create_block adds only missing pointers on the way to its block, keeps all data and every existing mapping, and fails only on a full disk |
| FileCuts.ZoneLeftIff | linux-0.12/fs/truncate.c:73-95 | a pass asks for another exactly when the inode holds a busy block |
| FileCuts.TrimMore | linux-0.12/fs/truncate.c:73-95 | passes add up: only blocks of the inode become holes, and a pass that meets no busy block leaves none |
| FileCuts.FreedExactly | linux-0.12/fs/truncate.c:65-98 | a finished truncation has cleared exactly the bits of the inode's blocks |
| FileSystem.Volume.Mount | linux-0.12/fs/super.c:100-164 | a device whose files are empty and whose data zone is free satisfies the invariant, with bit 0 of the bitmap set |
| FileSystem.Volume.FindFirstZero | linux-0.12/fs/bitmap.c:31-45 | the first clear bit of a bitmap block, 8192 when there is none |
| FileSystem.Volume.NewBlock | linux-0.12/fs/bitmap.c:76-106 | computes Allocate over up to eight bitmap blocks: sets the bit of the block it returns, which was clear, and clears that block and no other |
| FileSystem.Volume.FreeBlock | linux-0.12/fs/bitmap.c:47-74 | a busy block is refused and nothing changes; otherwise only its bit is cleared, its buffer forgotten, and a bit already clear is reported |
| FileSystem.Volume.Bmap | linux-0.12/fs/inode.c:74-140 | the disk block of a file block through direct, indirect and double-indirect zones; with create it performs Create |
| FileSystem.Volume.FreeInd | linux-0.12/fs/truncate.c:11-36 | frees exactly the blocks below an indirect block that are not busy, and it itself when all went; never a block twice |
| FileSystem.Volume.FreeDind | linux-0.12/fs/truncate.c:38-63 | the same one level up |
| FileSystem.Volume.TruncatePass | linux-0.12/fs/truncate.c:73-95 | one pass frees exactly the subtrees without a busy block and says whether another pass is needed |
| FileSystem.Volume.Truncate | linux-0.12/fs/truncate.c:65-98 | over the busy-retry passes no block is freed twice; a pass that meets no busy block ends it with an empty inode of size 0; other kinds of inode are left alone |
| FileDev.FileRead | linux-0.12/fs/file_dev.c:17-46 | returns the bytes of the file at the position, zeros for holes, and changes nothing |
| FileDev.FileWrite | linux-0.12/fs/file_dev.c:48-90 | a prefix of the data is in the file, every other byte of every file is as before, only this file grows, to the end of what was written if that lies behind its size; a short write means that the disk is full and the file has no block for the next byte |
| FileDev.WriteBlock | linux-0.12/fs/file_dev.c:64-83 | finding or making a block and replacing part of it is a write of those bytes |
| FileDev.Replay | linux-0.12/fs/file_dev.c:48-90 | over every run of writes and truncations each step is the write or truncation asked for, with the sizes it leaves, short only on a full disk whose file lacks the next block, and each byte of each file is what the last operation to touch it left |
| LinkedLists.RingRemove | linux-0.12/fs/buffer.c:140-146 | unlinking an element leaves a ring of the others in order |
| LinkedLists.RingAppend | linux-0.12/fs/buffer.c:151-155 | linking before the head puts the element at the end of the ring |
| LinkedLists.ChainRemove | linux-0.12/fs/buffer.c:133-139 | unlinking an element anywhere leaves a chain of the others in order |
| LinkedLists.ChainPush | linux-0.12/fs/buffer.c:157-163 | linking at the head of a chain, also of an empty one |
| BufferState.UnlinkKeeps | linux-0.12/fs/buffer.c:131-147 | remove_from_queues takes exactly one buffer out of ring and chain and leaves all lists well formed |
| BufferState.LinkKeeps | linux-0.12/fs/buffer.c:149-164 | insert_into_queues puts it at the end of the ring and at the head of its chain, all lists well formed |
| BufferState.ReuseKeeps | linux-0.12/fs/buffer.c:243-250 | taking a buffer over for a block that has none keeps the lists and one buffer per block |
| BufferState.ReuseMoves | linux-0.12/fs/buffer.c:243-250 | the buffer reused is held once, is neither dirty nor up to date, goes to the end of the free list and to the head of the chain of its new block; all others keep their places |
| BufferCache.Buffers.BufferInit | linux-0.12/fs/buffer.c:348-381 | all buffers free, in one ring, all chains empty |
| BufferCache.Buffers.RemoveFromQueues | linux-0.12/fs/buffer.c:131-147 | performs Unlink on the link fields |
| BufferCache.Buffers.InsertIntoQueues | linux-0.12/fs/buffer.c:149-164 | performs Link on the link fields |
| BufferCache.Buffers.FindBuffer | linux-0.12/fs/buffer.c:166-174 | returns the buffer of the block exactly when there is one |
| BufferCache.NotFound | linux-0.12/fs/buffer.c:166-174 | a block that is not on its hash chain has no buffer at all |
| BufferCache.Buffers.WaitOnBuffer | linux-0.12/fs/buffer.c:36-42 | returns exactly with the buffer unlocked, sleeping only while it is locked; the cache is then what the last of its sleeps left, and the same as before when it did not sleep |
| BufferCache.Buffers.GetHashTable | linux-0.12/fs/buffer.c:183-196 | in the cache the last sleep left, NULL exactly when the block has no buffer there, otherwise that cache with one holder more of the block's buffer, which is unlocked; it does not sleep unless the block's buffer is locked at the call |
| BufferCache.Buffers.LeastBad | linux-0.12/fs/buffer.c:213-223 | an unused buffer of least badness, dirty only if all unused ones are and locked only if all equally dirty ones are; NULL exactly when all are in use |
| BufferCache.Buffers.AwaitClean | linux-0.12/fs/buffer.c:228-236 | the cache is what the last sleep left; a buffer passed on is unused, unlocked and clean in it; no sleep for one that is unlocked and clean, and for ever only while it is locked or dirty |
| BufferCache.Buffers.TakeOver | linux-0.12/fs/buffer.c:243-250 | the last lines of getblk are one reuse of the buffer, which then has the new block, one holder and no valid contents, and keep the invariant |
| BufferCache.Buffers.GetBlk | linux-0.12/fs/buffer.c:206-251 | g is the cache as its last sleep left it, whatever the others did: if the block has a buffer in g it has one holder more, with g otherwise unchanged; if it has none, a buffer unused, unlocked and clean in g has the block now, one holder, no valid contents and the last place of the free list, and the cache is one reuse of g; no sleep when the block's buffer is unlocked, or it has none and a clean unused one exists |
| BufferCache.ReuseIsRekey | linux-0.12/fs/buffer.c:243-250 | the end of getblk is the reuse event of the cache as a whole, and meets its guard |
| BufferCoherence.StepKeeps | linux-0.12/fs/buffer.c:206-281 | every event, failed writes included, keeps one buffer per block and good clean buffers equal to the disk; until a write fails every buffer to be written is good |
| BufferCoherence.StepRefines | linux-0.12/kernel/blk_drv/ll_rw_blk.c:76-161 | queueing, reading, holding, releasing and reuse leave the array of blocks the cache stands for unchanged; a store, forgetting a freed block and the end of a write show in it as stated |
| BufferCoherence.WriteIsSilent | linux-0.12/kernel/blk_drv/ll_rw_blk.c:76-161 | as long as no write has failed, a write carried out changes no block |
| BufferCoherence.FailedWrite | linux-0.12/kernel/blk_drv/blk.h:118-134 | a failed write turns the block into what the disk holds, so it is harmless exactly when that is the same |
| BufferCoherence.RunRefines | linux-0.12/fs/buffer.c:206-281 | over every run, also with failing writes, reading a block gives what the last event to touch it made of it |
| BufferCoherence.SyncWritesAll | linux-0.12/fs/buffer.c:44-57 | after sys_sync and its transfers disk and cache agree on every block, and unless a write had failed before, on what the cache stood for |
| Elevator.OrderIsTotal | linux-0.12/kernel/blk_drv/blk.h:40-43 | IN_ORDER is a strict total order on requests |
| Elevator.InsertKeepsSweeps | linux-0.12/kernel/blk_drv/ll_rw_blk.c:90-102 | inserting at the place the loop finds keeps at most one drop in the order |
| Elevator.NoPlaceLeft | linux-0.12/kernel/blk_drv/ll_rw_blk.c:96-99 | with a drop in the queue, a request that found no place belongs behind the last one |
| Elevator.SweepsAscend | linux-0.12/kernel/blk_drv/blk.h:35-43 | a queue is at most two runs, in each of which reads come before writes, then lower devices, then lower sectors |
| Elevator.TailKeepsSweeps | linux-0.12/kernel/blk_drv/blk.h:132-133 | finishing the first request keeps it |
| Elevator.SpliceKeeps | linux-0.12/kernel/blk_drv/ll_rw_blk.c:76-104 | the whole request table stays in order when a request is spliced in |
| Elevator.PopKeeps | linux-0.12/kernel/blk_drv/blk.h:118-134 | and when the request in service ends |
| Elevator.Requests.FindSlot | linux-0.12/kernel/blk_drv/ll_rw_blk.c:133-140 | the highest free slot, for writes only of the lower two thirds; NULL exactly when there is none |
| Elevator.Requests.AddRequest | linux-0.12/kernel/blk_drv/ll_rw_blk.c:76-104 | the new request is spliced in behind the one in service, all others keep their order, and the queue stays two sweeps at most |
| Elevator.Requests.EndRequest | linux-0.12/kernel/blk_drv/blk.h:118-134 | the first request leaves, its slot is free, the rest is unchanged |
| Elevator.Requests.BlkDevInit | linux-0.12/kernel/blk_drv/ll_rw_blk.c:210-218 | all slots free, all lists empty |
| Elevator.InsertDistance | linux-0.12/kernel/blk_drv/ll_rw_blk.c:90-102 | a new request never puts a waiting one further from service |
| Elevator.PopDistance | linux-0.12/kernel/blk_drv/blk.h:132-133 | each end of a request brings a waiting one closer |
| Elevator.NoStarvation | linux-0.12/kernel/blk_drv/ll_rw_blk.c:76-104 | however many requests are added meanwhile, a waiting request, with fields that fit their C types, is in service after at most as many ends of requests as its distance over this sweep and the next |
| MallocState.LiveApart | linux-0.12/lib/malloc.c:117-173 | objects handed out are aligned to their bucket size, never overlap, and lie inside pages that are not free |
| MallocState.NoneLive | linux-0.12/lib/malloc.c:207-208 | the reference count of a bucket, also of one just made, is 0 exactly when it has handed out nothing |
| MallocState.AllFree | linux-0.12/lib/malloc.c:207-208 | as many distinct objects as a page holds are all its objects |
| MallocSteps.TakeLive | linux-0.12/lib/malloc.c:168-170 | the object handed out was free; nobody else's object changes |
| MallocSteps.GiveLive | linux-0.12/lib/malloc.c:205-207 | the object given back is the only one that stops being live |
| MallocSteps.FurnishKeeps | linux-0.12/lib/malloc.c:150-166 | a new bucket keeps the invariant: count plus free objects make up the page |
| MallocSteps.RetireKeeps | linux-0.12/lib/malloc.c:208-228 | giving an empty bucket back keeps all chains |
| MallocSteps.MoreKeeps | linux-0.12/lib/malloc.c:97-115 | a page of new descriptors extends the spare list |
| Malloc.Kmalloc.InitBucketDesc | linux-0.12/lib/malloc.c:97-115 | 256 new spare descriptors for one page; no object changes |
| Malloc.Kmalloc.ThreadPage | linux-0.12/lib/malloc.c:159-164 | the words of a new page link all its objects, and no other memory is written |
| Malloc.Kmalloc.Malloc | linux-0.12/lib/malloc.c:117-173 | an object of the smallest bucket that fits, free before and live now, all others as they were, and exactly the pages for a bucket and its descriptors taken that were lacking; it fails exactly when there are fewer pages than that |
| Malloc.FitsClosely | linux-0.12/lib/malloc.c:77-87 | an object is as large as asked and less than twice that, or 16 bytes; objects fill their page; exactly sizes up to a page fit |
| Malloc.Kmalloc.FindBucket | linux-0.12/lib/malloc.c:191-201 | finds the bucket whose page holds the object, also with a size hint |
| Malloc.Kmalloc.ReleaseBucket | linux-0.12/lib/malloc.c:208-228 | unlinks the bucket from its chain even when the predecessor found earlier is stale |
| Malloc.OnlyPrev | linux-0.12/lib/malloc.c:213-217 | whichever descriptor links to the bucket is its predecessor, so the test is enough |
| Malloc.LastOne | linux-0.12/lib/malloc.c:207-208 | the count reaches 0 exactly with the last live object of the page |
| Malloc.Kmalloc.FreeS | linux-0.12/lib/malloc.c:182-231 | only the object stops being live, with interrupts between search and cli(); its page goes back exactly with its last object |
| MallocRuns.Run | linux-0.12/lib/malloc.c:117-231 | over every run of malloc and free the live objects are exactly those handed out and not given back, each as large as asked, no two overlapping; every heap on the way follows from the one before by its call, and the run stops early only at a malloc for whose size pages are lacking |
| Tty.Queue.PutCh | linux-0.12/include/linux/tty.h:46-47 | appends to the ring |
| Tty.Queue.GetCh | linux-0.12/include/linux/tty.h:44-45 | takes the first character of the ring |
| LineEditing.CookTerms | linux-0.12/kernel/chr_drv/tty_io.c:210-226 | the count of line ends grows with an accepted line end and never falls, so data never underflows |
| LineEditing.CompleteTerms | linux-0.12/kernel/chr_drv/tty_io.c:147-158 | killing a line removes no line end and leaves none behind it |
| LineEditing.LinesAreSafe | linux-0.12/kernel/chr_drv/tty_io.c:143-177 | erase and kill never remove a character at or before the last line end |
| LineEditing.CookIsEdit | linux-0.12/kernel/chr_drv/tty_io.c:143-226 | in canonical mode the cooked queue is edited exactly like a reference line editor, and its line ends count the lines |
| LineEditing.CookAllIsEdit | linux-0.12/kernel/chr_drv/tty_io.c:120-229 | the same for any input typed ahead, up to what the full queue leaves unread |
| LineEditing.KeyDoes | linux-0.12/kernel/chr_drv/tty_io.c:143-226 | with distinct control characters each does its own thing and nothing else: which signal it sends, whether output stops, what it removes; any other character is added |
| LineEditing.ReturnEndsLine | linux-0.12/kernel/chr_drv/tty_io.c:134-140 | return and newline keys under icrnl, igncr and inlcr: which ends the line being typed, which is dropped, which counts as a return |
| LineEditing.CapitalsAreSmall | linux-0.12/kernel/chr_drv/tty_io.c:141-142 | with iuclc a capital does what its small letter does |
| LineEditing.OneLine | linux-0.12/kernel/chr_drv/tty_io.c:311-326 | a canonical read takes at most one line |
| LineEditing.ReadsALine | linux-0.12/kernel/chr_drv/tty_io.c:311-326 | with room for it a canonical read returns exactly the first line entered, without its end-of-file character, and leaves the rest |
| Tty.Terminal.KillLine | linux-0.12/kernel/chr_drv/tty_io.c:147-158 | removes the current line and nothing else |
| Tty.Terminal.Accept | linux-0.12/kernel/chr_drv/tty_io.c:143-226 | one mapped character does what Cook says, and data stays the number of line ends |
| Tty.Terminal.CopyToCooked | linux-0.12/kernel/chr_drv/tty_io.c:120-229 | both queues and the signals sent become what CookAll and SideAll say; data stays the number of line ends |
| Tty.Terminal.TakeSome | linux-0.12/kernel/chr_drv/tty_io.c:311-326 | the inner loop copies and takes what Copied and Taken say and keeps data right |
| Tty.Terminal.TtyRead | linux-0.12/kernel/chr_drv/tty_io.c:293-337 | with the number of sleeps m: it slept only while it had to; a canonical read took, once, the line of the very queue it woke up to, a complete one unless the raw queue is full; a raw read took what came, in order and without loss; a short result has a signal, a hangup or a time limit run out since it was last set as its reason, and a read that sleeps on has none |
| Tty.RawReads | linux-0.12/kernel/chr_drv/tty_io.c:278-337 | a raw read returns all there is up to what was asked; it sleeps exactly while it has neither VMIN characters, if VMIN is set, nor all it asked for, and no signal, hangup or time limit ends it; with neither VMIN nor VTIME it never sleeps |
| Tty.CanonicalReads | linux-0.12/kernel/chr_drv/tty_io.c:293-337 | with a complete line in the queue and room for it a canonical read does not sleep and returns the first line as edited, leaving the rest |
| Exec.ArgPages.CopyStrings | linux-0.12/fs/exec.c:127-175 | below the old p lie the strings in order with their zeros, across page boundaries, and no other byte changed; 0 only when fewer pages are free than the strings reach over |
| Exec.MapPages | linux-0.12/fs/exec.c:177-199 | the pages appear at the end of the data segment, below the library |
| Exec.CreateTables | linux-0.12/fs/exec.c:69-93 | argc, argv and envp and both zero-ended tables lie below the strings, aligned, and no string is touched |
| Exec.FillTable | linux-0.12/fs/exec.c:82-91 | one table points at every string in turn and ends in zero |
| Exec.PassStrings | linux-0.12/fs/exec.c:335-366 | exactly when there are the pages the strings need, a new program finds argc right and argv[i] and envp[i] pointing at exactly the strings given |
| Exec.PagesTouched | linux-0.12/fs/exec.c:127-175 | the pages needed are exactly those in which a byte of the strings lies |
| Exec.StartStep | linux-0.12/fs/exec.c:82-91 | each string lies, with its zero, between its start and the next one's |
| MathWords.ShiftLeft | linux-0.12/kernel/math/div.c:13-20 | doubles a 128-bit number, losing only the top bit |
| MathWords.ShiftRight | linux-0.12/kernel/math/div.c:22-26 | halves a 128-bit number |
| MathWords.TrySub | linux-0.12/kernel/math/div.c:28-38 | the 128-bit difference, and whether there was no borrow |
| MathDiv.Div64 | linux-0.12/kernel/math/div.c:40-61 | for a normalised divisor the quotient words are floor(m1 * 2^63 / m2), and the rest is twice the remainder |
| MathDiv.FDiv | linux-0.12/kernel/math/div.c:63-109 | zero divisor, underflow and overflow raise their flags; otherwise sign, mantissa and exponent of the quotient, which as a number is the true one truncated, by at most the last two places for a normalised dividend; the precision flag is never raised, exact or not |
| MathDiv.ExactWhen | linux-0.12/kernel/math/div.c:63-109 | the missing precision flag is right exactly when the division leaves no remainder |
| MathDiv.OneThird | linux-0.12/kernel/math/div.c:63-109 | an input on which it is wrong: one divided by three |
| MathDiv.QuotientTruncates | linux-0.12/kernel/math/div.c:63-109 | the quotient is the true one truncated: the error is below one unit of the unshifted quotient |
| MathDiv.Mul64 | linux-0.12/kernel/math/mul.c:22-44 | the exact 128-bit product |
| MathDiv.ProductOfPairs | linux-0.12/kernel/math/mul.c:22-44 | the product of two-word numbers from the four word products |
| MathDiv.FMul | linux-0.12/kernel/math/mul.c:46-73 | overflow and underflow as coded; otherwise the result as a number is the exact product truncated in its last place, with its sign |
| MathAdd.Signify | linux-0.12/kernel/math/add.c:27-36 | a quarter of the mantissa, in two's complement with the sign |
| MathAdd.Unsignify | linux-0.12/kernel/math/add.c:38-55 | sign and magnitude of the two's complement, shifted up |
| MathAdd.SignedSum | linux-0.12/kernel/math/add.c:82-91 | the sum of two 62-bit numbers never overflows |
| MathAdd.FAdd | linux-0.12/kernel/math/add.c:57-92 | alignment by any amount, the signed sum of the truncated operands, zero for a zero sum, the larger operand alone from 64 places on; as a number the result is within eight last places of the larger operand of the exact sum |
| MathAdd.AddError | linux-0.12/kernel/math/add.c:57-92 | the sum before normalising is within two units of the exact signed sum, the larger operand alone within a quarter of one |
| MathConvert.IntToReal | linux-0.12/kernel/math/convert.c:169-185 | exact conversion of every 64-bit integer |
| MathConvert.RealToInt | linux-0.12/kernel/math/convert.c:116-167 | overflow beyond 2^64, zero for small numbers, and the rounding of the first 32 fraction bits in every mode |
| MathConvert.RoundingExact | linux-0.12/kernel/math/convert.c:116-167 | this is correct rounding exactly when the fraction bits beyond 32 would not have decided |
| MathConvert.JustAboveHalf | linux-0.12/kernel/math/convert.c:116-167 | a normalised number just above one half that real_to_int rounds to 0, although nearest is 1 |
| MathConvert.IntegerRoundTrip | linux-0.12/kernel/math/convert.c:116-185 | integer to temporary real and back is the identity in every mode, except that zero loses its sign |
| MathIntegers.GetShortInt | linux-0.12/kernel/math/get_put.c:52-64 | the real is exactly the two's-complement number of the 16 bits |
| MathIntegers.GetLongInt | linux-0.12/kernel/math/get_put.c:66-78 | the same for 32 bits, the most negative number included |
| MathIntegers.GetLonglongInt | linux-0.12/kernel/math/get_put.c:80-95 | the same for 64 bits, negated word by word with carry |
| MathIntegers.PutShortInt | linux-0.12/kernel/math/get_put.c:168-180 | the 16 bits are the rounded number modulo 2^16, which is the number exactly when it is in range |
| MathIntegers.PutLongInt | linux-0.12/kernel/math/get_put.c:182-194 | the same for 32 bits |
| MathIntegers.PutLonglongInt | linux-0.12/kernel/math/get_put.c:196-212 | the same for 64 bits |
| MathIntegers.PatternsRoundTrip | linux-0.12/kernel/math/get_put.c:52-212 | loading and storing an integer of 16, 32 or 64 bits gives back the same pattern in every rounding mode |
| MathFormats.ShortRoundTrip | linux-0.12/kernel/math/convert.c:21-79 | short real to temporary real and back is the identity on all 32-bit patterns, in every mode |
| MathFormats.ShortLoaded | linux-0.12/kernel/math/convert.c:21-36 | sign, exponent and mantissa of a loaded short real; a one before its fraction also when it is denormal or infinite |
| MathFormats.ShortStored | linux-0.12/kernel/math/convert.c:55-79 | a normalised number in range is stored with its sign and exponent as its first 24 bits or the next greater number, a mantissa that overflows carrying into the exponent |
| MathFormats.ShortRounding | linux-0.12/kernel/math/convert.c:55-79 | the choice between the two is correct rounding exactly when a half, or the low word alone in directed modes, does not decide |
| MathFormats.LongRoundTrip | linux-0.12/kernel/math/convert.c:38-114 | for long reals it is the identity exactly when no directed mode rounds away from zero on bits 21 to 28 of the low word |
| MathFormats.LongLoaded | linux-0.12/kernel/math/convert.c:38-53 | sign, exponent and 53 bits of a loaded long real |
| MathFormats.LongStored | linux-0.12/kernel/math/convert.c:81-114 | a normalised number in range is stored with its sign and exponent as its first 53 bits or the next greater number, with the carry into the exponent |
| MathFormats.LongRounding | linux-0.12/kernel/math/convert.c:81-114 | correct rounding exactly when no half is to be rounded to even and, in directed modes, the bits tested are zero just when the bits lost are |
| MathFormats.UpChangesLong | linux-0.12/kernel/math/convert.c:38-114 | an input on which it is not the identity |
| MathBcd.Mul10 | linux-0.12/kernel/math/get_put.c:97-104 | ten times, by shifts and one addition, exact while it fits 64 bits |
| MathBcd.Div10 | linux-0.12/kernel/math/get_put.c:214-217 | quotient and remainder by ten of a 64-bit number |
| MathBcd.DecimalBound | linux-0.12/kernel/math/get_put.c:121-127 | even with nibbles above 9 the accumulator of a load never wraps |
| MathBcd.PackedValue | linux-0.12/kernel/math/get_put.c:233-239 | storing writes the last 18 decimal digits |
| MathBcd.PackedDecimal | linux-0.12/kernel/math/get_put.c:121-127 | unpacking and packing is the identity exactly on decimal digits |
| MathBcd.DigitAt | linux-0.12/kernel/math/get_put.c:121-127 | the k-th decimal digit of the number is the low or the high half of byte k / 2 |
| MathBcd.GetBcd | linux-0.12/kernel/math/get_put.c:110-129 | the magnitude is the number the digits stand for |
| MathBcd.PutBcd | linux-0.12/kernel/math/get_put.c:219-240 | the bytes are the packed digits and the sign byte |
| MathBcd.LoadStore | linux-0.12/kernel/math/get_put.c:110-240 | loading and storing a packed decimal is the identity exactly on canonical numbers; negative zero becomes zero |
| PathSpec.FirstMatch | linux-0.12/fs/namei.c:137-154 | the first slot whose name matches |
| Namei.Lookup.FindEntry | linux-0.12/fs/namei.c:97-157 | the slot in the directory or, going up from a mounted root, in the one it covers; one buffer held exactly when found; the reference moves with the directory |
| Namei.Lookup.FollowLink | linux-0.12/fs/namei.c:226-256 | both references given are used up for one on the result; a link met while following a link is refused |
| Namei.Lookup.GetDir | linux-0.12/fs/namei.c:264-307 | walks all parts but the last; the only new reference is on the directory returned |
| Namei.Lookup.DirNamei | linux-0.12/fs/namei.c:315-331 | the directory and the part after the last slash |
| Namei.Lookup.NameI | linux-0.12/fs/namei.c:333-364 | on every way out exactly one new reference, on the inode the path names, or none, and no buffer held |
| Namei.Lookup.Namei | linux-0.12/fs/namei.c:378-381 | the same for a path from user space, for every directory graph |
| Namei.Lookup.OpenNamei | linux-0.12/fs/namei.c:388-462 | on success exactly one new reference, on the inode opened or made, on every failure none, and never a buffer held; the outcome is that of Open, and the file system that of After: the name of a file made stands in the first free slot of its directory, and nothing else changes |
| Namei.OpensWhatIsNamed | linux-0.12/fs/namei.c:388-462 | what is opened is what the path names, a file is made only on request and where the path names nothing |
| Namei.OpensWhatIsAllowed | linux-0.12/fs/namei.c:446-462 | only an inode the caller may open is opened, no directory for writing, nothing under O_EXCL; EPERM exactly when the path names one that must not be opened; O_TRUNC exactly hands the file to truncate |
| Namei.OpenOutcomes | linux-0.12/fs/namei.c:388-462 | a file is made exactly when the name is missing, O_CREAT is given, the directory may be written, and there is an inode and room; and each other error exactly for its reason |
| Namei.Lookup.AddEntry | linux-0.12/fs/namei.c:169-224 | the name stands in the first free slot or at the end; NULL, and nothing changed, exactly for an empty name or when the directory has no block or needs one more that cannot be had |
| Namei.MadeIsNamed | linux-0.12/fs/namei.c:410-440 | afterwards the path names the file made for it exactly unless that is ".." in the root directory, which happens only where the root has no "."; otherwise every path that named something names the same |
| Namei.Lookup.EmptyDir | linux-0.12/fs/namei.c:591-633 | true exactly for a directory of "." and ".." alone; a buffer stays held exactly when the first two slots are not those |
| Namei.BufferKept | linux-0.12/fs/namei.c:605-611 | a directory on which a buffer stays held |
| Namei.PartsSplit | linux-0.12/fs/namei.c:289-290 | a path splits at its first slash |
| Namei.LastPart | linux-0.12/fs/namei.c:324-329 | the base name is the last part |
| Namei.NextPart | linux-0.12/fs/namei.c:283-306 | one turn of the loop resolves one part of what is left of the path |
| PathLaws.NameLeads | linux-0.12/fs/namei.c:97-157 | on the slots: 14 characters count, the empty name is ".", ".." stays in the root and leaves a mounted root by the directory it covers, and what is mounted on an inode takes its place |
| PathLaws.LinkLeads | linux-0.12/fs/namei.c:226-256 | a link leads where its text does from its directory; a link in that text or an unreadable one leads nowhere |
| PathLaws.AbsoluteEverywhere | linux-0.12/fs/namei.c:264-281 | a path with a leading slash means the same from every directory, and what follows means the same from the root |
| PathLaws.OnePart | linux-0.12/fs/namei.c:333-364 | a path without a slash names what its name leads to, the empty one the directory itself |
| PathLaws.MoreParts | linux-0.12/fs/namei.c:283-306 | a longer path goes on from where its first part leads |

## Left out

- Device drivers, interrupts, boot code, consoles, traps, timers and printing: hardware plumbing; a transfer is one completion event, a panic is a precondition or a failing result.
- Reclaim inside get_free_page: swap_out is an operation of its own, so an allocation that finds no frame fails where the kernel would first reclaim and retry.
- The kernel's accessed and user bits of page-table entries, TLB flushes and the messages on bad tables; the swap device is a row of pages, its absence an all-taken bitmap.
- Paging.Machine.CopyPageTables: from base 0, the first fork, only one directory slot is copied, as the kernel has no more there.
- PagingFiles.NoPage: bmap and bread_page are a map from block numbers to contents; a block that is missing or cannot be read gives zeros.
- Paging.Machine.Step: giving back a page grabbed by kernel code and put_dirty_page are operations of the class but not of runs.
- Fork.FindEmptyProcess: atomic with the creation of the process; the kernel may sleep between the two.
- WaitQueues.StepKeeps: on values, a state machine over tasks and queue heads, because the chain lives in locals of sleeping functions.
- The inode table itself (iget, iput, get_empty_inode, write_inode), the inode bitmap, super blocks and mounting.
- FileSystem.Volume.Truncate: other processes do not change the tree between its passes; reads of blocks succeed; device inodes, whose first zone is a device number, are outside the tree.
- FileDev.FileWrite: copying from user space is atomic and sizes beyond the largest file are excluded, as _bmap panics.
- BufferCache.Buffers.GetBlk: needs at least two buffers and a nonzero device; the write through a null b_next in insert_into_queues is left out; sync_dev is one more sleep.
- BufferCache: bread, breada and bread_page, and invalidation after a disk change; BufferCoherence has their effect on contents.
- Elevator.Requests.AddRequest: requests of buffers only, with distinct keys as the buffer lock guarantees; swap requests may be overtaken.
- Malloc.Kmalloc.FreeS: interrupts are allowed at one point, between the search and cli(), not inside the search.
- Tty.Terminal.CopyToCooked: echo and the output queue; capitals outside the alphabet tables.
- Tty.Terminal.TtyRead: the terminal settings do not change during a read; time is only whether the limit set last has run out when the reader wakes up.
- Exec.ArgPages.CopyStrings: the strings must fit, because the guard for it compares unsigned numbers and never fires.
- Exec: permission checks, script interpreters, and everything of do_execve after the stack.
- Namei.Lookup.NameI: directories have no missing blocks; the access time written through a null inode after a failed link is left out.
- Namei.Lookup.IPut: what happens when the last reference goes (truncate, free_inode).
- Namei.Lookup.OpenNamei: permission, the inode that new_inode finds and whether the directory can have one more block are inputs; the truncation of an opened file is a mark on the result, its effect is that of FileSystem.Volume.Truncate.
- mknod, mkdir, rmdir, unlink, symlink and link: they add directory changes to the resolution modelled here.
- MathDiv.FDiv: takes mantissas as they are; denormal and infinite operands get no treatment of their own, as in the code.
- Pipes, signals, vsprintf, ptrace, accounting and the system call stubs: mostly easy members.
