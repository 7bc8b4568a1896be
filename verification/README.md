# A verified model of the kernel's memory, tasks and file layer

This project models the parts of the kernel where state is shared and invariants span several
operations, and proves what those operations promise together:

- physical frames: the bitmap allocator, trackers, large heap blocks (`bit_array`, `frame_region`,
  `frame_allocator`, `large_allocator`, `frame_ledger`);
- address spaces: areas, their subtraction, `mmap` and `munmap`, multi-page allocation (`mem_area`,
  `mmap`, `user_alloc`);
- copy-on-write: `cow_fork` and the fault handler against a machine that copies eagerly
  (`eager_fork`, `cow_machine`, `cow_areas`, `cow_links`, `cow_steps`, `cow_kernel`, `cow_laws`);
- the initial user stack (`init_stack`);
- words and strings in byte memory, used by several of these (`bytes`);
- waiting and messages: futexes, signals, message queues, pipes (`futex`, `signals`,
  `message_queue`, `pipe`);
- files: RAM files, paths, mounts, directory listing (`ram_file`, `path_buf`, `mounts`, `getdents`).

Code that updates state in place is a class or an array method with its specification; pure code is
functions and lemmas. The executor polls one task at a time and tasks give way only at an await
(crates/executor/src/executor.rs:75-93), so a stretch of code between two awaits is one atomic step,
and `Run` methods range over every sequence of such steps.

Conventions: integers are unbounded, a 64-bit signal word is the set of its bit numbers, memory is
sequences of bytes, a page table is a map from page to frame and permissions, and a panic is `None`
or `Panic`. Signal numbers and message types wrap as in the release build the Makefile makes
(Makefile:27).

## Main results

- **Copy-on-write is eager copying.** `CowKernel.Run`: in every run of forks, loads, stores, faults,
  mappings, unmappings and exits, up to the first operation that breaks the kernel, before each
  operation a machine whose fork copies every private page at once, run on the log so far, is the
  machine the kernel stands for, and every byte loaded is the one that machine has there. The
  answers, the log and the whole states, memory, counts and free frames of each region included, are
  determined by the first state and the operations (`CowSteps.ExplainsUnique`,
  `CowSteps.RunLogUnique`). `EagerFork.ForkSnapshot` and `EagerFork.Isolation` say what the machine
  means for a parent and a child; `CowKernel.WritableIsExclusive` is the invariant behind it. The
  kernel is sound at the end if and only if no operation was an unaligned mapping or a cut that is
  unaligned or loses trackers (`CowKernel.Unmap`, `CowKernel.MapLazy`).
- **What a program loads**, in bytes and addresses: zeros or the file's bytes from a new mapping
  (`CowLaws.LazyReads`, `CowLaws.RunReads`), what was stored there and nothing else
  (`CowLaws.StoreThenLoad`, `CowLaws.StoreElsewhere`), after a fork what the other stored exactly if
  the page is shared (`CowLaws.ForkThenStore`), and nothing from an unmapped range
  (`CowLaws.UnmapThenLoad`).
- **No frame is lost or handed out twice.** `FrameLedger.Run`: free frames, tracked frames and the
  frames of large blocks partition memory in every run, each operation hands out or takes back
  exactly the frames it has to, region by region, and a frame handed out twice was taken back in
  between. The first books and the operations determine all the others (`FrameLedgers.RunUnique`).
- **Subtracting a range** leaves covered exactly what was covered outside it and keeps areas
  disjoint (`MemAreas.SubAreaCovers`, `MmapCalls.AddressSpace.Run`). The branch that splits an area
  loses trackers; `TracksFollowIff` and `DroppedAreUnmappedIff` say exactly when.
- **RAM files are flat files**: every run of reads, writes and truncations that do not run out of
  frames before their offset has the results and the contents of the same run on a flat file
  (`RamFile.Run`).
- **The initial stack parses back** to the argument count, strings and auxiliary vector it was made
  from (`TaskStack.InitTaskStack`).
- **Accounts that balance in every run:** futex queues in order of arrival, real-time signals and
  the starts of their handlers, the messages of each type, the bytes of a pipe. Each `Run` also says
  what every operation answers and leaves.

## Where the code does not do what it is for

Each of these is stated exactly, as a condition a caller can check, in the member named.

- A cut inside an area drops the trackers to its right and leaves those in the cut outside every
  area; a cut at the head of an area drops all its trackers. The dropped pages stay mapped:
  `MemAreas.TracksFollowIff`, `MemAreas.DroppedAreUnmappedIff`, `MemAreas.SplitLosesTracker`,
  `MemAreas.HeadCutLosesTracker`, `CowKernels.HeadUnmapBreaks`.
- Areas that meet inside a page: a fault in the second fills the page again although the first has
  its tracker, and the byte loaded afterwards is the eager machine's only if that is 0:
  `CowKernel.MapLazy`, `CowKernel.Unmap`, `CowKernels.UnalignedAreasForget`,
  `CowMachines.RefillForgets`.
- An `mmap` with hint 0 after an unaligned end panics: `AddressSpace.Mmap`,
  `MmapCalls.UnalignedUnmapPanics`.
- The initial stack pointer is 16-byte aligned only for an even number of words:
  `TaskStack.InitTaskStack`, `InitStacks.BusyboxMisaligned`.
- A large block fails for a misaligned first run although another would do: `LargeAllocator.Alloc`,
  `LargeAllocators.MisalignedFails`.
- A RAM-file write that runs out of frames before its offset, or a truncation that runs out, leaves
  a length beyond the pages: `RamFile.WriteAt`, `RamFile.Truncate`, `RamFiles.WriteBreaks`,
  `RamFiles.TruncateBreaks`.
- A timed futex wait that expires leaves the task queued: `FutexTable.TimeOut`,
  `Futexes.TimeOutBreaks`; a later wake can be spent on it while a real waiter sleeps on:
  `Futexes.StaleEntryTakesWake`. A requeue of more tasks than there are is a panic:
  `FutexTable.Requeue`, `Futexes.RequeuePanics`.
- A standard signal sent while its own handler runs is dropped: `TaskSignals.Finish`,
  `Signals.StandardSignalDropped`. `kill` does not count a repeated real-time signal:
  `TaskSignals.Kill`, `Signals.KilledTwiceDeliveredOnce`. A handler dropped by the race with a system
  call starts again, so starts are deliveries exactly without drops: `TaskSignals.Run`,
  `Signals.HandlerStartsAgain`. The mask of a handler that is dropped, or that gives up before it
  runs, stays: `TaskSignals.Finish`, `TaskSignals.Abort`, `Signals.DroppedMaskStays`. Signal 0 sends
  signal 64: `TaskSignals.Send`, `Signals.NullSignalIsSent`.
- A blocking `msgsnd` to a full queue reports success and queues nothing, and `msgrcv` takes a
  message out even when it reports an error: `MessageQueue.MsgSnd`, `MessageQueue.MsgRcv`,
  `MessageQueues.SendIsLost`, `MessageQueues.ReceiveLoses`. A request for the least type overlooks
  messages: `MessageQueues.PicksIsPosixIff`, `MessageQueues.LeastTypeOverlooks`.
- Writes of up to 16 bytes are not held to the pipe's size: `Pipe.WriteAt`, `Pipes.SmallWritesPileUp`.
- Mounting above an existing mount point hides it: `Mounts.LookupIsDeepestIff`, `Mounts.MountKeepsIff`,
  `Mounts.MountHides`.
- A `getdents` call that writes nothing, also because the next entry does not fit, starts the listing
  over: `Directory.List`, `Getdents.ShortBufferStartsOver`.

## Model

| member | source | states |
|---|---|---|
| BitArray.WithBitCorrect | crates/runtime/src/frame.rs:102-110 | writing one bit of a vector of words changes that bit and no other, and keeps every word within 64 bits |
| BitArray.ClearBitExists | crates/runtime/src/frame.rs:114-121 | a 64-bit word that is not all ones has a clear bit, so the word test of `alloc` skips only full words |
| BitArray.ZeroWordCount | crates/runtime/src/frame.rs:82-96 | counting a zero word as 64 clear bits agrees with counting bit by bit |
| FrameRegions.CountClearBits | crates/runtime/src/frame.rs:82-96 | the count with the zero-word shortcut is the bit-by-bit count |
| FrameRegions.PaddingNotCounted | crates/runtime/src/frame.rs:65-78 | the padding bits past the last frame, set at the start, add nothing to the count |
| FrameRegions.CountIsCardinality | crates/runtime/src/frame.rs:82-96 | the number of clear bits is the number of free frames |
| FrameRegions.RunInIsFreeRun | crates/runtime/src/frame.rs:127-192 | consecutive free addresses and consecutive clear bits are the same thing, both ways |
| FrameRegions.NoRunWhenScarce | crates/runtime/src/frame.rs:139-144 | the early exit is right: with fewer free frames than asked for there is no run anywhere |
| FrameRegions.FindRun | crates/runtime/src/frame.rs:146-169 | the sliding window finds the lowest run of clear bits, and finds none only if none exists |
| FrameRegions.FrameRegion.constructor | crates/runtime/src/frame.rs:65-78 | exactly the aligned frames of the range are free |
| FrameRegions.FrameRegion.GetFreePageCount | crates/runtime/src/frame.rs:82-96 | the result is the number of free frames |
| FrameRegions.FrameRegion.AllocInPos | crates/runtime/src/frame.rs:102-110 | takes the lowest free frame of one word, or proves the word full and changes nothing |
| FrameRegions.FrameRegion.Alloc | crates/runtime/src/frame.rs:114-121 | takes the lowest free frame out of the free set; fails exactly when none is free |
| FrameRegions.FrameRegion.AllocMuch | crates/runtime/src/frame.rs:127-192 | takes the lowest run of consecutive free frames and nothing else; fails exactly when there is no run, changing nothing |
| FrameRegions.FrameRegion.MarkRun | crates/runtime/src/frame.rs:161-166 | marking a run takes exactly its frames out of the free set and returns their addresses in order |
| FrameRegions.FrameRegion.Dealloc | crates/runtime/src/frame.rs:198-202 | adds exactly the frame that holds the address to the free set |
| FrameAllocators.FrameAllocator.AddMemoryRegion | crates/runtime/src/frame.rs:220-222 | a disjoint region with the given bounds comes last, all its frames free, and the other regions are untouched |
| FrameAllocators.FrameAllocator.GetFreePageCount | crates/runtime/src/frame.rs:228-232 | the sum over regions is the number of free frames |
| FrameAllocators.FrameAllocator.Alloc | crates/runtime/src/frame.rs:236-238 | takes the lowest free frame of the first region that has one; fails exactly when none is free |
| FrameAllocators.FrameAllocator.AllocMuch | crates/runtime/src/frame.rs:245-253 | takes the lowest run of the first region that has one; fails exactly when no region has one |
| FrameAllocators.FrameAllocator.Dealloc | crates/runtime/src/frame.rs:257-264 | frees the frame in the one region that contains the address, and ignores an address outside every region |
| FrameAllocators.OneRegion | crates/runtime/src/frame.rs:257-264 | an address lies in at most one region |
| FrameAllocators.FrameAllocator.FrameAlloc | crates/runtime/src/frame.rs:302-304 | a tracker for the lowest free frame of the first region that has one, taken out of that region only; fails exactly when none is free, changing nothing |
| FrameAllocators.TookFirstUnique | crates/runtime/src/frame.rs:236-238 | which frame is taken is determined by the free frames |
| FrameAllocators.FrameAllocator.FrameAllocMuch | crates/runtime/src/frame.rs:307-309 | trackers for the lowest run of the first region that has one, taken out of that region only; fails exactly when no region has the run, and a run of none exactly when nothing is free |
| FrameAllocators.TakenUnique | crates/runtime/src/frame.rs:245-253 | which run is taken is determined by the free frames |
| FrameAllocators.FrameAllocator.DropTracker | crates/runtime/src/frame.rs:35-40 | dropping a tracker frees its frame, in its own region only |
| FrameAllocators.FrameAllocator.DropTrackers | crates/runtime/src/frame.rs:35-40 | dropping a list of trackers frees all their frames and no others, each in its own region |
| FrameAllocators.GiveBackTaken | crates/runtime/src/heap.rs:37-71 | a run that is taken and given back leaves every region as it was |
| LargeAllocators.LargeAllocator.Alloc | crates/runtime/src/heap.rs:37-71 | a block of consecutive frames at an aligned address, or everything as before; fails exactly when there is no run or the lowest run of the first region that has one starts off the alignment |
| LargeAllocators.MisalignedFails | crates/runtime/src/heap.rs:37-71 | in 66 free frames a request of 65 frames at an alignment of two pages fails although the second frame starts such a run |
| LargeAllocators.NeverMisaligned | crates/runtime/src/heap.rs:37-71 | an alignment that divides the page size is never missed |
| LargeAllocators.LargeAllocator.Dealloc | crates/runtime/src/heap.rs:73-123 | releases the block that contains the pointer whatever size is given, and nothing when no block contains it |
| LargeAllocators.ContainingBlockUnique | crates/runtime/src/heap.rs:93-108 | at most one live block contains an address, so the fallback search is not ambiguous |
| LargeAllocators.CountPages | crates/runtime/src/heap.rs:125-129 | the sum of the blocks' frame counts is the number of frames held |
| LargeAllocators.LargeAllocator.GetAllocationStats | crates/runtime/src/heap.rs:125-129 | the statistics are the number of blocks and of distinct frames they hold |
| FrameLedgers.FrameLedger.AllocOne | crates/runtime/src/frame.rs:302-304 | a frame handed out was neither held nor part of a block |
| FrameLedgers.FrameLedger.AllocMany | crates/runtime/src/frame.rs:307-309 | the same for a run, with the exact failure condition |
| FrameLedgers.FrameLedger.DropOne | crates/runtime/src/frame.rs:35-40 | a dropped frame is free again, and a frame not held is not freed |
| FrameLedgers.FrameLedger.LargeAlloc | crates/runtime/src/heap.rs:37-71 | every frame of a new block was free, so none has a tracker or belongs to another block |
| FrameLedgers.FrameLedger.LargeFree | crates/runtime/src/heap.rs:73-123 | the frames of the released block, and only those, become free |
| FrameLedgers.FrameLedger.Run | crates/runtime/src/frame.rs:198-265 | in every run free, held and block frames partition memory; each operation's event and the books after it are those its state before determines; a frame handed out at two steps was taken back at a step between them, and the other way round |
| FrameLedgers.FrameLedger.Step | crates/runtime/src/frame.rs:198-265 | one operation: what it hands out or takes back, the exact condition for doing nothing, and the books afterwards, region by region |
| FrameLedgers.SteppedUnique | crates/runtime/src/frame.rs:198-265 | the books before an operation determine its event and the books after it |
| FrameLedgers.RunUnique | crates/runtime/src/frame.rs:198-265 | the first books and the operations determine every event and all books of a run |
| FrameLedgers.NewLedger | crates/runtime/src/frame.rs:220-222 | a ledger over one region of memory, with every frame free and nothing held |
| FrameLedgers.AlternatesNext | crates/runtime/src/frame.rs:198-265 | handing out and taking back keep alternating for every frame |
| MemAreas.SubCovers | kernel/src/tasks/memset.rs:126-197 | after a cut exactly the addresses outside it stay covered, each by one piece |
| MemAreas.TracksFollowIff | kernel/src/tasks/memset.rs:133-159 | each piece has exactly the trackers of its own pages if and only if the cut does not split an area with pages at or above it |
| MemAreas.DroppedAreUnmappedIff | kernel/src/tasks/memset.rs:41-51 | after subtracting a range from the list, a page is out of the page table exactly when its tracker is gone, if and only if no area is split that has a page at or above the cut's end, or that has a page and starts where the cut starts |
| MemAreas.LeaksIff | kernel/src/tasks/memset.rs:126-197 | for one tracker of one area, exactly when it goes while its page stays mapped |
| MemAreas.SplitLosesTracker | kernel/src/tasks/memset.rs:133-159 | a three-page area whose middle page is cut out loses the tracker of its last page while the page stays mapped |
| MemAreas.HeadCutLosesTracker | kernel/src/tasks/memset.rs:41-51 | a three-page area whose first page is cut off loses that page's tracker while the page stays mapped |
| MemAreas.DisjointIff | kernel/src/tasks/memset.rs:107-112 | pairwise separate areas are areas without a common address |
| MemAreas.SubAreaCovers | kernel/src/tasks/memset.rs:41-51 | subtracting a range from the list leaves covered exactly what was covered outside the range |
| MemAreas.SubAreaDisjoint | kernel/src/tasks/memset.rs:41-51 | disjoint areas stay disjoint |
| MemAreas.PieceIsAlike | kernel/src/tasks/memset.rs:126-197 | every piece after a cut is of the kind of its area, with its file, inside it and with trackers of it only; an area the range does not overlap stays as it is |
| MemAreas.MemSet.Overlapping | kernel/src/tasks/memset.rs:37-39 | true exactly when some area overlaps |
| MemAreas.MemSet.SubtractArea | kernel/src/tasks/memset.rs:41-51 | the loop computes the subtraction and the list of unmapped pages, with the two laws above |
| MmapCalls.SubAreaOfLast | kernel/src/syscall/mm.rs:158-167 | subtracting the area pushed last gives back the list before the push |
| MmapCalls.CutForClears | kernel/src/syscall/mm.rs:74-96 | making room for a fixed mapping leaves its range free and everything else covered as before |
| MmapCalls.AddressSpace.GetLastFreeAddr | kernel/src/tasks/task.rs:639-654 | the least address above every area except stacks and every attached segment |
| MmapCalls.AddressSpace.PickAddr | kernel/src/syscall/mm.rs:48-58 | with hint 0 the address is the least from 0x2_0000_0000 on above every area except stacks and every segment, so any length from there is free |
| MmapCalls.AddressSpace.MakeRoom | kernel/src/syscall/mm.rs:74-96 | fails exactly when a mapping that is not fixed meets an area, changing nothing; otherwise the range is free afterwards |
| MmapCalls.AddressSpace.Install | kernel/src/syscall/mm.rs:152-168 | a failed file read leaves the list as before the new area |
| MmapCalls.AddressSpace.MapAt | kernel/src/syscall/mm.rs:74-168 | each outcome exactly when, and the list it leaves; a new area is of the kind asked for, over the range, with a tracker for each page exactly if it is shared or of a file; the alignment assertion (kernel/src/tasks/task.rs:149-155) fails exactly for a mapping that is filled at once at an unaligned address |
| MmapCalls.AddressSpace.Mmap | kernel/src/syscall/mm.rs:24-171 | keeps areas disjoint on every path; a success covers exactly the range more, by an area of the kind, file and trackers asked for; with hint 0 the address is the first free one and no overlap is met; each failure and the panic exactly as for `MapAt` |
| MmapCalls.AddressSpace.Munmap | kernel/src/syscall/mm.rs:173-180 | exactly the range is no longer covered |
| MmapCalls.AddressSpace.Run | kernel/src/syscall/mm.rs:24-180 | every sequence of calls answers and leaves the areas, call by call up to the first panic, as the areas before each call determine; areas stay nonempty and disjoint and stacks below the mapping area; with page-aligned hints and ranges every area stays page-aligned and no call panics |
| MmapCalls.UnalignedUnmapPanics | kernel/src/syscall/mm.rs:48-58 | after an unmapping that ends inside a page, a shared mapping with hint 0 panics |
| UserAllocs.SegmentSize | kernel/src/tasks/task.rs:219 | a segment has half of the pages that remain, at least one and at most sixteen, so the loop ends |
| UserAllocs.AppendRun | kernel/src/tasks/task.rs:212-245 | a further segment continues the pages of the run with frames not used before |
| UserAllocs.MapTracksIff | kernel/src/tasks/task.rs:321-347 | every page of the run is mapped to its tracker's frame and no other page changes |
| UserAllocs.UserTask.MapAll | kernel/src/tasks/task.rs:321-347 | the mapping loop computes that table |
| UserAllocs.UserTask.AllocSegmented | kernel/src/tasks/task.rs:212-245 | all the pages with distinct frames that were free, or every frame given back; succeeds exactly when each segment in turn finds a run |
| UserAllocs.UserTask.FrameRun | kernel/src/tasks/task.rs:291-305 | one run of frames; fails exactly when there is none |
| UserAllocs.UserTask.FrameAlloc | kernel/src/tasks/task.rs:157-276 | all the trackers at consecutive pages, with distinct frames that were free, mapped, and in one new area over exactly those pages, or at the end of the first stack area, or in a new one; or task and free frames as before; fails exactly without a run and, for a mapping of several pages, without the segments; a panic exactly for no pages, or at an unaligned address once the frames are there |
| EagerFork.Isolation | kernel/src/tasks/task.rs:472-564 | over any run no process changes another's private pages or which shared objects it names |
| EagerFork.ForkSnapshot | kernel/src/tasks/task.rs:472-564 | a child keeps the parent's private pages as they were at the fork and names the parent's shared objects, whatever anyone does later |
| EagerFork.SharedStoreIsSeen | kernel/src/tasks/task.rs:531-545 | a store to a shared page is read by every process that names the object |
| CowMachines.WritableIsSole | kernel/src/user/mod.rs:54-72 | a writable private page's frame has one tracker in the whole system |
| CowMachines.CopyStep | kernel/src/user/mod.rs:54-72 | replacing a shared frame by a copy keeps the invariant and changes nothing a process can see |
| CowMachines.FillStep | kernel/src/user/mod.rs:75-113 | first touch keeps the invariant and is the eager machine's fill |
| CowMachines.LoadStep | kernel/src/user/mod.rs:42-122 | the byte read through the page table is the eager machine's |
| CowMachines.RefillForgets | kernel/src/user/mod.rs:75-113 | filling a page that has a tracker already makes a load read 0, which is the eager machine's byte if and only if that is 0 |
| CowMachines.StoreStep | kernel/src/user/mod.rs:42-122 | a store through a writable entry is the eager machine's store: no other page sees it unless it names the same object |
| CowMachines.ForkStep | kernel/src/tasks/task.rs:492-545 | sharing frames read-only keeps the invariant and is the eager machine's copying fork |
| CowMachines.DropStep | crates/runtime/src/frame.rs:35-40 | dropping trackers, clearing and freeing frames whose last tracker went, is the eager machine's unmapping |
| CowMachines.ExitStep | kernel/src/tasks/task.rs:889-895 | the same for all pages of a process |
| CowAreas.SubDescribes | kernel/src/tasks/memset.rs:41-51 | after a cut that loses no tracker the area list still lists exactly the trackers of the remaining pages |
| CowAreas.UnmappedPages | kernel/src/tasks/memset.rs:126-197 | the pages taken out of the page table by such a cut are exactly the tracked pages in the range |
| CowAreas.FlattenDescribes | kernel/src/tasks/task.rs:531-545 | walking the areas visits each tracked page once, with its tracker |
| CowLinks.ForkLinks | kernel/src/tasks/task.rs:492-545 | area lists and page tables of parent and child match the forked machine |
| CowLinks.UnmapBreaks | kernel/src/tasks/memset.rs:126-197 | after a cut off a page boundary, or one that loses trackers, no machine with the invariant fits the processes |
| CowLinks.FillManyStep | kernel/src/tasks/task.rs:278-350 | mapping a run page by page is that many fills of the eager machine |
| CowLinks.SoleTrack | kernel/src/user/mod.rs:54-72 | two trackers of a frame mapped writable for a private page are the same tracker |
| CowSteps.ExplainsUnique | kernel/src/user/mod.rs:42-122 | the state before an operation determines its answer, what it logs, and the processes, memory, counts and free frames after it |
| CowSteps.RunLogUnique | kernel/src/tasks/task.rs:472-564 | the first state and the operations determine every answer, every state and every log entry of a run |
| CowKernels.FindArea | kernel/src/user/mod.rs:43 | the first area that contains the address, if any |
| CowKernels.FindTrack | kernel/src/user/mod.rs:45 | a tracker of the page, if any |
| CowKernels.ShareTracks | kernel/src/tasks/task.rs:531-545 | the fork's loop maps every page in both tables and counts one more reference to each frame once |
| CowKernels.CowKernel.CopyPage | kernel/src/user/mod.rs:54-72 | the copy branch leaves the page with its own writable copy, the other counts and pages as they were, and nothing visible changes |
| CowKernels.CowKernel.FillPage | kernel/src/user/mod.rs:89-113 | the first-touch branch gives the page its content and logs exactly that |
| CowKernels.CowKernel.FaultTracked | kernel/src/user/mod.rs:47-74 | the tracked branch resolves the fault without anything visible, by a copy exactly if others have the frame; it fails exactly when it must copy and no frame is free |
| CowKernels.CowKernel.FaultUntracked | kernel/src/user/mod.rs:75-113 | fails exactly with fewer than ten free frames, changing nothing; otherwise the page gets its file's bytes or zeros |
| CowKernels.CowKernel.Fault | kernel/src/user/mod.rs:42-122 | the answer as a function of the state before; after a resolved fault the page is writable; a failed one changes nothing; the whole state after, where only a first touch is visible |
| CowKernels.CowKernel.Reach | kernel/src/user/mod.rs:42-122 | an access faults exactly when its page is not mapped for it; it fails exactly outside every area, without a tracker and with fewer than ten free frames, or when it must copy and no frame is free |
| CowKernels.CowKernel.Load | kernel/src/user/mod.rs:42-122 | the value read is the eager machine's; fails exactly as `Reach` does, changing nothing; otherwise the state is that after the fault |
| CowKernels.CowKernel.Store | kernel/src/user/mod.rs:42-122 | the store is the eager machine's; fails exactly as `Reach` does, changing nothing; otherwise only the byte differs from the state after the fault |
| CowKernels.CowKernel.Fork | kernel/src/tasks/task.rs:472-564 | the child has the parent's areas, both map every tracked page, private ones read-only, each frame has one reference more, and nothing else changes; it is the eager machine's fork |
| CowKernels.CowKernel.DropTrackers | crates/runtime/src/frame.rs:35-40 | each count goes down by one, and frames whose count reaches zero are cleared and free in their own region |
| CowKernels.CowKernel.Unmap | kernel/src/syscall/mm.rs:173-180 | for every range: the whole state after the cut; it is the eager machine's unmapping and keeps the invariant if and only if areas are divided at page boundaries only and no split area has a page at or above the cut |
| CowKernels.CowKernel.Exit | kernel/src/tasks/task.rs:844-911 | the process's pages go, its frames are released, and no other process changes |
| CowKernels.CowKernel.MapLazy | kernel/src/syscall/mm.rs:139-149 | an anonymous private mapping adds one area of the kind asked for without trackers, which covers exactly the range more, and nothing visible; the invariant is kept if and only if the address is page-aligned |
| CowKernels.CowKernel.Populate | kernel/src/tasks/task.rs:321-347 | a run of frames becomes an area of zero pages, page by page |
| CowKernels.CowKernel.MapFrames | kernel/src/tasks/task.rs:278-350 | all the zero pages or nothing; fails exactly when there is no run of frames; the whole state after |
| CowKernels.CowKernel.WritableIsExclusive | kernel/src/user/mod.rs:47-72 | in every reachable state a writable private page's frame has one tracker among all processes |
| CowKernels.CowKernel.HeldIsNotFree | crates/runtime/src/frame.rs:35-40 | a frame with a live tracker is not free |
| CowKernels.CowKernel.Run | kernel/src/tasks/task.rs:472-564 | in every run, up to the first operation that breaks the invariant: an operation is ignored if and only if it is not legal in the state before it; each answers, logs and leaves of processes, memory, counts and free frames exactly what it and that state determine; before each the log so far replays on the eager machine to the machine the kernel stands for; every byte loaded is the one that machine has there; the invariant holds at the end if and only if no operation breaks it |
| CowKernels.CowKernel.Step | kernel/src/user/mod.rs:42-122 | one legal operation: its log entries, its result, the whole state after it, and the exact condition for the invariant |
| CowKernels.HeadUnmapBreaks | kernel/src/syscall/mm.rs:173-180 | a new kernel that maps three pages and unmaps the first has lost its invariant |
| CowKernels.UnalignedAreasForget | kernel/src/user/mod.rs:42-113 | a new kernel maps two areas that meet inside a page; from there a store of 7 through the first, a fork and a store through the second make a load of the first byte yield 0 |
| CowLaws.AccessKeeps | kernel/src/user/mod.rs:42-122 | a load or store changes areas only in their trackers and only of the process that makes it; one that fails changes nothing |
| CowLaws.StoreThenLoad | kernel/src/user/mod.rs:42-122 | a load after a store to the same address yields the byte stored |
| CowLaws.StoreElsewhere | kernel/src/user/mod.rs:42-122 | a store leaves every other byte that the process could load as it was |
| CowLaws.ForkEntries | kernel/src/tasks/task.rs:531-545 | after a fork parent and child map each tracked page to its frame, writable only in a shared area |
| CowLaws.ForkThenStore | kernel/src/tasks/task.rs:472-564 | after a fork a store of the parent or the child is seen by the other if and only if the area is shared |
| CowLaws.LazyReads | kernel/src/syscall/mm.rs:139-149 | a load anywhere in a new lazy mapping, with ten frames free, yields 0, or the bytes of its file and zeros after them |
| CowLaws.RunIs | kernel/src/tasks/task.rs:278-350 | a populated mapping is one new last area of the kind and range asked for, a tracker with a free frame for each page, mapped with the permissions asked for; no other page, area, process or memory changes |
| CowLaws.RunReads | kernel/src/tasks/task.rs:278-350 | a load anywhere in a new populated mapping that is readable yields 0 |
| CowLaws.UnmapThenLoad | kernel/src/syscall/mm.rs:173-180 | after a cut that keeps the kernel sound a load from the range fails, and a byte loaded before from a page outside it is loaded again |
| ByteStrings.WordRoundTrip | kernel/src/tasks/task.rs:628-637 | a word written in little-endian order reads back |
| ByteStrings.PlaceValue | kernel/src/tasks/task.rs:628-637 | the lowest byte of a word comes first: the byte at place i counts 256 to the power i |
| ByteStrings.CStringOfTerminated | kernel/src/tasks/task.rs:615-626 | bytes after the terminating zero do not matter |
| InitStacks.ParseReads | kernel/src/tasks/elf.rs:168-184 | the words of the table parse to the count, the two pointer lists and the auxiliary vector |
| InitStacks.AuxPushesReversed | kernel/src/tasks/elf.rs:170-174 | pushing values before keys downwards lays out keys before values upwards |
| InitStacks.ImageParses | kernel/src/tasks/elf.rs:98-185 | table and strings together parse to the arguments and environment as strings |
| InitStacks.TaskStack.PushArr | kernel/src/tasks/task.rs:615-626 | what is pushed reads as the string at the returned address, nothing above changes, the pointer stays word-aligned |
| InitStacks.TaskStack.PushStr | kernel/src/tasks/task.rs:611-613 | the same for a string |
| InitStacks.TaskStack.PushNum | kernel/src/tasks/task.rs:628-637 | the word lies below what was pushed before |
| InitStacks.TaskStack.PushStrings | kernel/src/tasks/elf.rs:141-150 | each returned address leads to its string |
| InitStacks.TaskStack.PushTexts | kernel/src/tasks/elf.rs:133-155 | environment, arguments, seed, platform name and path are all in place at the end |
| InitStacks.TaskStack.PushTable | kernel/src/tasks/elf.rs:168-184 | the words lie in the order of the System V ABI |
| InitStacks.TaskStack.InitTaskStack | kernel/src/tasks/elf.rs:98-185 | reading the finished stack upwards gives the count, arguments, environment and auxiliary vector: key by key the program header table, its entry size and count, the page size, the entry point, the four ids and the secure flag 0, and pointers that lead to the seed, the name "riscv" and the path; the stack pointer is word-aligned, and 16-byte aligned if and only if the number of words pushed is even |
| InitStacks.BusyboxMisaligned | kernel/src/tasks/elf.rs:98-185 | the stack of busybox without arguments, with the four strings of the environment, starts off a 16-byte boundary |
| RamFiles.FlatAt | filesystem/ramfs/src/lib.rs:288-326 | page by page access is access to the flat bytes |
| RamFiles.OverlayIsWrite | filesystem/ramfs/src/lib.rs:384-418 | writing over pages that are zero past the end is writing into the flat file, gap included |
| RamFiles.ClearIsResize | filesystem/ramfs/src/lib.rs:420-452 | clearing past the new size and adding zero pages is cutting or extending the flat file |
| RamFiles.RamFile.CopyOut | filesystem/ramfs/src/lib.rs:303-322 | the copy loop yields the flat bytes and touches nothing after them |
| RamFiles.RamFile.ReadAt | filesystem/ramfs/src/lib.rs:288-326 | the bytes of the flat file at the offset, as many as there are |
| RamFiles.RamFile.Grow | filesystem/ramfs/src/lib.rs:340-368 | adds zero pages up to the target or until frames run out |
| RamFiles.RamFile.Put | filesystem/ramfs/src/lib.rs:384-406 | the copy loop overwrites exactly the range of the flat bytes |
| RamFiles.RamFile.WriteAt | filesystem/ramfs/src/lib.rs:328-418 | a write into the flat file of exactly as much as fits; fails exactly when it needs pages and none are left; the file stays sound if and only if frames reach the offset |
| RamFiles.RamFile.ClearBeyond | filesystem/ramfs/src/lib.rs:431-439 | clears exactly the bytes from the size on |
| RamFiles.RamFile.Truncate | filesystem/ramfs/src/lib.rs:420-452 | resizes the flat file; sound afterwards if and only if it succeeds, which is exactly when frames suffice |
| RamFiles.RamFile.Run | filesystem/ramfs/src/lib.rs:288-452 | every run of reads, writes and truncations has, operation by operation, the results of the same run on a flat file, and its contents; it goes on up to the first operation that breaks the file, and the file is sound if and only if there is none |
| RamFiles.RamFile.Step | filesystem/ramfs/src/lib.rs:288-452 | one operation: result, contents and number of pages as on the flat file, with the exact condition for soundness |
| RamFiles.WriteBreaks | filesystem/ramfs/src/lib.rs:328-418 | a write two pages into an empty file with one frame left leaves a length beyond the pages |
| RamFiles.TruncateBreaks | filesystem/ramfs/src/lib.rs:420-452 | so does a truncation of an empty file |
| Futexes.FutexTable.Wait | kernel/src/syscall/task.rs:435-454 | queues the task last exactly when the word has the expected value |
| Futexes.FutexTable.Poll | kernel/src/tasks/async_ops.rs:72-93 | goes on exactly while queued without a signal; a signal takes out this task and no other |
| Futexes.FutexTable.Wake | kernel/src/tasks/async_ops.rs:112-124 | releases the oldest entries of the queue, at most the number asked for, and says how many, also when an expired wait has left an entry |
| Futexes.FutexTable.Requeue | kernel/src/tasks/async_ops.rs:126-152 | releases the oldest, moves the next in order, and loses nobody; a panic exactly when more are asked for than wait, after the release if the release had enough |
| Futexes.FutexTable.TimeOut | kernel/src/syscall/task.rs:465-468 | an expired wait keeps the invariant if and only if the task was not queued any more |
| Futexes.FutexTable.Run | kernel/src/tasks/async_ops.rs:62-152 | in every run no task is queued twice, only waiting tasks are queued, and queues are in order of arrival; each operation answers and leaves the queues as the state before it determines |
| Futexes.FutexTable.Step | kernel/src/tasks/async_ops.rs:62-152 | one operation: its answer and the queues after it |
| Futexes.TimeOutBreaks | kernel/src/syscall/task.rs:465-468 | after a wait that expires the task is still queued |
| Futexes.StaleEntryTakesWake | kernel/src/syscall/task.rs:465-468 | after an expired wait a wake of one task is spent on the entry it left, and the task that does wait stays queued |
| Futexes.RequeuePanics | kernel/src/tasks/async_ops.rs:126-152 | one waiter, one to release and one to move: a panic with the waiter released |
| Futexes.DrainFront | kernel/src/tasks/async_ops.rs:112-124 | draining the front takes exactly those tasks out, each older than all that stay |
| Futexes.MoveTasks | kernel/src/tasks/async_ops.rs:126-152 | moving tasks between queues takes exactly the released ones out, also when both addresses are the same |
| Futexes.ExtendQueue | kernel/src/syscall/task.rs:439-450 | arrivals at the end keep tasks unique and queues ordered |
| Signals.LowestBit | kernel/src/tasks/signal.rs:21-28 | the lowest pending signal, if any |
| Signals.Num | crates/signal/src/lib.rs:126-140 | the number of a single signal undoes `from_num` exactly for 1 to 64, and 0 means none |
| Signals.RealTimeIndex | crates/signal/src/lib.rs:142-150 | of the signals 1 to 64, signal n has slot n - 32 if it is at least 34, otherwise none |
| Signals.TakeOne | kernel/src/user/entry.rs:53-61 | clearing the bit and setting it again for a queued send takes exactly one waiting send |
| Signals.AddOne | kernel/src/syscall/task.rs:521-541 | setting the bit or counting in the slot adds exactly one waiting send of a real-time signal |
| Signals.TaskSignals.Send | kernel/src/syscall/task.rs:521-589 | a real-time signal is counted, another merges with a pending one |
| Signals.SentTwice | kernel/src/syscall/task.rs:521-589 | of two sends of a signal that is not pending both are handled if it is 34 to 64, otherwise one |
| Signals.TaskSignals.Kill | kernel/src/syscall/task.rs:700 | sends stay accounted for if and only if it does not repeat a pending real-time signal |
| Signals.TaskSignals.SetMask | crates/signal/src/lib.rs:182-188 | which signals are masked after blocking, unblocking or setting |
| Signals.TaskSignals.Start | kernel/src/user/entry.rs:39-52 | the lowest unmasked pending signal is handled, under the mask of its action; none exactly when all are masked |
| Signals.TaskSignals.Finish | kernel/src/user/entry.rs:53-61 | one send is delivered; nothing is dropped if and only if the signal is real-time or was not sent while its handler ran; the earlier mask is back if and only if a user handler came to its end |
| Signals.TaskSignals.CheckSignal | kernel/src/user/entry.rs:39-66 | with handlers that send nothing the loop ends, having delivered every waiting send of every unmasked signal and none of a masked one |
| Signals.TaskSignals.Run | kernel/src/user/entry.rs:39-111 | in every interleaving of sends, mask changes and handlers that start, end or are dropped, each operation does what it has to; the accounts grow by what the run did; sends of a real-time signal equal deliveries plus waiting; starts equal deliveries, plus one while the handler runs, if and only if no handler of the signal was dropped |
| Signals.TaskSignals.Step | kernel/src/user/entry.rs:39-111 | one operation: the state after it and what it adds to the accounts |
| Signals.TaskSignals.Abort | kernel/src/user/entry.rs:83-93 | a handler dropped by the race with a system call delivers nothing and loses nothing, and its mask stays in force |
| Signals.HandlerStartsAgain | kernel/src/user/entry.rs:83-93 | it starts again for the same send |
| Signals.DroppedMaskStays | kernel/src/user/signal.rs:171-174 | after a dropped handler the task has the mask of the handler's action |
| Signals.KilledTwiceDeliveredOnce | kernel/src/syscall/task.rs:700 | of two real-time signals sent with `kill` one is waiting |
| Signals.NullSignalIsSent | crates/signal/src/lib.rs:126-128 | signal 0 sends signal 64 |
| Signals.StandardSignalDropped | kernel/src/user/entry.rs:39-66 | a standard signal sent twice, the second time inside its handler, is delivered once and no longer pending |
| MessageQueues.Position | kernel/src/syscall/shm.rs:76-92 | the selection POSIX asks of `msgrcv`, in all modes, if and only if the least 64-bit type does not overlook the queue |
| MessageQueues.PicksIsPosixIff | kernel/src/syscall/shm.rs:83-91 | when the code's choice is POSIX's: always, except that the least type, whose negation wraps, finds only messages of that very type |
| MessageQueues.PickedIsOldest | kernel/src/syscall/shm.rs:76-92 | whatever is taken is the oldest message of its type |
| MessageQueues.TakeKeepsOrder | kernel/src/syscall/shm.rs:94-100 | taking it out keeps each type a queue |
| MessageQueues.MessageQueue.SendMessage | kernel/src/syscall/shm.rs:61-74 | queues last exactly when both limits allow it |
| MessageQueues.MessageQueue.ReceiveMessage | kernel/src/syscall/shm.rs:76-101 | takes out the selected message, which heads the queue of its type; nothing exactly when none is wanted |
| MessageQueues.MessageQueue.MsgSnd | kernel/src/syscall/shm.rs:326-374 | the message is queued if and only if there was room, whatever is reported |
| MessageQueues.MessageQueue.MsgRcv | kernel/src/syscall/shm.rs:376-427 | the message taken is the one picked for the type; it reaches the caller whole if and only if the address is valid and it fits, and is taken out either way |
| MessageQueues.MessageQueue.Run | kernel/src/syscall/shm.rs:61-101 | in every run the limits hold, the byte count is right, each operation answers and leaves the queue as the queue before it determines, and each type is delivered in the order it was accepted |
| MessageQueues.MessageQueue.Step | kernel/src/syscall/shm.rs:326-427 | one operation: its answer and the queue after it |
| MessageQueues.SendIsLost | kernel/src/syscall/shm.rs:356-369 | a send to a full queue that reports success and queues nothing |
| MessageQueues.ReceiveLoses | kernel/src/syscall/shm.rs:376-427 | a message too long for the buffer is reported as an error and gone |
| MessageQueues.LeastTypeOverlooks | kernel/src/syscall/shm.rs:83-91 | a request for the least type finds nothing in a queue with a message |
| Pipes.Pipe.WriteAt | filesystem/fs/src/pipe.rs:17-43 | all or nothing; blocks exactly when more than 16 bytes do not fit; a queue within 64 KiB stays within them if and only if the write is not a small one that passes them |
| Pipes.Pipe.ReadAt | filesystem/fs/src/pipe.rs:68-105 | the oldest bytes; end of file exactly when all senders are gone and everything was read; blocks exactly when empty with a sender left |
| Pipes.Pipe.Run | filesystem/fs/src/pipe.rs:17-143 | in every run each operation answers as the queue before it determines, and bytes read and bytes queued are the bytes accepted; after the last sender nothing is accepted and end of file stays |
| Pipes.Pipe.Step | filesystem/fs/src/pipe.rs:17-143 | one operation: its answer, the queue after it and the bytes accepted or delivered |
| Pipes.SmallWritesPileUp | filesystem/fs/src/pipe.rs:28-32 | small writes queue any number of bytes |
| PathBufs.JoinedNormal | filesystem/fs/src/pathbuf.rs:36-51 | a joined path has only components free of slashes and other than "", "." and ".." |
| PathBufs.ParsePrint | filesystem/fs/src/pathbuf.rs:31-55 | reading a printed path gives the path back |
| PathBufs.PrintInjective | filesystem/fs/src/pathbuf.rs:53-55 | different paths print differently |
| PathBufs.PrintsAs | filesystem/fs/src/pathbuf.rs:53-55 | a path prints as its components, each after one slash, and the root as a slash |
| PathBufs.JoinTwice | filesystem/fs/src/pathbuf.rs:36-51 | joining a nonempty text and then a relative one is joining both with a slash between |
| PathBufs.JoinTwiceEmpty | filesystem/fs/src/pathbuf.rs:37-41 | for an empty first text, exactly when both agree |
| PathBufs.DotDotCancels | filesystem/fs/src/pathbuf.rs:42-48 | a name and ".." after it cancel; "." and doubled slashes add nothing; a name adds itself |
| PathBufs.JoinOne | filesystem/fs/src/pathbuf.rs:36-51 | joining one piece from any path: a name goes below, ".." to the parent and at the root nowhere, "." and "" stay, and a leading slash starts at the root |
| PathBufs.Join | filesystem/fs/src/pathbuf.rs:36-51 | the loop computes that path |
| PathBufs.TrimStart | filesystem/fs/src/pathbuf.rs:74-84 | target and rest make up the path exactly when the path starts with the target |
| Mounts.LookupIsDeepestIff | filesystem/fs/src/dentry.rs:33-41 | newest-first lookup is longest-prefix lookup for every path if and only if no mount point is hidden by a later mount of an ancestor |
| Mounts.NewestIsDeepest | filesystem/fs/src/dentry.rs:33-41 | the same for one path |
| Mounts.MountKeepsIff | filesystem/fs/src/dentry.rs:49-54 | mounting keeps lookup right if and only if nothing is mounted strictly below |
| Mounts.UmountKeeps | filesystem/fs/src/dentry.rs:61-64 | unmounting keeps lookup right and ancestors before descendants |
| Mounts.RootIff | filesystem/fs/src/dentry.rs:33-41 | lookup succeeds for every path if and only if the root is mounted |
| Mounts.InitialAncestorsFirst | filesystem/fs/src/lib.rs:54-67 | the initial mounts are /, /dev, /tmp, /dev/shm, /home, /var and /proc, in order, and every path is found |
| Mounts.MountTable.GetMounted | filesystem/fs/src/dentry.rs:33-41 | the newest mount at or above the path; mount path and remainder make up the path; a panic exactly when there is none |
| Mounts.MountTable.MountFs | filesystem/fs/src/dentry.rs:49-54 | the mount is last, at the normal form of its text |
| Mounts.MountTable.Umount | filesystem/fs/src/dentry.rs:61-64 | exactly the mounts at the path go |
| Mounts.MountHides | filesystem/fs/src/dentry.rs:49-54 | mounting the root again hides /dev |
| Getdents.PutRecord | filesystem/fs/src/file.rs:133-146 | the bytes of one record, and nothing outside it |
| Getdents.RecordsReadIff | filesystem/fs/src/file.rs:126-148 | following the record lengths reads the names back if and only if each is free of zero bytes and its record length fits 16 bits |
| Getdents.Directory.List | filesystem/fs/src/file.rs:97-153 | the longest run of entries the buffer and the cap of 50 allow, as readable records; never past the buffer; 0 exactly at the end, when the next entry does not fit, or when the directory cannot be read; the offset advances by the run if and only if something was written or it was 0 |
| Getdents.Directory.ListAll | filesystem/fs/src/file.rs:97-153 | calls with buffers that hold an entry reach the first 0 within one call per entry and one more; legal names are listed once each and in order before it |
| Getdents.ShortBufferStartsOver | filesystem/fs/src/file.rs:97-153 | a buffer too small for the next entry reads as the end, and the next call lists the first entry again |

## Left out

- CowKernels.CowKernel.Fault: covers faults inside an area; the address heuristics for faults outside every area (kernel/src/user/mod.rs:123-399) are not modelled.
- CowKernels.CowKernel.Fork: leaves out attached System V segments, file descriptors and signal state; threads of one address space are one process.
- CowKernels.CowKernel.MapFrames: fills with zeros and makes a new area; reading a file into it is `MmapCalls`, the stack area that `map_frames` extends is `UserAllocs`, and the panic at an unaligned address is `MmapCalls`.
- CowKernels.CowKernel.constructor: assumes free memory is zero at the start, as `FrameTracker::drop` keeps it afterwards.
- FrameAllocators.FrameAllocator.DropTracker: clearing the frame before it is freed is `CowKernels.CowKernel.DropTrackers`, where frames have contents.
- FrameAllocators.FrameAllocator.DropTrackers: as `DropTracker`.
- MmapCalls.AddressSpace.Mmap: does not model write-back of shared files, file offsets after a cut, the LoongArch address limit, or overflow of the address arithmetic.
- InitStacks.TaskStack.InitTaskStack: assumes the stack frames are mapped and the strings and tables fit, and takes the environment the caller looks up as an input.
- UserAllocs.UserTask.FrameAlloc: the permissions a page is mapped with are in `CowKernels`, where page tables have them.
- RamFiles.RamFile.WriteAt: the allocator is the number of frames it has left.
- Futexes.FutexTable.Run: untimed waits only, since an expired wait breaks what the others keep.
- Signals.TaskSignals.Run: sends through `tkill` and `tgkill` only; `kill` is `TaskSignals.Kill`.
- Pipes.Pipe.Run: leaves out `poll`.
- Page-table internals, the translation buffer, trap frames and signal trampolines.
- Growing the heap with `sbrk`, and the cache of task templates.
- The default actions of signals; when a user handler gives up before it runs is an input.
- Semaphores, shared-memory segments and the global tables of message queues.
- RAM directories, procfs, devfs, and the ext4 and FAT shims.
- Drivers, sockets, timers, the buddy heap, ELF parsing and relocation, syscall dispatch and stubs, and the initial process.
