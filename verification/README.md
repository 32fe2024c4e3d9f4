# Contur, verified

A Dafny model of five subsystems of the Contur kernel simulator, with proofs of what they promise
over whole runs. Check it with `dafny verify dfyconfig.toml`.

- **SimpleFS** (`fs_*.dfy`). Files are lists of disk blocks over a first-fit bitmap, names form a tree
  of inode maps. The class with its copying and resizing loops refines a specification in which a file
  is a flat byte string. The storage invariant says that the allocated blocks are exactly the disjoint
  union of all block lists, that free blocks are zero and that bytes past a file's size are zero. The
  laws (tree, paths, reads and writes, conservation, and when each operation succeeds and what it then
  leaves behind) are proved of the specification, and so hold of every run of the class.
- **Paging** (`mem_*.dfy`). Pages move between frames and swap under FIFO, LRU or Clock replacement.
  `Pages` gives each process its page contents wherever they are; every operation is stated by what it
  does to `Pages`. The policies may hold stale and duplicate frames; what is kept is that they track
  every owned frame and only frames that exist. A ghost history of loads, accesses and victims says
  what LRU and FIFO promise of the order of victims.
- **DispatcherPool** (`pool_*.dfy`). The token and barrier protocol as a step system: what a thread does
  between two accesses to shared state is one step, and steps interleave in any order. The guards of
  the steps are the predicates the threads wait for.
- **Synchronisation** (`sync_*.dfy`). The two depth-first searches on arbitrary finite graphs with
  arbitrary iteration order, the detector's tables described by the history of calls, the Banker's
  check, and the mutex and semaphore with hand-off and priority inheritance, whose ownership, depth and
  line are also told by the calls alone.
- **Scheduling** (`proc_pcb.dfy`, `sched_*.dfy`, `disp_*.dfy`). Control blocks, ready lanes, running slots
  and the blocked list; when each scheduler operation succeeds and who then is where; the dispatcher
  over scheduler and virtual memory; Round Robin fairness; whole runs of one dispatcher with any engine
  behaviour.

State that the program updates in place is a class whose fields are sequences and maps; each method
is proved against a function on values, and the laws are lemmas about those functions. Assumptions
of whole-system results: the memory management unit is the only writer of memory, one coordinator
posts jobs to the pool and lanes share no state, processes are created with new images, and one
dispatcher drives a scheduler.

Results that differ from what one might expect of the code:

- Clock can evict a referenced frame while an unreferenced one is loaded, when a stale duplicate entry
  precedes it (`SecondChance` gives the exact condition).
- `onRelease` withdraws no wait-for edge and `onAcquire` adds none, so the detector can report a
  circular wait although the awaited resource is free (`StaleEdgesCanCloseACircle`) and miss two
  processes that block each other (`LateOwnersAreMissed`). `EdgeIsCurrentIff`, `CircleIsCurrentIff`
  and `CurrentCircleIsReportedIff` give the exact condition for an edge and for a circle.
- Beyond 32 bits the Banker's check can refuse a safe state, but never accepts an unsafe one
  (`WrapAroundRefusesSafeState`, `GreedyIsRight`).
- Under FIFO a stale entry can make the unit refuse an allocation that would fit
  (`RefusedThoughItFits`); `FifoRoom` is the exact condition. Under LRU this does not happen.
- `enqueueToLane` on a blocked process and `terminate` on a ready or blocked one break the queues
  (`EnqueueKeepsPlacedIff`, `TerminateKeepsPlacedIff`); the dispatcher does neither.
- A refused semaphore release by a holder loses a unit, which needs an earlier release by a non-holder
  (`UnitsAfter`).
- The state diagram in `src/include/contur/process/state.h` draws an arrow from Blocked to Running;
  the transition function has none, and the model follows the function.

## Model

| member | source | states |
|---|---|---|
| `PathNames.SplitPath` | src/contur/fs/simple_fs.cpp:24-65 | the scanning loop accepts exactly absolute paths without `.` or `..` and returns their components |
| `PathNames.TokensAreSegments` | src/contur/fs/simple_fs.cpp:24-65 | every component is non-empty and slash-free |
| `PathNames.SplitUndoesPrint` | src/contur/fs/simple_fs.cpp:24-65 | splitting the printed form of any list of valid names gives the list back |
| `PathNames.SplitIsCanonical` | src/contur/fs/simple_fs.cpp:24-65 | every accepted path means the same as the printed form of its components, all of them valid names |
| `PathNames.ExtraSlashesDoNotMatter` | src/contur/fs/simple_fs.cpp:24-65 | repeated and trailing slashes never change what a path means |
| `BlockAllocation.BlockAllocator.Allocate` | src/contur/fs/block_allocator.cpp:29-49 | takes the first free block, fails exactly when none is free, and keeps the cached count equal to the free bits |
| `BlockAllocation.BlockAllocator.Free` | src/contur/fs/block_allocator.cpp:51-66 | gives back one allocated block; fails exactly for a block out of range or already free, and then changes nothing |
| `Descriptors.FileDescriptorTable.Open` | src/contur/fs/file_descriptor.cpp:24-29 | hands out a handle never used before; all others keep their state |
| `Descriptors.FileDescriptorTable.Close` | src/contur/fs/file_descriptor.cpp:31-40 | forgets exactly that handle; unknown handles are refused |
| `Descriptors.FileDescriptorTable.Set` | src/contur/fs/file_descriptor.cpp:53-63 | replaces the state of exactly one open handle |
| `SimpleFileSystem.SimpleFS.constructor` | src/contur/fs/simple_fs.cpp:84-97 | an empty tree over a free, zeroed disk that satisfies the storage invariant |
| `SimpleFileSystem.SimpleFS.ResolvePath` | src/contur/fs/simple_fs.cpp:99-126 | the walk through the inode maps is resolution in the abstract tree |
| `SimpleFileSystem.SimpleFS.ResolveParent` | src/contur/fs/simple_fs.cpp:128-161 | the walk to the parent is parent resolution in the abstract tree, with the same errors |
| `SimpleFileSystem.SimpleFS.EnsureFileBlocks` | src/contur/fs/simple_fs.cpp:163-190 | grows or trims one block list and keeps ownership disjoint, free blocks zero and bytes past the size zero; on failure blocks already taken stay with the file but no byte changes |
| `SimpleFileSystem.SimpleFS.CopyIn` | src/contur/fs/simple_fs.cpp:206-222 | the chunk loop over div/mod block addresses lays the data over the flat byte string at the offset |
| `SimpleFileSystem.SimpleFS.WriteToNode` | src/contur/fs/simple_fs.cpp:192-226 | a write is an overwrite of the flat byte string, extended and zero-filled as needed, or an out-of-memory failure that changes no byte |
| `SimpleFileSystem.SimpleFS.ReadFromNode` | src/contur/fs/simple_fs.cpp:228-262 | a read returns the slice of the flat byte string at the offset and leaves the rest of the buffer alone |
| `SimpleFileSystem.SimpleFS.TruncateNode` | src/contur/fs/simple_fs.cpp:340-349 | truncation empties the file and frees and zeroes its blocks |
| `SimpleFileSystem.SimpleFS.FindOrCreate` | src/contur/fs/simple_fs.cpp:278-327 | an existing node, or with Create a new file under the resolved parent; refines the abstract operation |
| `SimpleFileSystem.SimpleFS.Open` | src/contur/fs/simple_fs.cpp:278-357 | refines the abstract open: create, access modes, truncate, append, and every error |
| `SimpleFileSystem.SimpleFS.Read` | src/contur/fs/simple_fs.cpp:359-393 | refines the abstract read and moves only that descriptor's offset |
| `SimpleFileSystem.SimpleFS.Write` | src/contur/fs/simple_fs.cpp:395-434 | refines the abstract write: append starts at the end, the offset moves by what was written |
| `SimpleFileSystem.SimpleFS.Close` | src/contur/fs/simple_fs.cpp:436-439 | refines the abstract close |
| `SimpleFileSystem.SimpleFS.Mkdir` | src/contur/fs/simple_fs.cpp:441-477 | refines the abstract directory creation with all its errors |
| `SimpleFileSystem.SimpleFS.FreeBlocks` | src/contur/fs/simple_fs.cpp:518-529 | freeing and zeroing the blocks of a removed file never fails |
| `SimpleFileSystem.SimpleFS.Remove` | src/contur/fs/simple_fs.cpp:479-537 | refines the abstract removal: paths that do not resolve and non-empty directories are refused, open descriptors are no obstacle |
| `SimpleFileSystem.SimpleFS.RunAll` | src/contur/fs/simple_fs.cpp:278-537 | every sequence of calls on the block-level file system gives the results and the state of the flat specification |
| `BlockStorage.BlocksAreDisjointUnion` | src/contur/fs/simple_fs.cpp:163-190 | a block is allocated exactly when it stands in a block list, and it stands in one place of one list only |
| `FileSystemLaws.StepKeepsInv` | src/contur/fs/simple_fs.cpp:278-537 | every operation keeps the tree, the descriptor and the block-count invariants |
| `FileSystemLaws.PathsAreUnique` | src/contur/fs/simple_fs.cpp:99-161 | two walks from the root that reach the same node are the same path |
| `FileSystemLaws.EveryNodeHasAPath` | src/contur/fs/simple_fs.cpp:99-161 | every inode is reached by some path from inode 1 |
| `FileSystemLaws.ResolversAgree` | src/contur/fs/simple_fs.cpp:99-161 | a path resolves exactly when its parent resolves to a directory holding its last name |
| `FileSystemLaws.OpenCreatesOnePath` | src/contur/fs/simple_fs.cpp:285-327 | an open that creates makes exactly its own path resolve, to a fresh inode, and open never answers AlreadyExists |
| `FileSystemLaws.MkdirCreatesOnePath` | src/contur/fs/simple_fs.cpp:441-477 | a directory creation changes the resolution of exactly that path, and AlreadyExists means the path resolves |
| `FileSystemLaws.RemoveDeletesOnePath` | src/contur/fs/simple_fs.cpp:479-537 | a removal makes exactly that path stop resolving |
| `FileSystemLaws.FailedWriteIsInvisible` | src/contur/fs/simple_fs.cpp:163-190 | a failed write changes no byte, path, time or descriptor and loses no block |
| `FileSystemLaws.WriteTrims` | src/contur/fs/simple_fs.cpp:192-226 | after a successful non-empty write the file holds exactly ceil(size / block size) blocks |
| `FileSystemLaws.WritesConcatenate` | src/contur/fs/simple_fs.cpp:192-226 | two writes into a file at adjacent places are one write of the concatenation |
| `FileSystemLaws.ReadReturnsWhatWasWritten` | src/contur/fs/simple_fs.cpp:359-434 | reading through one descriptor returns what was written through another at the same offset |
| `FileSystemLaws.ReadsConcatenate` | src/contur/fs/simple_fs.cpp:359-393 | two reads in a row are one read of the summed length |
| `FileSystemLaws.RunLeavesOtherFilesAlone` | src/contur/fs/simple_fs.cpp:278-537 | in every run a file that is not written, truncated or removed keeps its bytes |
| `FileSystemLaws.BlocksAreConserved` | src/contur/fs/simple_fs.cpp:163-190 | in every run the free blocks and the blocks held by files add up to all blocks |
| `FileSystemOutcomes.WriteOutcome` | src/contur/fs/simple_fs.cpp:395-434 | a write succeeds exactly through a writable descriptor of a file that has room; then the data stand at the place of the descriptor, the rest is as it was or zero, and the descriptor stands right behind the data; for want of room no descriptor moves and the file keeps all the free blocks |
| `FileSystemOutcomes.WritesJoin` | src/contur/fs/simple_fs.cpp:395-434 | two writes in a row through one descriptor leave the files, free blocks and descriptors of one write of the joined data, which succeeds exactly when they do |
| `FileSystemOutcomes.ReadOutcome` | src/contur/fs/simple_fs.cpp:359-393 | exactly when a read succeeds, which bytes it gives, and that the descriptor moves right behind them |
| `FileSystemOutcomes.CloseOutcome` | src/contur/fs/simple_fs.cpp:436-439 | a close forgets exactly an open descriptor and changes nothing else |
| `FileSystemOutcomes.OpenOutcome` | src/contur/fs/simple_fs.cpp:278-357 | an open succeeds exactly for a mode that reads or writes and a path that denotes a file or can be made to; a new or truncated file is empty, any other is as it was, and the offset is the end of the file when appending and 0 otherwise; which error else |
| `FileSystemOutcomes.MkdirOutcome` | src/contur/fs/simple_fs.cpp:441-477 | a directory is made exactly where nothing is yet in a directory that exists; which error else |
| `FileSystemOutcomes.RemoveOutcome` | src/contur/fs/simple_fs.cpp:479-537 | a path is removed exactly if it denotes a file or an empty directory other than the root, and a file gives back exactly its blocks; which error else |
| `FileSystemOutcomes.HandlesIncrease` | src/contur/fs/simple_fs.cpp:351-357 | in every run no handle is given out twice: the handles of successful opens increase |
| `FileSystemOutcomes.StampsTellChanges` | src/contur/fs/simple_fs.cpp:278-537 | every operation stamps what it changes later than all stamps before it, and leaves the other stamps alone |
| `PageReplacement.FifoReplacement.SelectVictim` | src/contur/memory/fifo_replacement.cpp:28-37 | the victim is the front of the load order, and only that entry goes |
| `PageReplacement.LruReplacement.Touch` | src/contur/memory/lru_replacement.cpp:47-55 | the time-stamp map refines a recency list: the frame moves to its end |
| `PageReplacement.LruReplacement.SelectVictim` | src/contur/memory/lru_replacement.cpp:30-45 | the smallest time stamp, whatever the scan order, is the head of the recency list |
| `PageReplacement.ClockReplacement.SelectVictim` | src/contur/memory/clock_replacement.cpp:32-63 | the unbounded scan ends with the hand in range; which frame goes and which reference bits are lost, exactly |
| `PageReplacement.SecondChance` | src/contur/memory/clock_replacement.cpp:32-63 | the victim is an unreferenced frame if and only if no frame stands twice before the first unreferenced one |
| `PageReplacement.SecondChanceFailsWithDuplicates` | src/contur/memory/clock_replacement.cpp:65-74 | with a stale duplicate entry a referenced frame is evicted although an unreferenced one is loaded |
| `PageReplacement.SecondChanceRun` | src/contur/memory/clock_replacement.cpp:32-74 | a run of loads and victims from an empty policy that reaches such a duplicate and evicts a referenced frame |
| `PageReplacement.Policy.OnAccess` | src/contur/memory/lru_replacement.cpp:47-50 | an access makes the frame the most recent under LRU, sets its bit under Clock, and changes nothing under FIFO |
| `ReplacementHistory.UseKeepsOrder` | src/contur/memory/lru_replacement.cpp:47-55 | after a load or an access the recency list holds the frames in use in the order of their last use in the history |
| `ReplacementHistory.EvictionKeepsOrder` | src/contur/memory/lru_replacement.cpp:30-45 | the head of that list is the frame whose last load or access is oldest |
| `ReplacementHistory.FifoOrder` | src/contur/memory/fifo_replacement.cpp:28-47 | in a history where each victim was the first load left, the victims so far and then the loads left are all loads in order |
| `MemoryManagement.Translate` | src/contur/memory/page_table.cpp:56-69 | a page translates exactly when its process and page exist and the page is present; the three errors otherwise |
| `MemoryManagement.Mmu.Read` | src/contur/memory/mmu.cpp:103-125 | reads exactly the resident pages, returns the page's content, changes no page, marks the page's entry and tells the policy of exactly this access |
| `MemoryManagement.Mmu.Write` | src/contur/memory/mmu.cpp:127-150 | succeeds exactly for resident pages, changes the content of exactly one page, marks its entry and tells the policy of exactly this access |
| `MemoryManagement.Mmu.AllocateFrame` | src/contur/memory/mmu.cpp:75-86 | takes any one free frame and records its owner; none exactly when no frame is free |
| `MemoryManagement.Mmu.Allocate` | src/contur/memory/mmu.cpp:152-257 | success gives the process all its pages resident and changes no other page's content; failure gives back every frame and changes no page's content; under LRU it is refused exactly when there are more pages than frames, under FIFO exactly when the victims that come up include frames the process already has |
| `AllocationRoom.CourseEnds` | src/contur/memory/mmu.cpp:183-252 | under FIFO an allocation that got all its pages met only owned, distinct frames of others as victims |
| `AllocationRoom.CourseIsStuck` | src/contur/memory/mmu.cpp:189-225 | an allocation that meets its own frame had no such victims under FIFO, and has every frame there is under LRU |
| `PagingRuns.RefusedThoughItFits` | src/contur/memory/mmu.cpp:189-225 | a run under FIFO in two frames: an allocation of two pages is refused exactly if a stale entry names the free frame |
| `MemoryManagement.Mmu.RollBack` | src/contur/memory/mmu.cpp:205-225 | undoing a half-done allocation gives back exactly the frames and the table of that process |
| `MemoryManagement.Mmu.Deallocate` | src/contur/memory/mmu.cpp:259-300 | removes exactly the pages of one process, although its frames stay in the policy |
| `MemoryManagement.Mmu.SwapOut` | src/contur/memory/mmu.cpp:388-440 | moves one resident page to swap and changes no page's content |
| `MemoryManagement.Mmu.SwapIn` | src/contur/memory/mmu.cpp:302-386 | brings one page in under FIFO, LRU or Clock, never out of memory, and changes no page's content |
| `MemoryManagement.PagesFitInMemory` | src/contur/memory/mmu.cpp:183-257 | a process whose pages are all resident has no more pages than there are frames |
| `PagingState.FrameSafety` | src/contur/memory/mmu.cpp:75-92 | free and owned frames partition all frames; present pages map injectively to frames owned by their process; every page is present or in swap but not both |
| `PagingRuns.RunAll` | src/contur/memory/mmu.cpp:103-440 | over every sequence of operations a page holds the block last written to it until its process is deallocated, every successful read returns it, and swapping it never fails; the policy hears of every successful access; under LRU every victim is the frame whose last load or access is oldest, under FIFO the one loaded first; a page leaves memory only when swapped out or when its frame was a victim |
| `VirtualMemorySlots.VirtualMemory.AllocateSlot` | src/contur/memory/virtual_memory.cpp:41-67 | a slot whose pages are all resident, or no change to any page; the order of the error checks; when there is room, under FIFO and LRU exactly |
| `VirtualMemorySlots.VirtualMemory.FreeSlot` | src/contur/memory/virtual_memory.cpp:69-85 | fails only for a process without slot; removes exactly its pages |
| `VirtualMemorySlots.VirtualMemory.LoadSegment` | src/contur/memory/virtual_memory.cpp:87-111 | lays the data over the front of the process's pages up to the first page that is not resident |
| `VirtualMemorySlots.VirtualMemory.ReadSegment` | src/contur/memory/virtual_memory.cpp:113-135 | returns the whole segment exactly when all of it is resident |
| `VirtualMemorySlots.NothingAbsent` | src/contur/memory/virtual_memory.cpp:87-111 | loading into a slot that is all resident never stops early |
| `VirtualMemorySlots.OverlayReadBack` | src/contur/memory/virtual_memory.cpp:87-135 | what was loaded is what is read back, and other processes' segments are unchanged |
| `LaneDispatch.AggregateDispatchErrors` | src/contur/dispatch/dispatcher_pool.cpp:280-308 | success exactly if some lane succeeded, else the first outcome other than NotFound, else NotFound; said of the outcomes themselves |
| `LaneDispatch.SerialDispatch` | src/contur/dispatch/serial_dispatch_runtime.cpp:41-75 | the serial loop runs every lane once and its answer stands in the same relation to their outcomes |
| `LaneDispatch.SummarySumsUp` | src/contur/dispatch/dispatcher_pool.cpp:280-308 | success exactly if some lane answered Ok; a failure other than NotFound is the first outcome other than NotFound; NotFound exactly if every outcome is |
| `LaneDispatch.OneSum` | src/contur/dispatch/dispatcher_pool.cpp:280-308 | the lane outcomes determine that answer |
| `DispatcherPoolTheorems.StartedKeepsInv` | src/contur/dispatch/dispatcher_pool.cpp:60-90 | a pool whose workers have just been started satisfies the invariant |
| `DispatcherPoolSafety.PostKeepsInv` | src/contur/dispatch/dispatcher_pool.cpp:111-131 | posting a job on an idle pool establishes the invariant of a job: no lane has run and no worker has the token |
| `DispatcherPoolSafety.WakeKeepsInv` | src/contur/dispatch/dispatcher_pool.cpp:184-210 | waking keeps the invariant, so a worker takes each token at most once |
| `DispatcherPoolSafety.EndKeepsStrides` | src/contur/dispatch/dispatcher_pool.cpp:227-239 | with static stride, a worker has run exactly the lanes of its residue class below its position |
| `DispatcherPoolSafety.BeginBySteal` | src/contur/dispatch/dispatcher_pool.cpp:242-253 | with work stealing, the shared counter gives each lane to one worker |
| `DispatcherPoolSafety.StepKeepsInv` | src/contur/dispatch/dispatcher_pool.cpp:111-278 | every step of every thread keeps the protocol invariant: one worker per lane, each lane at most once, each token once |
| `DispatcherPoolTheorems.CollectFindsAllDone` | src/contur/dispatch/dispatcher_pool.cpp:133-143 | the coordinator returns only when every worker took the token once and is out of every lane, and every lane ran exactly once |
| `DispatcherPoolTheorems.OneWorkerPerLane` | src/contur/dispatch/dispatcher_pool.cpp:223-278 | no two workers are ever in the same lane, and nobody is in a lane that has run |
| `DispatcherPoolTheorems.CollectEqualsSerial` | src/contur/dispatch/dispatcher_pool.cpp:223-278 | the lane states and the lane outcomes are those of running each lane once on its initial state |
| `DispatcherPoolTheorems.MergedTrace` | src/contur/dispatch/dispatcher_pool.cpp:147-171 | the merged trace is numbered 0..n-1 with the current epoch; in deterministic mode it and the reported order are lane by lane |
| `DispatcherPoolTheorems.StepDecreases` | src/contur/dispatch/dispatcher_pool.cpp:133-278 | every step but a new post decreases a measure |
| `DispatcherPoolTheorems.JobsEnd` | src/contur/dispatch/dispatcher_pool.cpp:133-278 | no interleaving of a job has more steps than that measure |
| `DispatcherPoolTheorems.NeverStuck` | src/contur/dispatch/dispatcher_pool.cpp:133-221 | while the coordinator waits, some thread can move |
| `DispatcherPoolTheorems.JobCanFinish` | src/contur/dispatch/dispatcher_pool.cpp:133-221 | from every reachable moment the threads can go on until the coordinator returns |
| `DispatcherPoolTheorems.PoolEqualsSerial` | src/contur/dispatch/dispatcher_pool.cpp:392-431 | for every interleaving between post and return: lanes, answer and trace as the serial runtime, and the answer sums up the outcomes; every worker took the job once and sleeps |
| `Graphs.AcyclicIffRanked` | src/contur/sync/deadlock_detector.cpp:146-189 | a finite graph has no directed cycle exactly when its nodes can be ranked so that every edge goes upward |
| `Graphs.Visit` | src/contur/sync/deadlock_detector.cpp:56-83 | the recursive search, in any iteration order, finds a cycle or finishes nodes so that edges only go to nodes finished earlier |
| `Graphs.HasCycle` | src/contur/sync/deadlock_detector.cpp:51-94 | true exactly when the graph has a directed cycle, for every graph and iteration order |
| `Graphs.Explore` | src/contur/sync/deadlock_detector.cpp:102-127 | the reporting search: what it reports lies on cycles, and if it reports nothing the finished nodes are ordered |
| `Graphs.CycleNodes` | src/contur/sync/deadlock_detector.cpp:96-144 | every reported node lies on a cycle, and the report is non-empty exactly when there is one |
| `DeadlockDetection.OwnsAfter` | src/contur/sync/deadlock_detector.cpp:249-281 | ownership in terms of the history: acquired and not released since |
| `DeadlockDetection.WaitsForAfter` | src/contur/sync/deadlock_detector.cpp:288-312 | a wait-for edge is an open wait and an owner at the time the wait began |
| `DeadlockDetection.OwnsIffSettled` | src/contur/sync/deadlock_detector.cpp:249-281 | a process owns a resource now as it did at an earlier call if and only if the last acquire or release of it since agrees with then |
| `DeadlockDetection.TakenAfter` | src/contur/sync/deadlock_detector.cpp:331-343 | one more call adds the edge a to b exactly when it takes b while its thread holds a different a |
| `DeadlockDetection.DisciplineIffAcyclic` | src/contur/sync/deadlock_detector.cpp:146-189 | no cycle exactly when some ranking of the locks makes every acquire of the history go strictly upward |
| `DeadlockDetection.DeadlockDetector.OnAcquire` | src/contur/sync/deadlock_detector.cpp:249-260 | the tables stay exactly what the history of calls says, for one more acquire |
| `DeadlockDetection.DeadlockDetector.OnRelease` | src/contur/sync/deadlock_detector.cpp:267-281 | the same for a release, known or not |
| `DeadlockDetection.DeadlockDetector.OnWait` | src/contur/sync/deadlock_detector.cpp:288-312 | the same for a wait |
| `DeadlockDetection.DeadlockDetector.OnInternalLockAcquire` | src/contur/sync/deadlock_detector.cpp:331-343 | the same for taking an internal lock, held before or not |
| `DeadlockDetection.DeadlockDetector.OnInternalLockRelease` | src/contur/sync/deadlock_detector.cpp:345-365 | the same for giving one back, held or not |
| `DeadlockDetection.DeadlockDetector.HasDeadlock` | src/contur/sync/deadlock_detector.cpp:314-318 | true exactly when the history has a circular wait or admits no ranking of the locks |
| `DeadlockDetection.DeadlockDetector.GetDeadlockedProcesses` | src/contur/sync/deadlock_detector.cpp:320-329 | an ascending list; every process in it has a thread in a circular wait; it is empty exactly when there is none |
| `DeadlockDetection.DeadlockDetector.HasInternalLockOrderCycle` | src/contur/sync/deadlock_detector.cpp:367-371 | false exactly when some ranking of the locks is obeyed by the whole history |
| `DeadlockDetection.DeadlockDetector.GetInternalLockOrderCycle` | src/contur/sync/deadlock_detector.cpp:373-377 | an ascending list; every lock in it is in a circle of locks each taken under the one before; empty exactly when a ranking exists |
| `DeadlockDetection.EdgeIsCurrentIff` | src/contur/sync/deadlock_detector.cpp:288-312 | a wait-for edge, present or absent, is right about the current owners if and only if the resource has not moved to or from that process since the wait began, or has moved back |
| `DeadlockDetection.CircleIsCurrentIff` | src/contur/sync/deadlock_detector.cpp:314-329 | a reported circle is a deadlock of the moment if and only if every edge on it is settled in that sense |
| `DeadlockDetection.CurrentCircleIsReportedIff` | src/contur/sync/deadlock_detector.cpp:314-329 | a circle of current waits is reported if and only if every edge on it is settled |
| `DeadlockDetection.LateOwnersAreMissed` | src/contur/sync/deadlock_detector.cpp:249-260 | an acquire adds no edge, so two processes can block each other and not be reported |
| `DeadlockDetection.Listed` | src/contur/sync/deadlock_detector.cpp:320-329 | the reports are ascending and have exactly the members of the set |
| `DeadlockDetection.WaitsForOwners` | src/contur/sync/deadlock_detector.cpp:288-312 | while a resource changes no hands, its waiters wait exactly for its current owners |
| `DeadlockDetection.StaleEdgesCanCloseACircle` | src/contur/sync/deadlock_detector.cpp:267-281 | a release withdraws no edge, so a circle can be reported though the awaited resource is free |
| `Banker.GreedyIsRight` | src/contur/sync/deadlock_detector.cpp:436-480 | the greedy sweeps are sound on every table, and complete when what is there of each resource, apart from the holdings of any one process, can be counted in 32 bits: their order never matters |
| `Banker.WrapAroundRefusesSafeState` | src/contur/sync/deadlock_detector.cpp:464-467 | a safe table beyond 32 bits that the check refuses |
| `Banker.Acceptable` | src/contur/sync/deadlock_detector.cpp:404-434 | accepts exactly tables with valid, matching, distinct processes, full rows and no over-claim |
| `Banker.SweepOnce` | src/contur/sync/deadlock_detector.cpp:443-478 | one sweep with its 32-bit work vector, finish flags, count and progress flag |
| `Banker.IsSafeState` | src/contur/sync/deadlock_detector.cpp:379-481 | the early answers; a safe answer always has an order that lets every process finish; exact under the same 32-bit condition |
| `PriorityInheritance.Register` | src/contur/sync/mutex.cpp:33-49 | a process without a priority gets the normal one; no base priority changes |
| `PriorityInheritance.RegisterKeepsExact` | src/contur/sync/mutex.cpp:51-87 | registering a newcomer needs no recomputation |
| `PriorityInheritance.HighestOf` | src/contur/sync/mutex.cpp:63-73 | the best base priority among the waiters |
| `PriorityInheritance.Recompute` | src/contur/sync/semaphore.cpp:52-94 | every holder gets the best of its own base priority and the waiters', everyone else its base, in any visiting order |
| `PriorityInheritance.ExactIsUnique` | src/contur/sync/mutex.cpp:51-87 | there is only one exact assignment of effective priorities |
| `PriorityInheritance.ServedInOrderComposes` | src/contur/sync/mutex.cpp:133-226 | service in order over two stretches of a run is service in order over both |
| `MutexLock.AfterKeepsOrderly` | src/contur/sync/mutex.cpp:133-226 | an unowned mutex has an empty line; nobody queues twice or while owning |
| `MutexLock.NoOvertaking` | src/contur/sync/mutex.cpp:133-226 | in every run the mutex passes along the line in order, one place each time an owner lets go; neither acquire nor tryAcquire can barge |
| `MutexLock.ReleasesUndoAcquires` | src/contur/sync/mutex.cpp:165-198 | after as many releases as its depth the owner hands the mutex to the head of the line |
| `MutexLock.AnswerTells` | src/contur/sync/mutex.cpp:133-226 | an acquire of either kind succeeds exactly for a free mutex or the caller's own, which the caller then owns; only a busy acquire joins the line, at its end and once; only the owner's release succeeds and a refused call leaves the owner alone |
| `MutexLock.LineIsConserved` | src/contur/sync/mutex.cpp:133-226 | over every run those in line at first and those who join it, in order, are those served by releases, in order, and those still in line |
| `MutexLock.DepthIsCounted` | src/contur/sync/mutex.cpp:133-226 | over every run a process owns the mutex exactly as many times as it got it, by its own successful call or by hand-off, more often than it released it |
| `MutexLock.OwnedWhileOutstanding` | src/contur/sync/mutex.cpp:133-226 | told by calls alone: who takes a free mutex owns it as long as its acquires outnumber its releases, whatever others call in between, at a depth equal to the difference, with the others lined up by their first acquires |
| `MutexLock.LastReleaseHandsOver` | src/contur/sync/mutex.cpp:165-198 | with as many releases as acquires the mutex goes to the first of those who called for it, or is free if none did |
| `MutexLock.Mutex.Acquire` | src/contur/sync/mutex.cpp:133-163 | ownership, depth, line and answer; effective priorities exact, also on the recursive acquire that does not recompute |
| `MutexLock.Mutex.TryAcquire` | src/contur/sync/mutex.cpp:200-226 | the same without queueing |
| `MutexLock.Mutex.Release` | src/contur/sync/mutex.cpp:165-198 | only the owner can release; hand-off at depth one; effective priorities exact |
| `MutexLock.Mutex.RegisterProcessPriority` | src/contur/sync/mutex.cpp:89-100 | sets one base priority and leaves all effective ones exact |
| `MutexLock.Mutex.EffectivePriority` | src/contur/sync/mutex.cpp:102-113 | the owner has the best of its own and its waiters' base priorities, everyone else its own |
| `CountingSemaphore.AfterKeepsOrderly` | src/contur/sync/semaphore.cpp:143-230 | the count never passes its maximum and a positive count means an empty line |
| `CountingSemaphore.UnitsAfter` | src/contur/sync/semaphore.cpp:143-230 | exactly the releases by non-holders make a unit, and exactly the refused ones by holders lose one |
| `CountingSemaphore.ForeignReleaseLosesAUnit` | src/contur/sync/semaphore.cpp:169-209 | a run in which a release by a non-holder makes a unit and the holder's own release is refused and loses it |
| `CountingSemaphore.UnitsAreConserved` | src/contur/sync/semaphore.cpp:169-209 | if only holders release, free plus held units are constant over every run and no release is refused |
| `CountingSemaphore.NoOvertaking` | src/contur/sync/semaphore.cpp:143-230 | in every run units go along the line in order, one place for each release; neither acquire nor tryAcquire can barge |
| `CountingSemaphore.AnswerTells` | src/contur/sync/semaphore.cpp:143-230 | an acquire of either kind succeeds exactly if a unit is free, and is then granted one; only a busy acquire joins the line, at its end and once; a release is refused exactly with all units back and nobody in line, and else serves the head of the line |
| `CountingSemaphore.GrantsAreHeld` | src/contur/sync/semaphore.cpp:143-209 | whoever is granted a unit holds one more, and a release takes one from its caller if it has one |
| `CountingSemaphore.LineIsConserved` | src/contur/sync/semaphore.cpp:143-230 | over every run those in line at first and those who join it, in order, are those served by releases, in order, and those still in line |
| `CountingSemaphore.HeldIsCounted` | src/contur/sync/semaphore.cpp:143-230 | over every run a process holds what it held and was granted, less what it gave back |
| `CountingSemaphore.EnoughForAll` | src/contur/sync/semaphore.cpp:143-230 | told by calls alone: with never more units in use than there are, and nobody releasing more than it acquired, every call succeeds and each process holds what it acquired and has not released |
| `CountingSemaphore.Semaphore.constructor` | src/contur/sync/semaphore.cpp:132-137 | the maximum is at least one and the count at most the maximum |
| `CountingSemaphore.Semaphore.Acquire` | src/contur/sync/semaphore.cpp:143-167 | count, holders, line and answer; effective priorities exact |
| `CountingSemaphore.Semaphore.Release` | src/contur/sync/semaphore.cpp:169-209 | hand-off to the head of the line, else back to the count, else refused; effective priorities exact |
| `CountingSemaphore.Semaphore.TryAcquire` | src/contur/sync/semaphore.cpp:211-230 | takes a free unit or answers busy without queueing; effective priorities exact |
| `CountingSemaphore.Semaphore.EffectivePriority` | src/contur/sync/semaphore.cpp:109-120 | every holder has the best of its own and the waiters' base priorities, everyone else its own |
| `ProcessControl.Pcb.SetState` | src/contur/process/pcb.cpp:56-95 | moves exactly along the legal transitions and charges the time to the state that is left |
| `ProcessControl.TimeIsAccounted` | src/contur/process/pcb.cpp:56-95 | over every life of a process, cpu, waiting, blocked and unaccounted time add up to its age modulo 2^64 |
| `ProcessControl.AgeIsAccounted` | src/contur/process/pcb.cpp:56-95 | the accounts of a process and the time spent without one add up to its age since arrival, modulo 2^64 |
| `ProcessControl.StampsAreKept` | src/contur/process/pcb.cpp:56-95 | over every life the first start not at tick zero is kept, the end is final, and the finish is stamped at the end and only then |
| `ProcessControl.AccountsTellStates` | src/contur/process/pcb.cpp:56-95 | over every life cpu, waiting and blocked time are, modulo 2^64, the times spent running, ready and blocked |
| `ProcessControl.StartIsFirstRun` | src/contur/process/pcb.cpp:56-95 | over every life the start is the tick of the first move to running that is not at tick zero |
| `ProcessControl.EndedIs` | src/contur/process/pcb.cpp:56-95 | exactly a running process can end, is charged to that tick, and never moves again |
| `ProcessControl.StatesEntered` | src/include/contur/process/state.h:53-76 | from where each state can be entered |
| `RoundRobin.SelectNext` | src/contur/scheduling/round_robin_policy.cpp:21-38 | a process that no other precedes by last change and id |
| `SchedulerState.ExactlyOnePlace` | src/contur/scheduling/scheduler.cpp:25-47 | every known process is in exactly one ready lane, running slot or the blocked list, and its state says which |
| `SchedulerState.PreemptKeepsPlaced` | src/contur/scheduling/scheduler.cpp:195-212 | preemption keeps every process in its one place |
| `SchedulerState.StartKeepsPlaced` | src/contur/scheduling/scheduler.cpp:214-224 | starting a ready process keeps every process in its one place |
| `SchedulerState.DropKeepsPlaced` | src/contur/scheduling/scheduler.cpp:376-389 | forgetting a process disturbs no other |
| `SchedulerOps.Victim` | src/contur/scheduling/scheduler.cpp:434-449 | the first of the longest other lanes |
| `SchedulerOps.EnqueueKeepsPlacedIff` | src/contur/scheduling/scheduler.cpp:283-365 | an enqueue keeps the queues in order if and only if it is refused at once or the process is not already blocked, nor an unknown one that cannot become ready |
| `SchedulerOps.TerminateKeepsPlacedIff` | src/contur/scheduling/scheduler.cpp:546-598 | a termination keeps the queues in order if and only if the process is unknown or running |
| `SchedulerOps.TerminatingReadyBreaks` | src/contur/scheduling/scheduler.cpp:568-587 | a process just admitted is terminated directly and is then known but nowhere |
| `SchedulerOps.EnqueueingBlockedBreaks` | src/contur/scheduling/scheduler.cpp:320-365 | a run in which a process is admitted, chosen, blocked and enqueued again, and is then both ready and blocked |
| `SchedulerOps.ChooseKeepsPlaced` | src/contur/scheduling/scheduler.cpp:156-225 | a choice succeeds with a running process of the lane and keeps the queues in order, or changes nothing |
| `SchedulerOps.StealKeepsPlaced` | src/contur/scheduling/scheduler.cpp:425-465 | stealing keeps the queues in order |
| `SchedulerLaws.ChoiceIs` | src/contur/scheduling/scheduler.cpp:156-225 | a choice succeeds exactly in a lane with a ready or a running process; a running one goes on, with nothing changed, if nobody is ready or its slice is not used up; else the ready process that precedes all others runs and the former one is last in the lane |
| `SchedulerLaws.EnqueueIs` | src/contur/scheduling/scheduler.cpp:283-365 | when an enqueue succeeds; the process is then ready at the end of that lane, charged up to now, and nobody else is concerned |
| `SchedulerLaws.UnblockIs` | src/contur/scheduling/scheduler.cpp:515-544 | exactly a blocked process is unblocked; it is ready at the end of the lane it belongs to, charged up to now, and nobody else is concerned |
| `SchedulerLaws.BlockIs` | src/contur/scheduling/scheduler.cpp:228-267 | exactly a running process is blocked; its slot is free, it is the last of the blocked ones, and nobody else is concerned |
| `SchedulerLaws.BlockRunningIs` | src/contur/scheduling/scheduler.cpp:467-498 | the process of the first busy lane is blocked in the same way |
| `SchedulerLaws.DequeueIs` | src/contur/scheduling/scheduler.cpp:367-392 | a known process is nowhere any more, and everyone else has kept place and order |
| `SchedulerLaws.TerminateIs` | src/contur/scheduling/scheduler.cpp:546-598 | exactly a running process is ended and gone; a ready or blocked one is refused but off its queue; everyone else has kept place and order |
| `SchedulerLaws.StealIs` | src/contur/scheduling/scheduler.cpp:425-465 | a steal succeeds exactly if another lane holds a ready process; the front of the first of the longest such lanes goes to the end of the thief's, whose choice follows |
| `ProcessScheduler.Scheduler.EnqueueToLane` | src/contur/scheduling/scheduler.cpp:283-365 | finds the process by searching the queues and does what its state calls for, errors included; a second control block for a known id changes nothing |
| `ProcessScheduler.Scheduler.Dequeue` | src/contur/scheduling/scheduler.cpp:367-392 | forgets a known process wherever it is |
| `ProcessScheduler.Scheduler.SelectNextForLane` | src/contur/scheduling/scheduler.cpp:156-225 | the Round Robin choice with preemption, as `ChoiceIs` describes it; no transition in it is ever refused |
| `ProcessScheduler.Scheduler.StealNextForLane` | src/contur/scheduling/scheduler.cpp:425-465 | the victim loop takes the front of the longest other lane, then chooses |
| `ProcessScheduler.Scheduler.BlockRunning` | src/contur/scheduling/scheduler.cpp:467-498 | blocks the process of the first busy lane |
| `ProcessScheduler.Scheduler.BlockProcess` | src/contur/scheduling/scheduler.cpp:228-267 | succeeds exactly for a running process; a ready one is refused, a blocked one not found |
| `ProcessScheduler.Scheduler.Unblock` | src/contur/scheduling/scheduler.cpp:515-544 | succeeds exactly for a blocked process, which returns to its lane |
| `ProcessScheduler.Scheduler.Terminate` | src/contur/scheduling/scheduler.cpp:546-598 | ends a running process, with the end noted in its control block; any other one leaves its queue before it is refused |
| `ProcessScheduler.Scheduler.ConfigureLanes` | src/contur/scheduling/scheduler.cpp:662-680 | lays out empty lanes exactly when no process is known |
| `RoundRobinFairness.StepBringsCloser` | src/contur/scheduling/scheduler.cpp:156-225 | after the tick at which p became ready no operation puts anyone ahead of p, and a switch that does not pick p takes one away |
| `RoundRobinFairness.NobodyStarves` | src/contur/scheduling/round_robin_policy.cpp:21-47 | in every run on one lane p runs before there are more switches than processes ahead of it |
| `ProcessDispatcher.PlaceCode` | src/contur/dispatch/dispatcher.cpp:104-130 | loading the code of a new process into its new slot never fails, and spares all other memory; a refused slot means out of memory; when there is room |
| `ProcessDispatcher.ChosenRuns` | src/contur/dispatch/dispatcher.cpp:156-196 | a process is chosen exactly if one is ready or running in lane 0, and then it runs there |
| `ProcessDispatcher.DispatchedState` | src/contur/dispatch/dispatcher.cpp:197-226 | a process whose budget is used up still runs in lane 0; one stopped by an interrupt is the last of the blocked ones; one that exited, failed or was halted is nowhere any more; nobody else is concerned |
| `ProcessDispatcher.Dispatcher.CreateProcess` | src/contur/dispatch/dispatcher.cpp:64-154 | a process is admitted whole, with its code in memory, or not at all; every error; when there is room it succeeds, under FIFO and LRU exactly then; dispatcher, scheduler, slots and page tables stay in step |
| `ProcessDispatcher.Dispatcher.Conclude` | src/contur/dispatch/dispatcher.cpp:197-226 | blocking or ending the process just selected never fails, nor does freeing its slot |
| `ProcessDispatcher.Dispatcher.Dispatch` | src/contur/dispatch/dispatcher.cpp:156-233 | succeeds exactly if a process is ready or running in lane 0, and else answers NotFound and changes nothing; the exact queues, clock, processes, memory and final control block for every stop reason and tick count |
| `ProcessDispatcher.Dispatcher.TerminateProcess` | src/contur/dispatch/dispatcher.cpp:235-276 | succeeds exactly for a known process, in whatever state, and gives back everything it had; the end is noted in its control block only if it was running |
| `DispatcherRuns.Drive` | src/contur/dispatch/dispatcher.cpp:64-281 | over every sequence of creations, dispatches, terminations, ticks, unblocks and steals the invariant holds and the key sets coincide |
| `DispatcherRuns.Perform` | src/contur/dispatch/dispatcher.cpp:64-281 | any one call keeps everything in step, and a dispatch succeeds exactly if a process is ready or running in lane 0 |

## Left out

- User interface, renderers, history buffer and read model: display and copying code.
- Tracing and its sinks, apart from the pool's own trace events: no effect on state.
- Devices, IPC channels, the syscall table and the kernel facade: registries that would only add easy members.
- CPU, ALU and interpreter: the engine is any stop reason and tick count; its direct writes to memory are not modelled.
- `optimal_replacement.cpp`, HRRN, statistics and burst prediction, and the FCFS, SPN, SRT, Priority and MLFQ policies; the scheduler model has Round Robin only, while the queue invariant is proved for any pick.
- `stat`, `listDir`, `isFree`, `reset` and other plain queries and resets.
- Integer widths: sizes, inode ids, descriptors, tokens, epochs, frame numbers and LRU time stamps are unbounded; 32-bit wrap-around is modelled in the Banker's check, 64-bit wrap-around in control block times and the clock.
- Host mutexes, memory orders, thread start-up failure, shutdown, destructors and moves: public methods are atomic, the pool is a system of atomic steps, and a lane's run and the recording of its outcome and trace event are one step.
- The virtual interface of the replacement policies is a datatype with one case for each of FIFO, LRU and Clock.
- Contents of fresh pages: a new page shows whatever its frame held, as in the program, so nothing is claimed of it before it is written.
- That every member of a cycle is reported is not claimed: a node whose cycle closes through a finished node is skipped.
- Scheduler queues hold process ids where the program holds references, so no queue holds two control blocks with one id. Scheduler methods require the queues to be in order; calls after an operation that broke them are not followed.
- ProcessScheduler.Scheduler.EnqueueToLane: a second control block for a blocked process that could itself become ready is not modelled, because queues hold ids.
- ProcessDispatcher.Dispatcher.CreateProcess: images in state New only, as a freshly built image is; for other states `EnqueueKeepsPlacedIff` says what the enqueue in it would do.
- Graphs.CycleNodes: the nodes are reported as a set; the two reports that callers see are put in order.
- MemoryManagement.Mmu.Allocate: under Clock it is said only that free frames suffice and that a success needs as many frames as pages; which victim comes up depends on the hand and on the order in which free frames were taken.
- PagingRuns.RunAll: under Clock the run does not say in which order victims come up; `ClockReplacement.SelectVictim` and `SecondChance` say it call by call.
- Names, priorities, address information and the add-time setters of control blocks.
- Several dispatchers on one scheduler or memory; the halt marks of the engine when a process id is used again.
- RoundRobinFairness.NobodyStarves: for one lane, and for operations later than the tick at which the process became ready; stealing into a lane can put an older process ahead.
- Banker.IsSafeState: completeness only while what is there of each resource, apart from the holdings of any one process, fits in 32 bits, because beyond that the wrapped work vector makes the verdict depend on the order of the rows; the counterexample is a lemma.
