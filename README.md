# Paging simulator: allocation engine

This project is a Dafny model of the allocation engine of a fixed-size paging
simulator written in Java. The engine has five classes:

- **MemoryManager** owns the physical memory. It keeps the owner of every frame
  in an array, where `-1` means free. It also keeps a FIFO deque of free frame
  indices and an insertion-ordered registry from pid to process.
- **PhysicalMemory** is one byte buffer cut into frames of equal size. A frame
  can be read (as a copy), written (zero-padded) and cleared.
- **LogicalMemory** is a process's read-only byte buffer, cut into pages. The
  last page may be short.
- **PagesTable** is a partial map from page index to frame index, with range
  checks.
- **Process** ties a pid to its logical memory and its page table.

`createProcess(pid, size)` checks the pid and the size. It then checks that
enough frames are free. Next it takes one frame per page from the front of
the free deque. It gives each frame to the pid, copies the page into it with
zero padding, and records the frame in a fresh page table. Finally it
registers the process.

The model proves these properties for every reachable state:

- Frame ownership is exclusive.
- Free frames plus the pages of all registered processes make up all the
  frames (capacity is conserved).
- The frames a process gets are the first ones in the free queue, in page
  order.
- Every page reads back from its frame as the page followed by zeros.

It also proves that the loop body of `createProcess` can never fail. The
up-front frame check, the frame size being equal to the page size, and the
queue holding only valid frame indices guarantee this. So the catch block
and its rollback are dead code. What the rollback would do is still stated
on its own: it restores ownership, rotates the free queue, and leaks the
frame taken in the failing step.

Two kinds of error are kept apart, as the Java code does:

- `IllegalArgument` stands for `IllegalArgumentException`: a bad argument, a
  duplicate pid, or an index out of range.
- `IllegalState` stands for `IllegalStateException`: too few free frames, or a
  page with no mapping.

Each carries a `Reason`, one per message of the source. Errors are values:

- an operation that returns something gives a `Result`;
- a `void` operation gives an `Outcome`;
- a class constructor that throws becomes a Dafny `constructor` that requires the
  valid case, plus a `static method Create` that returns a `Result`;
- `LogicalMemory`, which the model keeps as a datatype, is the exception:
  its throwing constructor is the function `Logical.New`, which returns a `Result`.

Files:

- `common.dfy`: bytes, errors, the result wrappers, and zero padding.
- `logical_memory.dfy`: `LogicalMemory` as a datatype, with the concatenation
  of its pages.
- `physical_memory.dfy`: `PhysicalMemory` as a class over an `array<byte>`.
  Pure frame functions (`FrameOf`, `WithFrame`) specify its writes.
- `pages_table.dfy`: `PagesTable` as a class with a `map` field.
- `process.dfy`: `Process` as a datatype.
- `frame_pool.dfy`: the manager's ownership invariant over plain values, and
  the lemmas about taking and returning frames.
- `memory_manager.dfy`: `MemoryManager` as a class, with the lemmas about
  reachable states.
- `scenarios.dfy`: concrete runs matching the unit tests.

## Model

| member | source | states |
|---|---|---|
| Manager.IsPowerOfTwo | src/main/java/memory/MemoryManager.java:146-148 | a power of two is positive, and the only odd one is 1 (repeated halving stands for the bit test) |
| Manager.PowerOfTwoMeans | src/main/java/memory/MemoryManager.java:146-148 | IsPowerOfTwo(v) holds exactly when v == 2^k for some k, the set the bit test `v > 0 && (v & (v-1)) == 0` accepts |
| Manager.PowersOfTwoDivide | src/main/java/memory/MemoryManager.java:32-36 | a power of two divides every larger power of two, so after the size checks PhysicalMemory's divisibility check can only fail for a page larger than the memory |
| Manager.PowerOfTwoGeometry | src/main/java/memory/MemoryManager.java:26-36 | for two powers of two, the physical memory's checks pass exactly when the page is no larger than the memory, and otherwise fail with the not-a-multiple error |
| Manager.CheckConfig | src/main/java/memory/MemoryManager.java:25-36 | the constructor's checks and their order: not a power of two, then max size <= 0, then max size > memory size, then a page larger than the memory; passes exactly for powers of two with 0 < max <= memory and page <= memory |
| Manager.MemoryManager.constructor | src/main/java/memory/MemoryManager.java:25-42 | a valid configuration gives zeroed memory, every owner -1, the free queue exactly [0, 1, …, frames-1], no process, and the invariant |
| Manager.MemoryManager.Create | src/main/java/memory/MemoryManager.java:25-42 | fails exactly when CheckConfig fails, with its error; otherwise a fresh manager with the given page size, maximum process size and total size, a zeroed buffer, physicalMemorySize / pageSize frames all owned by FREE and queued in ascending order, and no process |
| Manager.MemoryManager.InitializeFreeFrames | src/main/java/memory/MemoryManager.java:44-48 | appends 0 … frames-1 in ascending order to the free queue |
| Manager.MemoryManager.Admission | src/main/java/memory/MemoryManager.java:90-109 | duplicate pid, then size <= 0, then size > max are argument errors; then too few free frames for ceil(size/page) pages is a state error; passes otherwise |
| Manager.MemoryManager.CreateProcess | src/main/java/memory/MemoryManager.java:56-80 | fails exactly when Admission fails, with its error and no change to owners, queue, bytes or registry; on success the first k queued frames go to pid in page order, the table maps page i to the i-th of them, pid is registered last, each frame reads back as its page zero-padded, every frame not taken keeps its bytes, and the invariant holds |
| Manager.MemoryManager.AddProcess | src/main/java/memory/MemoryManager.java:64-79 | the part after the checks: fresh table, allocation, registration; the invariant is kept, every other process keeps its frames and bytes, and every frame outside the first k queued ones keeps its bytes |
| Manager.MemoryManager.LoadProcess | src/main/java/memory/MemoryManager.java:64-75 | the allocation loop seen from the registry: the first pages-many queued frames go to pid and hold its pages, every registered process stays loaded, every frame not taken keeps its bytes, and the ownership invariant holds with pid added |
| Manager.LoadedReads | src/main/java/memory/PhysicalMemory.java:68-71 | each frame of a loaded process reads back through readFrame as its page, zero padded |
| Manager.ManagerPageSumFitsInt | src/main/java/memory/LogicalMemory.java:44 | for every configuration the manager accepts within Java's int, `length + pageSize - 1` stays below 2^31 |
| Manager.PowerOfTwoBelowDouble | src/main/java/memory/MemoryManager.java:146-148 | of two powers of two, one below twice the other is no larger than it |
| Manager.Pow2IsPowerOfTwo | src/main/java/memory/MemoryManager.java:146-148 | every 2^k passes the power-of-two test |
| Manager.MemoryManager.Register | src/main/java/memory/MemoryManager.java:77-78 | adding a loaded process whose frames are owned and out of the queue keeps the invariant; it is registered last, the bytes are not touched, and nothing else changes |
| Manager.MemoryManager.AllocatePages | src/main/java/memory/MemoryManager.java:65-71 | the loop takes exactly the first pages-many queued frames, assigns them to pid, maps page i to the i-th, loads every page, and leaves every other frame's bytes unchanged |
| Manager.MemoryManager.LoadNextPage | src/main/java/memory/MemoryManager.java:67-70 | one loop iteration keeps the loop's state: the taken frames are still the front of the original queue, owned by pid, mapped page by page, each holding its page zero-padded, every other frame untouched; the new frame is the next queued one |
| Manager.MemoryManager.AllocateFrame | src/main/java/memory/MemoryManager.java:82-88 | removes the front of the queue, sets its owner to pid, and writes the padded page into that frame; the page read and the frame write cannot fail |
| Manager.MemoryManager.ReleaseFrame | src/main/java/memory/MemoryManager.java:156-160 | owner back to -1, the frame zeroed, the frame appended to the back of the queue |
| Manager.MemoryManager.Rollback | src/main/java/memory/MemoryManager.java:72-75 | releases the recorded frames in order: all zeroed, owners -1, appended to the queue in that order, other frames untouched |
| Manager.MemoryManager.ReleaseNext | src/main/java/memory/MemoryManager.java:73 | one release in the rollback extends the released frames by one: queued at the back, owner -1, zeroed, no other frame touched |
| Manager.MemoryManager.FindProcess | src/main/java/memory/MemoryManager.java:114-116 | Some exactly for a registered pid, holding that process |
| Manager.MemoryManager.ListProcesses | src/main/java/memory/MemoryManager.java:118-120 | every registered process exactly once, in registration order |
| Manager.MemoryManager.GetFrameOwner | src/main/java/memory/MemoryManager.java:122-125 | argument error unless 0 <= f < frames, otherwise the recorded owner |
| Manager.MemoryManager.FreeMemoryPercentage | src/main/java/memory/MemoryManager.java:130-136 | free bytes (free frames times page size) times 100 over the total size; 0 for an empty memory |
| Manager.FreeShareBounds | src/main/java/memory/MemoryManager.java:130-136 | in every reachable state the free share is in [0, 100] and is 100 exactly when no process is registered |
| Manager.ShareBounds | src/main/java/memory/MemoryManager.java:134-135 | free units of n units of equal size, times 100 over the total, lie in [0, 100] and give 100 exactly when all units are free |
| Manager.NoProcessesNoOrder | src/main/java/memory/MemoryManager.java:21 | in every reachable state the registry is empty exactly when the registration order is |
| Manager.PageTotalAtLeastCount | src/main/java/memory/MemoryManager.java:61 | every registered process has at least one page, so the page total is at least the number of processes |
| Manager.FreeCount | src/main/java/memory/MemoryManager.java:130-136 | in every reachable state all frames are free exactly when no process is registered, and the total size is frames times page size |
| Manager.ShareOfFreeFrames | src/main/java/memory/MemoryManager.java:130-136 | with free frames out of n frames of one page each, the share is in [0, 100] and is 100 exactly when all are free |
| Manager.CapacityConserved | src/main/java/memory/MemoryManager.java:21-23 | in every reachable state the free frames plus the page counts of the registered processes equal the number of frames |
| Manager.OwnershipExclusive | src/main/java/memory/MemoryManager.java:83-84 | pages of two different processes are mapped to different frames, and each mapped frame is owned by its process |
| Manager.PageRoundTrip | src/main/java/memory/MemoryManager.java:85-86 | for every registered process and page, the table's frame reads back as readPage(i) followed by zeros, and its owner is the pid |
| Manager.PageTotalIsAllocated | src/main/java/memory/MemoryManager.java:64-71 | the registered page counts add up to the frames the processes hold |
| Manager.LoadedKept | src/main/java/memory/MemoryManager.java:86 | a process stays loaded across writes to frames it does not hold |
| Manager.AllLoadedKept | src/main/java/memory/MemoryManager.java:86 | every registered process stays loaded across writes to frames none of them holds |
| Manager.LoadStep | src/main/java/memory/MemoryManager.java:85-86 | loading the next page into an unused frame extends the loaded prefix and touches no other frame |
| FramePool.InitiallyOwned | src/main/java/memory/MemoryManager.java:39-47 | all owners -1 with the ascending queue satisfies the ownership invariant, and the queue holds exactly the frame indices |
| FramePool.TakeFront | src/main/java/memory/MemoryManager.java:83-84 | handing the first k queued frames to a new pid (not -1) keeps the invariant: owner -1 exactly for queued frames, no duplicates, exclusive ownership, capacity |
| FramePool.Assign | src/main/java/memory/MemoryManager.java:84 | the owner array after the listed frames are given to pid: those frames read pid, the rest are unchanged |
| FramePool.AssignSnoc | src/main/java/memory/MemoryManager.java:84 | giving one more frame is one owner update |
| FramePool.AllocatedExtend | src/main/java/memory/MemoryManager.java:78 | registering a new pid adds its frames to the held count and changes no other count |
| FramePool.HeldFramesNotQueued | src/main/java/memory/MemoryManager.java:83 | no frame held by a registered process is among the frames about to be taken |
| FramePool.NextNotTaken | src/main/java/memory/MemoryManager.java:83 | taking frames from the front of a queue without duplicates, the next frame is not among those taken |
| FramePool.HeldFramesNotFree | src/main/java/memory/MemoryManager.java:83-84 | under the ownership invariant no frame a process holds is queued as free |
| FramePool.Exclusive | src/main/java/memory/MemoryManager.java:84 | under the ownership invariant two different processes never hold the same frame |
| FramePool.SplitQueue | src/main/java/memory/MemoryManager.java:83 | the frames taken from the front and the frames left are disjoint and together are the queue |
| FramePool.ReleaseUndoesAssign | src/main/java/memory/MemoryManager.java:156-157 | releasing frames that were free just before restores the owner array |
| FramePool.RollbackRestoresOwnership | src/main/java/memory/MemoryManager.java:156-160 | a rollback of recorded frames restores owners and the invariant, but the queue comes back rotated |
| FramePool.Rotated | src/main/java/memory/MemoryManager.java:159 | moving the first j queued frames to the back keeps the same frames, each once |
| FramePool.RollbackLeaksTakenFrame | src/main/java/memory/MemoryManager.java:82-88 | the frame taken in a failing iteration is never released: it stays owned by an unregistered pid and the invariant breaks |
| FramePool.SentinelPidBreaksOwnership | src/main/java/memory/MemoryManager.java:84 | with pid -1 the first frame taken is out of the queue yet its owner reads FREE, so "owner is FREE exactly for queued frames" fails, and the ownership invariant fails even for the registry as it was |
| Physical.CheckGeometry | src/main/java/memory/PhysicalMemory.java:17-23 | size or frame size <= 0 is one argument error, checked first; a size that is not a multiple of the frame size is another; passes otherwise |
| Physical.PhysicalMemory.constructor | src/main/java/memory/PhysicalMemory.java:17-27 | a zero-filled buffer of the given size and frame size |
| Physical.PhysicalMemory.Create | src/main/java/memory/PhysicalMemory.java:17-27 | fails exactly when CheckGeometry fails, with its error; otherwise a fresh zeroed memory |
| Physical.PhysicalMemory.TotalSize | src/main/java/memory/PhysicalMemory.java:29-31 | the buffer length |
| Physical.PhysicalMemory.NumberOfFrames | src/main/java/memory/PhysicalMemory.java:36-38 | at least one, and that many frames cover the buffer exactly |
| Physical.PhysicalMemory.FrameStartAddress | src/main/java/memory/PhysicalMemory.java:40-43 | f * frameSize for 0 <= f < frames, which is a whole frame inside the buffer; an argument error otherwise |
| Physical.FrameIndexInRange | src/main/java/memory/PhysicalMemory.java:73-77 | every index passing the range check names a whole frame inside the buffer |
| Physical.PhysicalMemory.ReadFrame | src/main/java/memory/PhysicalMemory.java:68-71 | the range check's error, or a copy of exactly frameSize bytes equal to the frame; the buffer is not changed |
| Physical.PhysicalMemory.ClearFrame | src/main/java/memory/PhysicalMemory.java:45-48 | on a valid frame only that frame is zeroed; on an invalid one an argument error and nothing changes |
| Physical.PhysicalMemory.WriteFrame | src/main/java/memory/PhysicalMemory.java:53-66 | data longer than a frame is rejected before the index check; on success the frame holds the data followed by zeros and no other byte changes; on failure nothing changes |
| Physical.ReadWrittenFrame | src/main/java/memory/PhysicalMemory.java:61-71 | reading a frame after replacing it gives exactly the new bytes |
| Physical.ReadOtherFrame | src/main/java/memory/PhysicalMemory.java:61-65 | replacing one frame leaves every other frame as it was |
| Physical.ReplaceFrame | src/main/java/memory/PhysicalMemory.java:46-47 | replacing a frame among count frames: that frame reads the new bytes, all the others read as before |
| Physical.ZeroStep | src/main/java/memory/PhysicalMemory.java:45-48 | clearing one more frame keeps all earlier cleared frames zero and every untouched frame unchanged |
| Physical.FramesOfCount | src/main/java/memory/PhysicalMemory.java:36-38 | every index below count is a whole frame of a buffer of count frames |
| Physical.NothingChanged | src/main/java/memory/MemoryManager.java:65-67 | the starting state of the allocation and rollback loops: before any write every frame reads as it did |
| Physical.UnchangedFrameReads | src/main/java/memory/PhysicalMemory.java:68-71 | a frame no write touched reads back through readFrame as it was |
| Physical.ZeroMemoryFrame | src/main/java/memory/PhysicalMemory.java:17-27 | every frame of the zero-filled buffer reads as zeros |
| Logical.New | src/main/java/memory/LogicalMemory.java:21-29 | length <= 0 is an argument error; otherwise a logical memory of that length holding the given content |
| Logical.LogicalMemory.Size | src/main/java/memory/LogicalMemory.java:36-38 | the byte length, positive |
| Logical.LogicalMemory.NumberOfPages | src/main/java/memory/LogicalMemory.java:43-45 | the least n >= 1 with n pages covering all bytes: (n-1)*page < size <= n*page |
| Logical.CeilDivBounds | src/main/java/memory/LogicalMemory.java:44 | (size + page - 1) / page is the ceiling of size / page |
| Logical.LogicalMemory.Page | src/main/java/memory/LogicalMemory.java:55-57 | bytes [p*page, min((p+1)*page, size)): full length except the last page, whose length is in (0, page] and which ends at the end of the content |
| Logical.LogicalMemory.ReadPage | src/main/java/memory/LogicalMemory.java:50-58 | argument error unless 0 <= p < pages; otherwise that page's bytes |
| Logical.PagesArePrefix | src/main/java/memory/LogicalMemory.java:55-57 | the first k pages laid end to end are the first min(k*page, size) bytes |
| Logical.AllPagesAreContent | src/main/java/memory/LogicalMemory.java:50-58 | all pages laid end to end are the whole content |
| PageTables.CheckPage | src/main/java/memory/PagesTable.java:40-44 | passes exactly for 0 <= p < pageCount, otherwise an argument error |
| PageTables.PagesTable.constructor | src/main/java/memory/PagesTable.java:14-20 | for a positive count, an empty table of that many pages |
| PageTables.PagesTable.Create | src/main/java/memory/PagesTable.java:14-20 | pageCount <= 0 is an argument error; otherwise an empty table of that size |
| PageTables.PagesTable.MapPageToFrame | src/main/java/memory/PagesTable.java:22-25 | range error on a bad page (frame not checked); otherwise the page now answers f, overwriting any earlier frame, and every other page answers as before |
| PageTables.PagesTable.GetPageFrame | src/main/java/memory/PagesTable.java:27-34 | argument error out of range, state error for an unmapped valid page, otherwise the mapped frame |
| PageTables.PagesTable.Size | src/main/java/memory/PagesTable.java:36-38 | the constructor's page count, whatever is mapped |
| PageTables.IndexMapSnoc | src/main/java/memory/PagesTable.java:24 | mapping the next page extends the table by that page only |
| PageTables.IndexMapAnswers | src/main/java/memory/PagesTable.java:27-34 | a table filled page by page answers each page's frame |
| Processes.Process.SizeInBytes | src/main/java/memory/Process.java:21-23 | the logical memory's size |
| Processes.Process.PageCount | src/main/java/memory/Process.java:25-27 | the logical memory's page count (not the table's size): the ceiling of size / page |
| Scenarios.ThirtyBytePages | src/test/java/memory/MemoryManagerTest.java:14-18 | 30 bytes in 16-byte pages give two pages, the second 14 bytes long |
| Scenarios.SixtyFourBytesValid | src/test/java/memory/MemoryManagerTest.java:13 | 64 bytes, 16-byte pages and a 64-byte maximum pass the constructor's checks |
| Scenarios.FourFrames | src/test/java/memory/MemoryManagerTest.java:13 | a 64/16/64 manager has four free frames queued 0..3 and no owner |
| Scenarios.FrontTwoOfFour | src/test/java/memory/MemoryManagerTest.java:28 | giving frames 0 and 1 of four free frames to pid 1 leaves owners 1, 1, -1, -1 |
| Scenarios.FreeFramesStayZero | src/main/java/memory/MemoryManager.java:82-88 | creating a 30-byte process in four 16-byte frames leaves frames 2 and 3 queued and reading as zeros |
| Scenarios.ThirtyBytesInTwoFrames | src/test/java/memory/MemoryManagerTest.java:11-30 | a 30-byte process gets frames 0 and 1, both owned by pid 1, reading back as its pages zero-padded, with 50% of memory left free |
| Scenarios.ThirtyTwoBytesValid | src/test/java/memory/MemoryManagerTest.java:34 | 32 bytes, 16-byte pages and a 32-byte maximum pass the constructor's checks |
| Scenarios.TwoFrames | src/test/java/memory/MemoryManagerTest.java:34 | a 32/16/32 manager has two free frames queued 0, 1 and no owner |
| Scenarios.SecondProcessFindsNoFrame | src/test/java/memory/MemoryManagerTest.java:32-38 | after a 32-byte process fills a 32-byte memory, a 16-byte process gets a state error and the free share is 0% |
| Scenarios.SamePidTwice | src/test/java/memory/MemoryManagerTest.java:40-46 | a second process with the same pid gets an argument error |
| Scenarios.NegativeSizeTakesNothing | src/test/java/memory/MemoryManagerTest.java:48-58 | a negative size is an argument error, all owners stay -1 and the free share stays 100 |
| Scenarios.OnePageOfFour | src/test/java/memory/MemoryManagerTest.java:60-68 | the free share is 100 at start and 75 after one page of four frames |

## Findings

| source | as written | input that shows it | evidently intended | confidence | as-written member | corrected member |
|---|---|---|---|---|---|---|
| src/main/java/memory/MemoryManager.java:84 | `createProcess` never checks the pid and stores it in `frameOwners`, where -1 also means free | `createProcess(-1, 16)` on a fresh manager: frame 0 leaves the queue but its owner reads -1 (free) | pids are never the free sentinel -1 | not executed; the command-line layer only passes positive pids | FramePool.SentinelPidBreaksOwnership | Manager.MemoryManager.CreateProcess |

`Manager.MemoryManager.CreateProcess` requires `pid != FREE`. `FramePool.TakeFront` proves that any other pid keeps the ownership invariant.

## Left out

- The command-line layer (`Main.java`) is not modelled. It is console I/O and formatting that only calls the public methods above.
- `getPhysicalMemory` and `getMaxProcessSize` are plain accessors. The fields `physicalMemory` and `maxProcessSize` are read directly instead.
- The random content of a logical memory is not modelled. `java.util.Random` fills it in the source. Here it is the `content` argument of `Logical.New` and `CreateProcess`, which must have the requested length.
- Logical.New: requires `pageSize > 0`. The source does not validate the page size. A zero page size would make `getNumberOfPages` divide by zero. The manager only ever passes a checked power of two.
- Manager.MemoryManager.CreateProcess: requires `pid != -1`. This is the finding above. The source accepts -1.
- Manager.MemoryManager.FreeMemoryPercentage: computes an exact `real` instead of a `double`. Java's floating-point rounding is not modelled.
- 32-bit overflow is not modelled: integers are unbounded. Through the manager no overflow can happen. Java's int holds powers of two up to 2^30 only, so every accepted size and page size is at most 2^30. `Manager.ManagerPageSumFitsInt` proves that `length + pageSize - 1` then stays below 2^31. Frame addresses stay below the memory size.
- Logical.LogicalMemory.NumberOfPages: gives the true ceiling where Java's int arithmetic wraps. This can only happen for a `LogicalMemory` built outside the manager. `new LogicalMemory(1073741825, 1073741824)` sums to 2^31, which wraps to -2^31, so Java returns -2 pages where the model returns 2. `new LogicalMemory(10, Integer.MAX_VALUE)` gives 0 pages in Java and 1 here.
- The `null` check of `writeFrame` is not modelled. A Dafny `seq` cannot be null.
- `ArrayDeque` is modelled as a `seq<int>` with front removal and back append.
- `LinkedHashMap` is modelled as a `map` plus a `seq` of pids in insertion order.
- `Collections.unmodifiableCollection` is modelled as a `seq` of the processes in that order.
- Manager.MemoryManager.Rollback: is never called. The loop of `CreateProcess` is proved not to fail, so the catch block cannot run. The method and `FramePool.RollbackRestoresOwnership` / `FramePool.RollbackLeaksTakenFrame` state what it would do. The leak needs a failing step, which cannot happen.
- Aliasing of the `Process` objects and page tables handed out to callers is not modelled. A caller that mutates a returned page table afterwards is outside the model. The manager's invariant speaks only of the tables it created.
