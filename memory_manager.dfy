/**
 * The memory manager: owns the physical memory, the owner of every frame
 * (FREE when nobody holds it), the FIFO queue of free frames and the
 * registry of processes, and creates processes by handing them frames.
 */
module Manager {
  import opened Common
  import opened Logical
  import opened Physical
  import opened PageTables
  import opened Processes
  import opened FramePool

  function Pow2(k: nat): (p: int)
    ensures p >= 1
  {
    if k == 0 then 1 else 2 * Pow2(k - 1)
  }

  /**
   * The source tests `value > 0 && (value & (value - 1)) == 0`, which for a
   * positive value holds exactly when one bit is set; here the same set of
   * values is described by repeated halving.
   */
  predicate IsPowerOfTwo(v: int)
    ensures IsPowerOfTwo(v) ==> v > 0 && (v % 2 == 1 ==> v == 1)
    decreases if v > 0 then v else 0
  {
    v > 0 && (v == 1 || (v % 2 == 0 && IsPowerOfTwo(v / 2)))
  }

  /** IsPowerOfTwo holds exactly of the values 2^k. */
  lemma {:induction false} PowerOfTwoMeans(v: int)
    ensures IsPowerOfTwo(v) <==> exists k: nat :: Pow2(k) == v
    decreases if v > 0 then v else 0
  {
    if IsPowerOfTwo(v) {
      if v == 1 {
        assert Pow2(0) == v;
      } else {
        PowerOfTwoMeans(v / 2);
        var k: nat :| Pow2(k) == v / 2;
        assert Pow2(k + 1) == v;
      }
    }
    if exists k: nat :: Pow2(k) == v {
      var k: nat :| Pow2(k) == v;
      if k > 0 {
        assert Pow2(k - 1) == v / 2;
        PowerOfTwoMeans(v / 2);
      }
    }
  }

  /** A power of two is a multiple of every power of two no larger than it. */
  lemma {:induction false} PowerOfTwoMultiple(a: int, b: int) returns (m: int)
    requires IsPowerOfTwo(a) && IsPowerOfTwo(b) && a <= b
    ensures b == m * a
    decreases a
  {
    if a == 1 {
      m := b;
    } else {
      m := PowerOfTwoMultiple(a / 2, b / 2);
      calc {
        b;
        2 * (b / 2);
        2 * (m * (a / 2));
        m * (2 * (a / 2));
        m * a;
      }
    }
  }

  /** A power of two divides every power of two at least as large. */
  lemma PowersOfTwoDivide(a: int, b: int)
    ensures IsPowerOfTwo(a) && IsPowerOfTwo(b) && a <= b ==> b % a == 0
  {
    if IsPowerOfTwo(a) && IsPowerOfTwo(b) && a <= b {
      var m := PowerOfTwoMultiple(a, b);
      MultipleMod(m, a);
    }
  }

  /** Doubling a power of two gives a power of two. */
  lemma {:induction false} Pow2IsPowerOfTwo(k: nat)
    ensures IsPowerOfTwo(Pow2(k))
  {
    if k > 0 {
      Pow2IsPowerOfTwo(k - 1);
      assert Pow2(k) / 2 == Pow2(k - 1);
    }
  }

  /** Exponents add when powers of two multiply. */
  lemma {:induction false} Pow2Add(a: nat, b: nat)
    ensures Pow2(a + b) == Pow2(a) * Pow2(b)
  {
    if a > 0 {
      Pow2Add(a - 1, b);
    }
  }

  /** Of two powers of two, one below twice the other is no larger than it. */
  lemma {:induction false} PowerOfTwoBelowDouble(v: int, b: int)
    requires IsPowerOfTwo(v) && IsPowerOfTwo(b) && v < 2 * b
    ensures v <= b
    decreases b
  {
    if b > 1 && v > 1 {
      PowerOfTwoBelowDouble(v / 2, b / 2);
    }
  }

  /**
   * Java's int holds powers of two up to 2^30 only, so for every size the
   * manager accepts, getNumberOfPages's sum `length + pageSize - 1` stays
   * below 2^31 and does not wrap around.
   */
  lemma ManagerPageSumFitsInt(physicalMemorySize: int, pageSize: int, maxProcessSize: int, processSize: int)
    requires CheckConfig(physicalMemorySize, pageSize, maxProcessSize) == Pass
    requires physicalMemorySize < 0x8000_0000
    requires 0 < processSize <= maxProcessSize
    ensures processSize + pageSize - 1 < 0x8000_0000
  {
    Pow2IsPowerOfTwo(30);
    assert Pow2(10) == 1024;
    Pow2Add(10, 10);
    Pow2Add(20, 10);
    PowerOfTwoBelowDouble(physicalMemorySize, 0x4000_0000);
  }

  /**
   * For two powers of two the physical memory's checks pass exactly when
   * the frame is no larger than the memory, and otherwise fail on
   * divisibility.
   */
  lemma PowerOfTwoGeometry(size: int, frameSize: int)
    requires IsPowerOfTwo(size) && IsPowerOfTwo(frameSize)
    ensures CheckGeometry(size, frameSize).Pass? <==> frameSize <= size
    ensures frameSize > size ==> CheckGeometry(size, frameSize) == Fail(IllegalArgument(SizeNotMultipleOfFrame))
  {
    if frameSize > size {
      SmallMod(size, frameSize);
    } else {
      PowersOfTwoDivide(frameSize, size);
    }
  }

  /**
   * The constructor's checks, in the source's order: both sizes powers of
   * two, then a positive maximum process size, then a maximum no larger than
   * the physical memory, then the physical memory's own checks (which, for
   * powers of two, fail only when the page is larger than the memory).
   */
  function CheckConfig(physicalMemorySize: int, pageSize: int, maxProcessSize: int): (o: Outcome)
    ensures o.Pass? <==>
      && IsPowerOfTwo(physicalMemorySize) && IsPowerOfTwo(pageSize)
      && 0 < maxProcessSize <= physicalMemorySize
      && pageSize <= physicalMemorySize
    ensures o.Fail? ==> o.error.IllegalArgument?
    ensures !IsPowerOfTwo(physicalMemorySize) || !IsPowerOfTwo(pageSize) ==>
      o == Fail(IllegalArgument(NotPowerOfTwo))
    ensures IsPowerOfTwo(physicalMemorySize) && IsPowerOfTwo(pageSize) && maxProcessSize <= 0 ==>
      o == Fail(IllegalArgument(NonPositiveMaxProcessSize))
    ensures IsPowerOfTwo(physicalMemorySize) && IsPowerOfTwo(pageSize) && maxProcessSize > physicalMemorySize ==>
      o == Fail(IllegalArgument(MaxProcessSizeTooLarge))
    ensures (IsPowerOfTwo(physicalMemorySize) && IsPowerOfTwo(pageSize) && 0 < maxProcessSize <= physicalMemorySize
      && pageSize > physicalMemorySize) ==> o == Fail(IllegalArgument(SizeNotMultipleOfFrame))
    ensures o.Pass? ==> CheckGeometry(physicalMemorySize, pageSize) == Pass
  {
    if !IsPowerOfTwo(physicalMemorySize) || !IsPowerOfTwo(pageSize) then Fail(IllegalArgument(NotPowerOfTwo))
    else if maxProcessSize <= 0 then Fail(IllegalArgument(NonPositiveMaxProcessSize))
    else if maxProcessSize > physicalMemorySize then Fail(IllegalArgument(MaxProcessSizeTooLarge))
    else
      PowerOfTwoGeometry(physicalMemorySize, pageSize);
      CheckGeometry(physicalMemorySize, pageSize)
  }

  /**
   * Page i of `lm` sits, zero padded, in frame held[i] of `mem`, for every
   * i below |held|: the round trip of createProcess once all pages are held.
   */
  ghost predicate Holds(mem: seq<byte>, lm: LogicalMemory, held: seq<int>)
    requires lm.Valid() && |held| <= lm.NumberOfPages()
  {
    forall i :: 0 <= i < |held| ==>
      IsFrame(|mem|, lm.pageSize, held[i]) && FrameOf(mem, lm.pageSize, held[i]) == Padded(lm.Page(i), lm.pageSize)
  }

  /** Loading the next page into a frame not yet used extends Holds by that frame. */
  lemma LoadStep(mem: seq<byte>, mem0: seq<byte>, count: int, lm: LogicalMemory, held: seq<int>, frame: int)
    requires lm.Valid() && |held| < lm.NumberOfPages()
    requires Unchanged(mem, mem0, lm.pageSize, count, held) && Holds(mem, lm, held)
    requires forall i :: 0 <= i < |held| ==> 0 <= held[i] < count
    requires 0 <= frame < count && frame !in held
    ensures IsFrame(|mem|, lm.pageSize, frame)
    ensures Unchanged(WithFrame(mem, lm.pageSize, frame, Padded(lm.Page(|held|), lm.pageSize)), mem0, lm.pageSize, count, held + [frame])
    ensures Holds(WithFrame(mem, lm.pageSize, frame, Padded(lm.Page(|held|), lm.pageSize)), lm, held + [frame])
  {
    var bytes := Padded(lm.Page(|held|), lm.pageSize);
    ReplaceFrame(mem, lm.pageSize, count, frame, bytes);
    var mem' := WithFrame(mem, lm.pageSize, frame, bytes);
    var held' := held + [frame];
    forall i | 0 <= i < |held'|
      ensures IsFrame(|mem'|, lm.pageSize, held'[i])
      ensures FrameOf(mem', lm.pageSize, held'[i]) == Padded(lm.Page(i), lm.pageSize)
    {
      if i < |held| {
        assert held'[i] == held[i] != frame;
      }
    }
  }

  /**
   * Process `p`, registered under `pid` with frames `fs`, is consistent
   * with memory `mem`: its table maps page i to fs[i], and frame fs[i]
   * holds its page i.
   */
  ghost predicate Loaded(p: Process, pid: int, fs: seq<int>, pageSize: int, mem: seq<byte>)
    reads p.pagesTable
  {
    && p.pid == pid
    && p.logicalMemory.Valid() && p.logicalMemory.pageSize == pageSize
    && p.pagesTable.Valid()
    && p.pagesTable.pageCount == |fs| == p.PageCount()
    && p.pagesTable.mapping == IndexMap(fs)
    && Holds(mem, p.logicalMemory, fs)
  }

  /** A loaded process stays loaded across writes that touch only frames it does not hold. */
  lemma LoadedKept(p: Process, pid: int, fs: seq<int>, pageSize: int, mem: seq<byte>, mem': seq<byte>,
                   count: int, touched: seq<int>)
    requires Loaded(p, pid, fs, pageSize, mem)
    requires forall i :: 0 <= i < |fs| ==> 0 <= fs[i] < count && fs[i] !in touched
    requires Unchanged(mem', mem, pageSize, count, touched)
    ensures Loaded(p, pid, fs, pageSize, mem')
  {
  }

  /** Through readFrame, each frame of a loaded process reads as its page, zero padded. */
  lemma LoadedReads(pm: PhysicalMemory, p: Process, fs: seq<int>)
    requires pm.Valid() && Loaded(p, p.pid, fs, pm.frameSize, pm.buffer[..])
    requires forall i :: 0 <= i < |fs| ==> 0 <= fs[i] < pm.NumberOfFrames()
    ensures forall i :: 0 <= i < p.PageCount() ==>
      pm.ReadFrame(fs[i]) == Ok(Padded(p.logicalMemory.Page(i), pm.frameSize))
  {
  }

  /** The page tables of the processes in `ps`. */
  ghost function Tables(ps: map<int, Process>): set<PagesTable>
  {
    set q | q in ps :: ps[q].pagesTable
  }

  /** Every process in `ps` is loaded with its frames in `fr`. */
  ghost predicate AllLoaded(ps: map<int, Process>, fr: map<int, seq<int>>, pageSize: int, mem: seq<byte>)
    reads Tables(ps)
  {
    forall q | q in ps :: q in fr && Loaded(ps[q], q, fr[q], pageSize, mem)
  }

  /** Writes to frames nobody holds keep every process loaded. */
  lemma AllLoadedKept(ps: map<int, Process>, fr: map<int, seq<int>>, pageSize: int, mem: seq<byte>, mem': seq<byte>,
                      count: int, touched: seq<int>)
    requires AllLoaded(ps, fr, pageSize, mem)
    requires forall q, i | q in fr && 0 <= i < |fr[q]| :: 0 <= fr[q][i] < count && fr[q][i] !in touched
    requires Unchanged(mem', mem, pageSize, count, touched)
    ensures AllLoaded(ps, fr, pageSize, mem')
  {
    forall q | q in ps
      ensures Loaded(ps[q], q, fr[q], pageSize, mem')
    {
      LoadedKept(ps[q], q, fr[q], pageSize, mem, mem', count, touched);
    }
  }

  /** The total page count of the processes in `order`. */
  function PageTotal(order: seq<int>, processes: map<int, Process>): (n: int)
    requires forall i :: 0 <= i < |order| ==> order[i] in processes && processes[order[i]].logicalMemory.Valid()
    decreases |order|
  {
    if order == [] then 0
    else PageTotal(order[..|order| - 1], processes) + processes[order[|order| - 1]].PageCount()
  }

  /** When each process holds one frame per page, the held frames are its pages. */
  lemma {:induction false} PageTotalIsAllocated(order: seq<int>, processes: map<int, Process>, frames: map<int, seq<int>>)
    requires forall i :: 0 <= i < |order| ==> order[i] in processes && processes[order[i]].logicalMemory.Valid()
    requires forall i :: 0 <= i < |order| ==> order[i] in frames
    requires forall i :: 0 <= i < |order| ==> |frames[order[i]]| == processes[order[i]].PageCount()
    ensures PageTotal(order, processes) == Allocated(order, frames)
    decreases |order|
  {
    if order != [] {
      PageTotalIsAllocated(order[..|order| - 1], processes, frames);
    }
  }

  class MemoryManager {
    const physicalMemory: PhysicalMemory
    const pageSize: int
    const maxProcessSize: int
    /** frameOwners[f] is the pid holding frame f, or FREE. */
    const frameOwners: array<int>
    /** The registry, and the order in which its pids were registered. */
    var processes: map<int, Process>
    var order: seq<int>
    /** Free frames, taken from the front and returned to the back. */
    var freeFrames: seq<int>
    /** The frames of each registered process, in page order. */
    ghost var frames: map<int, seq<int>>
    ghost var Repr: set<object>

    /** The fixed shape: frames are pages, one owner slot per frame. */
    ghost predicate Geometry()
    {
      && physicalMemory.Valid()
      && physicalMemory.frameSize == pageSize
      && frameOwners.Length == physicalMemory.NumberOfFrames()
    }

    /** Process `pid` is registered consistently: its table maps page i to frames[pid][i], which holds page i. */
    ghost predicate Registered(pid: int)
      reads this, Repr
      requires Geometry() && physicalMemory.buffer in Repr && pid in processes && pid in frames
    {
      processes[pid].pagesTable in Repr
      && Loaded(processes[pid], pid, frames[pid], pageSize, physicalMemory.buffer[..])
    }

    ghost predicate Valid()
      reads this, Repr
    {
      && this in Repr && physicalMemory in Repr && physicalMemory.buffer in Repr && frameOwners in Repr
      && Geometry()
      && 0 < maxProcessSize <= physicalMemory.TotalSize()
      && processes.Keys == frames.Keys
      && (forall pid :: pid in processes ==> Registered(pid))
      && Owned(frameOwners[..], freeFrames, frames, order)
    }

    /**
     * A manager for a valid configuration: physical memory of
     * physicalMemorySize zero bytes in frames of pageSize bytes, every frame
     * free and queued in ascending order, no process.
     */
    constructor (physicalMemorySize: int, pageSize: int, maxProcessSize: int)
      requires CheckConfig(physicalMemorySize, pageSize, maxProcessSize) == Pass
      ensures Valid() && fresh(Repr)
      ensures this.pageSize == pageSize && this.maxProcessSize == maxProcessSize
      ensures physicalMemory.TotalSize() == physicalMemorySize
      ensures physicalMemory.buffer[..] == Zeros(physicalMemorySize)
      ensures frameOwners[..] == seq(physicalMemory.NumberOfFrames(), _ => FREE)
      ensures freeFrames == Ascending(physicalMemory.NumberOfFrames())
      ensures processes == map[] && order == []
    {
      var memory := new PhysicalMemory(physicalMemorySize, pageSize);
      physicalMemory := memory;
      this.pageSize := pageSize;
      this.maxProcessSize := maxProcessSize;
      frameOwners := new int[memory.NumberOfFrames()](_ => FREE);
      processes := map[];
      order := [];
      freeFrames := [];
      frames := map[];
      new;
      InitializeFreeFrames();
      Repr := {this, physicalMemory, physicalMemory.buffer, frameOwners};
      InitiallyOwned(physicalMemory.NumberOfFrames());
      assert frameOwners[..] == seq(physicalMemory.NumberOfFrames(), _ => FREE);
    }

    /** The throwing constructor: the first failed check, or a fresh manager. */
    static method Create(physicalMemorySize: int, pageSize: int, maxProcessSize: int) returns (r: Result<MemoryManager>)
      ensures r.Err? <==> CheckConfig(physicalMemorySize, pageSize, maxProcessSize).Fail?
      ensures r.Err? ==> r.error == CheckConfig(physicalMemorySize, pageSize, maxProcessSize).error
      ensures r.Ok? ==> fresh(r.value.Repr) && r.value.Valid()
      ensures r.Ok? ==> r.value.processes == map[] && r.value.freeFrames == Ascending(r.value.frameOwners.Length)
      ensures r.Ok? ==> r.value.frameOwners[..] == seq(r.value.frameOwners.Length, _ => FREE)
      ensures r.Ok? ==> r.value.pageSize == pageSize && r.value.maxProcessSize == maxProcessSize
      ensures r.Ok? ==> r.value.physicalMemory.TotalSize() == physicalMemorySize
      ensures r.Ok? ==> r.value.physicalMemory.buffer[..] == Zeros(physicalMemorySize)
      ensures r.Ok? ==> r.value.frameOwners.Length == physicalMemorySize / pageSize
    {
      var check := CheckConfig(physicalMemorySize, pageSize, maxProcessSize);
      if check.Fail? {
        return Err(check.error);
      }
      var manager := new MemoryManager(physicalMemorySize, pageSize, maxProcessSize);
      r := Ok(manager);
    }

    /** Appends every frame index, in ascending order, to the free queue. */
    method InitializeFreeFrames()
      requires physicalMemory.Valid()
      modifies this`freeFrames
      ensures freeFrames == old(freeFrames) + Ascending(physicalMemory.NumberOfFrames())
    {
      var i := 0;
      while i < physicalMemory.NumberOfFrames()
        invariant 0 <= i <= physicalMemory.NumberOfFrames()
        invariant freeFrames == old(freeFrames) + Ascending(i)
      {
        assert Ascending(i + 1) == Ascending(i) + [i];
        freeFrames := freeFrames + [i];
        i := i + 1;
      }
    }

    /**
     * The checks of createProcess before any frame is touched, in order:
     * duplicate pid and size out of (0, maxProcessSize] are argument errors,
     * too few free frames for the pages is a state error.
     */
    function Admission(pid: int, processSize: int): (o: Outcome)
      reads this
      requires pageSize > 0
      ensures o.Pass? <==>
        pid !in processes && 0 < processSize <= maxProcessSize && CeilDiv(processSize, pageSize) <= |freeFrames|
      ensures o.Fail? ==> (o.error.IllegalState? <==> pid !in processes && 0 < processSize <= maxProcessSize)
      ensures pid in processes ==> o == Fail(IllegalArgument(DuplicatePid))
      ensures pid !in processes && processSize <= 0 ==> o == Fail(IllegalArgument(NonPositiveProcessSize))
      ensures pid !in processes && 0 < processSize && processSize > maxProcessSize ==>
        o == Fail(IllegalArgument(ProcessSizeTooLarge))
      ensures o.Fail? && o.error.IllegalState? ==> o.error.reason == NotEnoughFrames
    {
      if pid in processes then Fail(IllegalArgument(DuplicatePid))
      else if processSize <= 0 then Fail(IllegalArgument(NonPositiveProcessSize))
      else if processSize > maxProcessSize then Fail(IllegalArgument(ProcessSizeTooLarge))
      else if |freeFrames| < CeilDiv(processSize, pageSize) then Fail(IllegalState(NotEnoughFrames))
      else Pass
    }

    /**
     * Creates and registers process `pid` of processSize bytes holding
     * `content`. On any failed check nothing changes. On success page i is
     * copied, zero padded, into the i-th frame taken from the front of the
     * free queue, which now belongs to pid, and the process is registered
     * last.
     */
    method CreateProcess(pid: int, processSize: int, content: seq<byte>) returns (r: Result<Process>)
      requires Valid()
      requires pid != FREE
      requires processSize > 0 ==> |content| == processSize
      modifies this, frameOwners, physicalMemory.buffer
      ensures Valid() && fresh(Repr - old(Repr))
      ensures r.Err? <==> old(Admission(pid, processSize)).Fail?
      ensures r.Err? ==> r.error == old(Admission(pid, processSize)).error
      ensures r.Err? ==>
        && processes == old(processes) && order == old(order) && frames == old(frames)
        && freeFrames == old(freeFrames)
        && frameOwners[..] == old(frameOwners[..])
        && physicalMemory.buffer[..] == old(physicalMemory.buffer[..])
      ensures r.Ok? ==>
        var k := CeilDiv(processSize, pageSize);
        var taken := old(freeFrames)[..k];
        && r.value.pid == pid && r.value.logicalMemory == LogicalMemory(content, pageSize)
        && r.value.PageCount() == k
        && fresh(r.value.pagesTable) && r.value.pagesTable.pageCount == k
        && r.value.pagesTable.mapping == IndexMap(taken)
        && freeFrames == old(freeFrames)[k..]
        && frameOwners[..] == Assign(old(frameOwners[..]), taken, pid)
        && processes == old(processes)[pid := r.value]
        && order == old(order) + [pid]
        && frames == old(frames)[pid := taken]
      ensures r.Ok? ==>
        forall i :: 0 <= i < r.value.PageCount() ==>
          physicalMemory.ReadFrame(frames[pid][i]) == Ok(Padded(r.value.logicalMemory.Page(i), pageSize))
      ensures r.Ok? ==>
        Unchanged(physicalMemory.buffer[..], old(physicalMemory.buffer[..]), pageSize, frameOwners.Length,
                  old(freeFrames)[..CeilDiv(processSize, pageSize)])
    {
      if pid in processes {
        return Err(IllegalArgument(DuplicatePid));
      }
      if processSize <= 0 {
        return Err(IllegalArgument(NonPositiveProcessSize));
      }
      if processSize > maxProcessSize {
        return Err(IllegalArgument(ProcessSizeTooLarge));
      }
      var created := Logical.New(processSize, pageSize, content);
      var logicalMemory := created.value;
      var pagesNeeded := logicalMemory.NumberOfPages();
      if |freeFrames| < pagesNeeded {
        return Err(IllegalState(NotEnoughFrames));
      }
      var process := AddProcess(pid, logicalMemory);
      r := Ok(process);
    }

    /**
     * The part of createProcess after its checks: a fresh page table, the
     * allocation loop, and the registration of the new process last in
     * order.
     */
    method AddProcess(pid: int, lm: LogicalMemory) returns (process: Process)
      requires Valid() && pid != FREE && pid !in processes
      requires lm.Valid() && lm.pageSize == pageSize && lm.NumberOfPages() <= |freeFrames|
      modifies this, frameOwners, physicalMemory.buffer
      ensures Valid() && fresh(Repr - old(Repr))
      ensures
        var k := lm.NumberOfPages();
        var taken := old(freeFrames)[..k];
        && process.pid == pid && process.logicalMemory == lm
        && fresh(process.pagesTable) && process.pagesTable.pageCount == k
        && process.pagesTable.mapping == IndexMap(taken)
        && freeFrames == old(freeFrames)[k..]
        && frameOwners[..] == Assign(old(frameOwners[..]), taken, pid)
        && processes == old(processes)[pid := process]
        && order == old(order) + [pid]
        && frames == old(frames)[pid := taken]
      ensures forall i :: 0 <= i < process.PageCount() ==>
        physicalMemory.ReadFrame(frames[pid][i]) == Ok(Padded(lm.Page(i), pageSize))
      ensures Unchanged(physicalMemory.buffer[..], old(physicalMemory.buffer[..]), pageSize, frameOwners.Length,
                        old(freeFrames)[..lm.NumberOfPages()])
    {
      var pagesNeeded := lm.NumberOfPages();
      var tableResult := PagesTable.Create(pagesNeeded);
      var table := tableResult.value;

      assert Tables(processes) <= Repr;
      assert AllLoaded(processes, frames, pageSize, physicalMemory.buffer[..]);
      var held := LoadProcess(pid, lm, table);
      process := Process(pid, lm, table);
      Register(process, held, old(physicalMemory.buffer[..]));
      LoadedReads(physicalMemory, process, held);
    }

    /**
     * The allocation loop of createProcess seen from the registry: the new
     * pid's frames are the first pages-many queued frames, loaded with its
     * pages, and every registered process stays as it was.
     */
    method LoadProcess(pid: int, lm: LogicalMemory, table: PagesTable) returns (held: seq<int>)
      requires Geometry()
      requires pid != FREE && pid !in frames
      requires AllLoaded(processes, frames, pageSize, physicalMemory.buffer[..])
      requires Owned(frameOwners[..], freeFrames, frames, order)
      requires lm.Valid() && lm.pageSize == pageSize && lm.NumberOfPages() <= |freeFrames|
      requires table !in Tables(processes)
      requires table.Valid() && table.pageCount == lm.NumberOfPages() && table.mapping == map[]
      modifies this`freeFrames, frameOwners, physicalMemory.buffer, table`mapping
      ensures held == old(freeFrames)[..lm.NumberOfPages()] && freeFrames == old(freeFrames)[lm.NumberOfPages()..]
      ensures frameOwners[..] == Assign(old(frameOwners[..]), held, pid)
      ensures table.Valid() && table.mapping == IndexMap(held)
      ensures Holds(physicalMemory.buffer[..], lm, held)
      ensures Unchanged(physicalMemory.buffer[..], old(physicalMemory.buffer[..]), pageSize, frameOwners.Length, held)
      ensures AllLoaded(processes, frames, pageSize, physicalMemory.buffer[..])
      ensures Owned(frameOwners[..], freeFrames, frames[pid := held], order + [pid])
    {
      ghost var mem0 := physicalMemory.buffer[..];
      held := AllocatePages(pid, lm, table);
      assert AllLoaded(processes, frames, pageSize, mem0);
      TakeFront(old(frameOwners[..]), old(freeFrames), frames, order, pid, lm.NumberOfPages());
      HeldFramesNotQueued(old(frameOwners[..]), old(freeFrames), frames, order, lm.NumberOfPages());
      AllLoadedKept(processes, frames, pageSize, mem0, physicalMemory.buffer[..], frameOwners.Length, held);
    }

    /**
     * The registration step of createProcess: `process`, whose frames
     * `held` are already loaded, owned and queued no more, is added to the
     * registry, last in order.
     */
    method Register(process: Process, held: seq<int>, ghost mem0: seq<byte>)
      requires this in Repr && physicalMemory in Repr && physicalMemory.buffer in Repr && frameOwners in Repr
      requires Geometry() && 0 < maxProcessSize <= physicalMemory.TotalSize()
      requires processes.Keys == frames.Keys && process.pid !in processes
      requires Tables(processes) <= Repr && AllLoaded(processes, frames, pageSize, physicalMemory.buffer[..])
      requires Owned(frameOwners[..], freeFrames, frames[process.pid := held], order + [process.pid])
      requires Loaded(process, process.pid, held, pageSize, physicalMemory.buffer[..])
      requires Unchanged(physicalMemory.buffer[..], mem0, pageSize, frameOwners.Length, held)
      modifies this`processes, this`order, this`frames, this`Repr
      ensures Unchanged(physicalMemory.buffer[..], mem0, pageSize, frameOwners.Length, held)
      ensures Valid() && Repr == old(Repr) + {process.pagesTable}
      ensures processes == old(processes)[process.pid := process]
      ensures order == old(order) + [process.pid]
      ensures frames == old(frames)[process.pid := held]
    {
      processes := processes[process.pid := process];
      order := order + [process.pid];
      frames := frames[process.pid := held];
      Repr := Repr + {process.pagesTable};
      forall q | q in processes
        ensures Registered(q)
      {
        if q != process.pid {
          assert old(processes[q].pagesTable) in old(Tables(processes));
        }
      }
    }

    /**
     * The allocation loop of createProcess: for each page in order, take a
     * frame (AllocateFrame) and record it in the page table. The frames taken
     * are the first pages-many of the free queue; the frames not taken keep
     * their bytes.
     */
    method AllocatePages(pid: int, lm: LogicalMemory, table: PagesTable) returns (held: seq<int>)
      requires Geometry()
      requires lm.Valid() && lm.pageSize == pageSize
      requires table.Valid() && table.pageCount == lm.NumberOfPages() && table.mapping == map[]
      requires lm.NumberOfPages() <= |freeFrames| && NoDup(freeFrames)
      requires forall i :: 0 <= i < |freeFrames| ==> 0 <= freeFrames[i] < frameOwners.Length
      modifies this`freeFrames, frameOwners, physicalMemory.buffer, table`mapping
      ensures held == old(freeFrames)[..lm.NumberOfPages()] && freeFrames == old(freeFrames)[lm.NumberOfPages()..]
      ensures frameOwners[..] == Assign(old(frameOwners[..]), held, pid)
      ensures table.Valid() && table.mapping == IndexMap(held)
      ensures Holds(physicalMemory.buffer[..], lm, held)
      ensures Unchanged(physicalMemory.buffer[..], old(physicalMemory.buffer[..]), pageSize, frameOwners.Length, held)
    {
      ghost var queue, owners := freeFrames, frameOwners[..];
      ghost var mem0 := physicalMemory.buffer[..];
      NothingChanged(mem0, pageSize, frameOwners.Length);
      held := [];
      var page := 0;
      while page < lm.NumberOfPages()
        invariant page == |held| && Loading(pid, lm, table, held, mem0, queue, owners)
      {
        var frame := LoadNextPage(pid, lm, table, held, mem0, queue, owners);
        held := held + [frame];
        page := page + 1;
      }
    }

    /**
     * The state of the allocation loop once the frames `held` are taken:
     * they are the front of the queue as it was (`queue`), they belong to
     * pid, the table maps each page to its frame, each frame holds its page,
     * and the other frames of `mem0` are untouched.
     */
    ghost predicate Loading(pid: int, lm: LogicalMemory, table: PagesTable, held: seq<int>, mem0: seq<byte>,
                            queue: seq<int>, owners: seq<int>)
      reads this, frameOwners, physicalMemory.buffer, table
    {
      && lm.Valid() && lm.pageSize == pageSize && |held| <= lm.NumberOfPages() <= |queue|
      && NoDup(queue) && (forall i :: 0 <= i < |queue| ==> 0 <= queue[i] < frameOwners.Length)
      && held == queue[..|held|] && freeFrames == queue[|held|..]
      && |owners| == frameOwners.Length && frameOwners[..] == Assign(owners, held, pid)
      && table.Valid() && table.pageCount == lm.NumberOfPages() && table.mapping == IndexMap(held)
      && Holds(physicalMemory.buffer[..], lm, held)
      && Unchanged(physicalMemory.buffer[..], mem0, pageSize, frameOwners.Length, held)
    }

    /**
     * The body of the allocation loop: page |held| goes into the front free
     * frame (AllocateFrame) and the page table records it.
     */
    method LoadNextPage(pid: int, lm: LogicalMemory, table: PagesTable, held: seq<int>,
                        ghost mem0: seq<byte>, ghost queue: seq<int>, ghost owners: seq<int>)
      returns (frame: int)
      requires Geometry()
      requires Loading(pid, lm, table, held, mem0, queue, owners) && |held| < lm.NumberOfPages()
      modifies this`freeFrames, frameOwners, physicalMemory.buffer, table`mapping
      ensures frame == queue[|held|]
      ensures Loading(pid, lm, table, held + [frame], mem0, queue, owners)
    {
      NextNotTaken(queue, |held|);
      ghost var before := physicalMemory.buffer[..];
      frame := AllocateFrame(pid, lm, |held|);
      LoadStep(before, mem0, frameOwners.Length, lm, held, frame);
      var mapped := table.MapPageToFrame(|held|, frame);
      assert mapped.Pass?;
      IndexMapSnoc(held, frame);
      AssignSnoc(owners, held, frame, pid);
    }

    /**
     * One step of the allocation loop: take the front free frame, give it to
     * pid, copy page `page` into it. The caller guarantees a free frame, so
     * the queue's removeFirst never fails; the page read and the frame write
     * cannot fail either (the page index is in range, a page is never longer
     * than a frame, and queued frames are valid indices).
     */
    method AllocateFrame(pid: int, lm: LogicalMemory, page: int) returns (frame: int)
      requires Geometry()
      requires freeFrames != [] && 0 <= freeFrames[0] < frameOwners.Length
      requires lm.Valid() && lm.pageSize == pageSize && 0 <= page < lm.NumberOfPages()
      modifies this`freeFrames, frameOwners, physicalMemory.buffer
      ensures frame == old(freeFrames[0]) && freeFrames == old(freeFrames[1..])
      ensures frameOwners[..] == old(frameOwners[..])[frame := pid]
      ensures IsFrame(physicalMemory.buffer.Length, pageSize, frame)
      ensures physicalMemory.buffer[..] ==
        WithFrame(old(physicalMemory.buffer[..]), pageSize, frame, Padded(lm.Page(page), pageSize))
    {
      frame := freeFrames[0];
      freeFrames := freeFrames[1..];
      frameOwners[frame] := pid;
      var pageData := lm.ReadPage(page);
      assert pageData.Ok?;
      var written := physicalMemory.WriteFrame(frame, pageData.value);
      assert written.Pass?;
    }

    /** Gives frame f back: owner FREE, bytes zeroed, appended to the back of the free queue. */
    method ReleaseFrame(f: int)
      requires Geometry() && 0 <= f < frameOwners.Length
      modifies this`freeFrames, frameOwners, physicalMemory.buffer
      ensures frameOwners[..] == old(frameOwners[..])[f := FREE]
      ensures IsFrame(physicalMemory.buffer.Length, pageSize, f)
      ensures physicalMemory.buffer[..] == WithFrame(old(physicalMemory.buffer[..]), pageSize, f, Zeros(pageSize))
      ensures freeFrames == old(freeFrames) + [f]
    {
      frameOwners[f] := FREE;
      var cleared := physicalMemory.ClearFrame(f);
      assert cleared.Pass?;
      freeFrames := freeFrames + [f];
    }

    /**
     * The error path of createProcess: release, in order, every frame the
     * loop had recorded. CreateProcess never takes this path (each step of
     * its loop is proved to succeed); RollbackRestoresOwnership and
     * RollbackLeaksTakenFrame say what it would leave behind.
     */
    method Rollback(held: seq<int>)
      requires Geometry()
      requires forall i :: 0 <= i < |held| ==> 0 <= held[i] < frameOwners.Length
      modifies this`freeFrames, frameOwners, physicalMemory.buffer
      ensures freeFrames == old(freeFrames) + held
      ensures frameOwners[..] == Assign(old(frameOwners[..]), held, FREE)
      ensures Zeroed(physicalMemory.buffer[..], pageSize, held)
      ensures Unchanged(physicalMemory.buffer[..], old(physicalMemory.buffer[..]), pageSize, frameOwners.Length, held)
    {
      ghost var queue, owners := freeFrames, frameOwners[..];
      ghost var mem0 := physicalMemory.buffer[..];
      NothingChanged(mem0, pageSize, frameOwners.Length);
      for i := 0 to |held|
        invariant Releasing(held[..i], mem0, queue, owners)
      {
        assert held[..i + 1] == held[..i] + [held[i]];
        ReleaseNext(held[i], held[..i], mem0, queue, owners);
      }
      assert held[..|held|] == held;
    }

    /**
     * The state of the rollback loop once the frames `released` are given
     * back: appended to the queue as it was (`queue`), recorded FREE, zeroed,
     * and the other frames of `mem0` untouched.
     */
    ghost predicate Releasing(released: seq<int>, mem0: seq<byte>, queue: seq<int>, owners: seq<int>)
      reads this, frameOwners, physicalMemory.buffer
    {
      && (forall j :: 0 <= j < |released| ==> 0 <= released[j] < frameOwners.Length)
      && freeFrames == queue + released
      && |owners| == frameOwners.Length && frameOwners[..] == Assign(owners, released, FREE)
      && Zeroed(physicalMemory.buffer[..], pageSize, released)
      && Unchanged(physicalMemory.buffer[..], mem0, pageSize, frameOwners.Length, released)
    }

    /** The body of the rollback loop: frame f is released after `released`. */
    method ReleaseNext(f: int, released: seq<int>, ghost mem0: seq<byte>, ghost queue: seq<int>, ghost owners: seq<int>)
      requires Geometry() && 0 <= f < frameOwners.Length
      requires Releasing(released, mem0, queue, owners)
      modifies this`freeFrames, frameOwners, physicalMemory.buffer
      ensures Releasing(released + [f], mem0, queue, owners)
    {
      ghost var before := physicalMemory.buffer[..];
      ReleaseFrame(f);
      ZeroStep(before, mem0, pageSize, frameOwners.Length, released, f);
      AssignSnoc(owners, released, f, FREE);
      assert freeFrames == queue + (released + [f]);
    }

    /** The registered process with this pid, if any; nothing changes. */
    function FindProcess(pid: int): (r: Option<Process>)
      reads this, Repr
      requires Valid()
      ensures r.Some? <==> pid in processes
      ensures r.Some? ==> r.value == processes[pid] && r.value.pid == pid
    {
      if pid in processes then Some(processes[pid]) else None
    }

    /** Every registered process, once, in registration order. */
    function ListProcesses(): (ps: seq<Process>)
      reads this, Repr
      requires Valid()
      ensures |ps| == |order|
      ensures forall i :: 0 <= i < |ps| ==> order[i] in processes && ps[i] == processes[order[i]] && ps[i].pid == order[i]
      ensures forall pid :: pid in processes ==> exists i :: 0 <= i < |ps| && ps[i].pid == pid
    {
      assert forall i :: 0 <= i < |order| ==> order[i] in frames;
      ProcessesIn(order, processes)
    }

    /** The owner of frame f (FREE when free), or an argument error for an index out of range. */
    function GetFrameOwner(f: int): (r: Result<int>)
      reads frameOwners
      ensures r.Ok? <==> 0 <= f < frameOwners.Length
      ensures r.Err? ==> r.error == IllegalArgument(InvalidFrameNumber)
      ensures r.Ok? ==> r.value == frameOwners[f]
    {
      if f < 0 || f >= frameOwners.Length then Err(IllegalArgument(InvalidFrameNumber))
      else Ok(frameOwners[f])
    }

    /**
     * The share of physical memory that is free, in percent: free bytes
     * (free frames times page size) over total bytes; 0 for an empty memory.
     */
    function FreeMemoryPercentage(): (pct: real)
      reads this
      ensures physicalMemory.TotalSize() == 0 ==> pct == 0.0
      ensures physicalMemory.TotalSize() != 0 ==>
        pct * physicalMemory.TotalSize() as real == (|freeFrames| * pageSize) as real * 100.0
    {
      if physicalMemory.TotalSize() == 0 then 0.0
      else ((|freeFrames| * pageSize) as real * 100.0) / physicalMemory.TotalSize() as real
    }
  }

  /** The processes registered under `pids`, in that order. */
  function ProcessesIn(pids: seq<int>, processes: map<int, Process>): (ps: seq<Process>)
    requires forall i :: 0 <= i < |pids| ==> pids[i] in processes
    ensures |ps| == |pids|
    ensures forall i :: 0 <= i < |pids| ==> ps[i] == processes[pids[i]]
  {
    seq(|pids|, i requires 0 <= i < |pids| => processes[pids[i]])
  }

  /** Every registered process holds at least one page. */
  lemma {:induction false} PageTotalAtLeastCount(order: seq<int>, processes: map<int, Process>)
    requires forall i :: 0 <= i < |order| ==> order[i] in processes && processes[order[i]].logicalMemory.Valid()
    ensures PageTotal(order, processes) >= |order|
    decreases |order|
  {
    if order != [] {
      PageTotalAtLeastCount(order[..|order| - 1], processes);
    }
  }

  /** Capacity is conserved: free frames plus the pages of all registered processes are all the frames. */
  lemma CapacityConserved(m: MemoryManager)
    requires m.Valid()
    ensures forall i :: 0 <= i < |m.order| ==>
      m.order[i] in m.processes && m.processes[m.order[i]].logicalMemory.Valid()
    ensures |m.freeFrames| + PageTotal(m.order, m.processes) == m.frameOwners.Length
  {
    forall i | 0 <= i < |m.order|
      ensures m.order[i] in m.processes && m.order[i] in m.frames
      ensures m.processes[m.order[i]].logicalMemory.Valid()
      ensures |m.frames[m.order[i]]| == m.processes[m.order[i]].PageCount()
    {
      assert m.order[i] in m.frames;
      assert m.Registered(m.order[i]);
    }
    PageTotalIsAllocated(m.order, m.processes, m.frames);
  }

  /**
   * Ownership is exclusive: two different registered processes never map
   * pages to the same frame, and each mapped frame is owned by its process.
   */
  lemma OwnershipExclusive(m: MemoryManager, p: int, i: int, q: int, j: int)
    requires m.Valid()
    requires p in m.processes && 0 <= i < m.processes[p].PageCount()
    requires q in m.processes && 0 <= j < m.processes[q].PageCount()
    requires p != q
    ensures m.processes[p].pagesTable.GetPageFrame(i).Ok?
    ensures m.processes[q].pagesTable.GetPageFrame(j).Ok?
    ensures m.processes[p].pagesTable.GetPageFrame(i).value != m.processes[q].pagesTable.GetPageFrame(j).value
    ensures m.GetFrameOwner(m.processes[p].pagesTable.GetPageFrame(i).value) == Ok(p)
  {
    assert m.Registered(p) && m.Registered(q);
    Exclusive(m.frameOwners[..], m.freeFrames, m.frames, m.order, p, i, q, j);
  }

  /**
   * The round trip of createProcess, for every registered process and
   * page: the page table gives a frame, the frame reads back as the page
   * followed by zeros up to the page size, and its owner is the process.
   */
  lemma PageRoundTrip(m: MemoryManager, pid: int, i: int)
    requires m.Valid() && pid in m.processes && 0 <= i < m.processes[pid].PageCount()
    ensures
      var p := m.processes[pid];
      var frame := p.pagesTable.GetPageFrame(i);
      && frame.Ok?
      && p.logicalMemory.ReadPage(i).Ok?
      && m.physicalMemory.ReadFrame(frame.value) == Ok(Padded(p.logicalMemory.ReadPage(i).value, m.pageSize))
      && m.GetFrameOwner(frame.value) == Ok(pid)
  {
    assert m.Registered(pid);
    var f := m.frames[pid][i];
    assert 0 <= f < m.frameOwners.Length && m.frameOwners[..][f] == pid;
  }

  /** A share of free out of n units, in percent, lies in [0, 100] and is 100 only when all are free. */
  lemma ShareBounds(free: int, n: int, unit: int, total: int, pct: real)
    requires 0 <= free <= n && 0 < n && 0 < unit && total == n * unit
    requires pct * total as real == (free * unit) as real * 100.0
    ensures 0.0 <= pct <= 100.0
    ensures pct == 100.0 <==> free == n
  {
    var N, F, U := n as real, free as real, unit as real;
    assert (n * unit) as real == N * U;
    assert (free * unit) as real == F * U;
    assert (pct * N - F * 100.0) * U == 0.0;
  }

  /** The registry is empty exactly when the registration order is. */
  lemma NoProcessesNoOrder(m: MemoryManager)
    requires m.Valid()
    ensures m.processes == map[] <==> m.order == []
  {
    if m.order != [] {
      assert m.order[0] in m.frames;
    }
    if m.order == [] {
      assert forall pid :: pid !in m.frames;
      assert m.processes.Keys == {};
    }
  }

  /**
   * All frames are free exactly when no process is registered, and the
   * memory's size is the frame count times the page size.
   */
  lemma FreeCount(m: MemoryManager)
    requires m.Valid()
    ensures 0 <= |m.freeFrames| <= m.frameOwners.Length && 0 < m.frameOwners.Length && 0 < m.pageSize
    ensures m.physicalMemory.TotalSize() == m.frameOwners.Length * m.pageSize
    ensures |m.freeFrames| == m.frameOwners.Length <==> m.processes == map[]
  {
    CapacityConserved(m);
    var held := PageTotal(m.order, m.processes);
    PageTotalAtLeastCount(m.order, m.processes);
    assert m.order == [] ==> held == 0;
    NoProcessesNoOrder(m);
  }

  /** The free share of a manager whose frame counts are as FreeCount states them. */
  lemma ShareOfFreeFrames(m: MemoryManager)
    requires 0 <= |m.freeFrames| <= m.frameOwners.Length && 0 < m.frameOwners.Length && 0 < m.pageSize
    requires m.physicalMemory.TotalSize() == m.frameOwners.Length * m.pageSize
    ensures 0.0 <= m.FreeMemoryPercentage() <= 100.0
    ensures m.FreeMemoryPercentage() == 100.0 <==> |m.freeFrames| == m.frameOwners.Length
  {
    var total, pct := m.physicalMemory.TotalSize(), m.FreeMemoryPercentage();
    ShareBounds(|m.freeFrames|, m.frameOwners.Length, m.pageSize, total, pct);
  }

  /**
   * The free share lies between 0 and 100 percent, and is 100 percent
   * exactly when no process is registered.
   */
  lemma FreeShareBounds(m: MemoryManager)
    requires m.Valid()
    ensures 0.0 <= m.FreeMemoryPercentage() <= 100.0
    ensures m.FreeMemoryPercentage() == 100.0 <==> m.processes == map[]
  {
    FreeCount(m);
    ShareOfFreeFrames(m);
  }
}
