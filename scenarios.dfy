/**
 * Concrete runs of the manager, one per situation the unit tests of the
 * original check: the outcome of each step is stated, not just its
 * validity.
 */
module Scenarios {
  import opened Common
  import opened Logical
  import opened Physical
  import opened PageTables
  import opened Processes
  import opened FramePool
  import opened Manager

  /** 64 bytes in 16-byte frames, processes up to 64 bytes: a valid configuration. */
  lemma SixtyFourBytesValid()
    ensures CheckConfig(64, 16, 64) == Pass
  {
    assert IsPowerOfTwo(1) && IsPowerOfTwo(2) && IsPowerOfTwo(4) && IsPowerOfTwo(8);
    assert IsPowerOfTwo(16) && IsPowerOfTwo(32) && IsPowerOfTwo(64);
  }

  /** A manager of 64 bytes in four 16-byte frames, as the tests build it. */
  method FourFrames() returns (m: MemoryManager)
    ensures m.Valid() && fresh(m.Repr) && m.pageSize == 16 && m.maxProcessSize == 64
    ensures m.frameOwners.Length == 4 && m.freeFrames == [0, 1, 2, 3]
    ensures m.frameOwners[..] == [FREE, FREE, FREE, FREE]
    ensures m.processes == map[] && m.order == []
    ensures m.physicalMemory.buffer[..] == Zeros(64)
  {
    SixtyFourBytesValid();
    m := new MemoryManager(64, 16, 64);
    assert m.physicalMemory.NumberOfFrames() == 4;
  }

  /** 30 bytes in 16-byte pages: a full first page and a 14-byte second page. */
  lemma ThirtyBytePages(content: seq<byte>)
    requires |content| == 30
    ensures LogicalMemory(content, 16).Valid() && LogicalMemory(content, 16).NumberOfPages() == 2
    ensures Padded(LogicalMemory(content, 16).Page(0), 16) == content[..16]
    ensures Padded(LogicalMemory(content, 16).Page(1), 16) == content[16..] + [0, 0]
  {
    var lm := LogicalMemory(content, 16);
    assert lm.NumberOfPages() == 2;
    assert lm.Page(0) == content[..16];
    assert lm.Page(1) == content[16..];
  }

  /** Giving frames 0 and 1 of four free frames to pid 1. */
  lemma FrontTwoOfFour()
    ensures Assign([FREE, FREE, FREE, FREE], [0, 1], 1) == [1, 1, FREE, FREE]
  {
    var r := Assign([FREE, FREE, FREE, FREE], [0, 1], 1);
    assert 0 in [0, 1] && 1 in [0, 1] && 2 !in [0, 1] && 3 !in [0, 1];
    assert r[0] == 1 && r[1] == 1 && r[2] == FREE && r[3] == FREE;
  }

  /**
   * A 30-byte process in 16-byte pages: two pages, in frames 0 and 1 (the
   * front of the queue), both owned by pid 1; frame 0 reads back as the
   * first 16 bytes, frame 1 as the last 14 followed by two zeros.
   */
  method ThirtyBytesInTwoFrames(content: seq<byte>) returns (m: MemoryManager, p: Process)
    requires |content| == 30
    ensures m.Valid() && p.pid == 1 && p.logicalMemory == LogicalMemory(content, 16)
    ensures p.SizeInBytes() == 30 && p.PageCount() == 2
    ensures p.pagesTable.GetPageFrame(0) == Ok(0) && p.pagesTable.GetPageFrame(1) == Ok(1)
    ensures m.physicalMemory.ReadFrame(0) == Ok(content[..16])
    ensures m.physicalMemory.ReadFrame(1) == Ok(content[16..] + [0, 0])
    ensures m.frameOwners[..] == [1, 1, FREE, FREE]
    ensures m.FreeMemoryPercentage() == 50.0
  {
    m := FourFrames();
    ThirtyBytePages(content);
    FrontTwoOfFour();
    assert CeilDiv(30, 16) == 2;
    assert [0, 1, 2, 3][..2] == [0, 1] && [0, 1, 2, 3][2..] == [2, 3];
    var r := m.CreateProcess(1, 30, content);
    p := r.value;
    assert m.frames[1] == [0, 1];
    assert |m.freeFrames| == 2 && m.physicalMemory.TotalSize() == 64;
  }

  /** The same creation leaves the two frames it does not take reading as zeros. */
  method FreeFramesStayZero(content: seq<byte>) returns (m: MemoryManager)
    requires |content| == 30
    ensures m.Valid() && m.freeFrames == [2, 3]
    ensures m.physicalMemory.ReadFrame(2) == Ok(Zeros(16)) && m.physicalMemory.ReadFrame(3) == Ok(Zeros(16))
  {
    m := FourFrames();
    ghost var mem0 := m.physicalMemory.buffer[..];
    assert CeilDiv(30, 16) == 2;
    assert [0, 1, 2, 3][..2] == [0, 1] && [0, 1, 2, 3][2..] == [2, 3];
    var r := m.CreateProcess(1, 30, content);
    UnchangedFrameReads(m.physicalMemory, mem0, [0, 1], 2);
    UnchangedFrameReads(m.physicalMemory, mem0, [0, 1], 3);
    ZeroMemoryFrame(64, 16, 2);
    ZeroMemoryFrame(64, 16, 3);
  }

  /** 32 bytes in 16-byte frames, processes up to 32 bytes: a valid configuration. */
  lemma ThirtyTwoBytesValid()
    ensures CheckConfig(32, 16, 32) == Pass
  {
    assert IsPowerOfTwo(1) && IsPowerOfTwo(2) && IsPowerOfTwo(4) && IsPowerOfTwo(8);
    assert IsPowerOfTwo(16) && IsPowerOfTwo(32);
  }

  /** A manager of 32 bytes in two 16-byte frames. */
  method TwoFrames() returns (m: MemoryManager)
    ensures m.Valid() && fresh(m.Repr) && m.pageSize == 16 && m.maxProcessSize == 32
    ensures m.frameOwners.Length == 2 && m.freeFrames == [0, 1]
    ensures m.frameOwners[..] == [FREE, FREE]
    ensures m.processes == map[] && m.order == []
  {
    ThirtyTwoBytesValid();
    m := new MemoryManager(32, 16, 32);
    assert m.physicalMemory.NumberOfFrames() == 2;
  }

  /**
   * A 32-byte process takes both frames of a 32-byte memory; a second
   * process of 16 bytes is then refused with a state error.
   */
  method SecondProcessFindsNoFrame() returns (first: Result<Process>, second: Result<Process>, share: real)
    ensures first.Ok? && first.value.logicalMemory == LogicalMemory(Zeros(32), 16) && first.value.PageCount() == 2
    ensures second == Err(IllegalState(NotEnoughFrames))
    ensures share == 0.0
  {
    var m := TwoFrames();
    assert CeilDiv(32, 16) == 2 && [0, 1][2..] == [];
    first := m.CreateProcess(1, 32, Zeros(32));
    second := m.CreateProcess(2, 16, Zeros(16));
    share := m.FreeMemoryPercentage();
    assert m.freeFrames == [] && m.physicalMemory.TotalSize() == 32;
  }

  /** Registering a pid that is already registered is an argument error. */
  method SamePidTwice() returns (first: Result<Process>, second: Result<Process>)
    ensures first.Ok? && first.value.pid == 10
    ensures second == Err(IllegalArgument(DuplicatePid))
  {
    var m := FourFrames();
    first := m.CreateProcess(10, 16, Zeros(16));
    second := m.CreateProcess(10, 16, Zeros(16));
  }

  /**
   * A negative size is refused with an argument error before any frame is
   * touched: every frame stays free and the free share stays at 100%.
   */
  method NegativeSizeTakesNothing() returns (r: Result<Process>, owners: seq<int>, share: real)
    ensures r == Err(IllegalArgument(NonPositiveProcessSize))
    ensures owners == [FREE, FREE]
    ensures share == 100.0
  {
    var m := TwoFrames();
    r := m.CreateProcess(1, -10, []);
    owners := m.frameOwners[..];
    share := m.FreeMemoryPercentage();
    assert |m.freeFrames| == 2 && m.physicalMemory.TotalSize() == 32;
  }

  /** One 16-byte page out of four frames: the free share goes from 100% to 75%. */
  method OnePageOfFour() returns (before: real, after: real)
    ensures before == 100.0 && after == 75.0
  {
    var m := FourFrames();
    assert m.physicalMemory.TotalSize() == 64;
    before := m.FreeMemoryPercentage();
    var r := m.CreateProcess(1, 16, Zeros(16));
    assert CeilDiv(16, 16) == 1;
    assert |m.freeFrames| == 3;
    after := m.FreeMemoryPercentage();
  }
}
