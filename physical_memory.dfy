/**
 * Physical memory: one byte buffer cut into frames of `frameSize` bytes.
 * Frames are read, written (with zero padding) and cleared one at a time.
 */
module Physical {
  import opened Common

  /** Frame `f` lies wholly inside a buffer of `size` bytes. */
  predicate IsFrame(size: int, frameSize: int, f: int)
  {
    frameSize > 0 && 0 <= f && f * frameSize + frameSize <= size
  }

  /** Every index below size / frameSize is a frame when frameSize divides size. */
  lemma FrameIndexInRange(size: int, frameSize: int, f: int)
    requires frameSize > 0 && size >= 0 && size % frameSize == 0
    requires 0 <= f < size / frameSize
    ensures IsFrame(size, frameSize, f)
  {
    MulMonotone(f + 1, size / frameSize, frameSize);
    assert (f + 1) * frameSize == f * frameSize + frameSize;
  }

  /** The bytes of frame `f`. */
  function FrameOf(mem: seq<byte>, frameSize: int, f: int): (bytes: seq<byte>)
    requires IsFrame(|mem|, frameSize, f)
    ensures |bytes| == frameSize
    ensures forall i :: 0 <= i < frameSize ==> bytes[i] == mem[f * frameSize + i]
  {
    mem[f * frameSize .. f * frameSize + frameSize]
  }

  /** `mem` with frame `f` replaced by `bytes`. */
  function WithFrame(mem: seq<byte>, frameSize: int, f: int, bytes: seq<byte>): (m: seq<byte>)
    requires IsFrame(|mem|, frameSize, f) && |bytes| == frameSize
    ensures |m| == |mem|
    ensures forall i :: 0 <= i < |m| ==>
      m[i] == if f * frameSize <= i < f * frameSize + frameSize then bytes[i - f * frameSize] else mem[i]
  {
    mem[.. f * frameSize] + bytes + mem[f * frameSize + frameSize ..]
  }

  /** Two distinct frames do not overlap. */
  lemma FramesApart(frameSize: int, f: int, g: int)
    requires frameSize > 0 && 0 <= f && 0 <= g && f != g
    ensures f * frameSize + frameSize <= g * frameSize || g * frameSize + frameSize <= f * frameSize
  {
    if f < g {
      MulMonotone(f + 1, g, frameSize);
      assert (f + 1) * frameSize == f * frameSize + frameSize;
    } else {
      MulMonotone(g + 1, f, frameSize);
      assert (g + 1) * frameSize == g * frameSize + frameSize;
    }
  }

  /** Reading back the frame just replaced gives exactly the new bytes. */
  lemma ReadWrittenFrame(mem: seq<byte>, frameSize: int, f: int, bytes: seq<byte>)
    requires IsFrame(|mem|, frameSize, f) && |bytes| == frameSize
    ensures FrameOf(WithFrame(mem, frameSize, f, bytes), frameSize, f) == bytes
  {
    var m := WithFrame(mem, frameSize, f, bytes);
    forall i | 0 <= i < frameSize
      ensures FrameOf(m, frameSize, f)[i] == bytes[i]
    {
      assert m[f * frameSize + i] == bytes[i];
    }
  }

  /** Replacing frame `f` leaves every other frame as it was. */
  lemma ReadOtherFrame(mem: seq<byte>, frameSize: int, f: int, g: int, bytes: seq<byte>)
    requires IsFrame(|mem|, frameSize, f) && IsFrame(|mem|, frameSize, g) && f != g
    requires |bytes| == frameSize
    ensures FrameOf(WithFrame(mem, frameSize, f, bytes), frameSize, g) == FrameOf(mem, frameSize, g)
  {
    var m := WithFrame(mem, frameSize, f, bytes);
    FramesApart(frameSize, f, g);
    forall i | 0 <= i < frameSize
      ensures FrameOf(m, frameSize, g)[i] == FrameOf(mem, frameSize, g)[i]
    {
      assert m[g * frameSize + i] == mem[g * frameSize + i];
    }
  }

  /** Every index below `count` is a frame of a buffer of count * frameSize bytes. */
  lemma FramesOfCount(frameSize: int, count: int)
    requires frameSize > 0
    ensures forall g :: 0 <= g < count ==> IsFrame(count * frameSize, frameSize, g)
  {
    forall g | 0 <= g < count
      ensures IsFrame(count * frameSize, frameSize, g)
    {
      MulMonotone(g + 1, count, frameSize);
      assert (g + 1) * frameSize == g * frameSize + frameSize;
    }
  }

  /**
   * Replacing frame `f` among `count` frames: frame `f` now reads `bytes`,
   * every other frame reads as before.
   */
  lemma ReplaceFrame(mem: seq<byte>, frameSize: int, count: int, f: int, bytes: seq<byte>)
    requires frameSize > 0 && |mem| == count * frameSize
    requires 0 <= f < count && |bytes| == frameSize
    ensures IsFrame(|mem|, frameSize, f)
    ensures FrameOf(WithFrame(mem, frameSize, f, bytes), frameSize, f) == bytes
    ensures forall g :: 0 <= g < count && g != f ==>
      IsFrame(|mem|, frameSize, g) &&
      FrameOf(WithFrame(mem, frameSize, f, bytes), frameSize, g) == FrameOf(mem, frameSize, g)
  {
    FramesOfCount(frameSize, count);
    ReadWrittenFrame(mem, frameSize, f, bytes);
    forall g | 0 <= g < count && g != f
      ensures FrameOf(WithFrame(mem, frameSize, f, bytes), frameSize, g) == FrameOf(mem, frameSize, g)
    {
      ReadOtherFrame(mem, frameSize, f, g, bytes);
    }
  }

  /** Of `count` frames, every frame not listed in `touched` reads in `mem` as it did in `mem0`. */
  ghost predicate Unchanged(mem: seq<byte>, mem0: seq<byte>, frameSize: int, count: int, touched: seq<int>)
  {
    && frameSize > 0 && |mem| == |mem0| == count * frameSize
    && forall g :: 0 <= g < count && g !in touched ==>
         IsFrame(|mem|, frameSize, g) && FrameOf(mem, frameSize, g) == FrameOf(mem0, frameSize, g)
  }

  /** Before any write, no frame has changed. */
  lemma NothingChanged(mem: seq<byte>, frameSize: int, count: int)
    requires frameSize > 0 && |mem| == count * frameSize
    ensures Unchanged(mem, mem, frameSize, count, [])
  {
    FramesOfCount(frameSize, count);
  }

  /** Every frame listed in `frames` reads as zeros. */
  ghost predicate Zeroed(mem: seq<byte>, frameSize: int, frames: seq<int>)
  {
    forall j :: 0 <= j < |frames| ==>
      IsFrame(|mem|, frameSize, frames[j]) && FrameOf(mem, frameSize, frames[j]) == Zeros(frameSize)
  }

  /** Zeroing one more frame extends both the zeroed list and the touched list by that frame. */
  lemma ZeroStep(mem: seq<byte>, mem0: seq<byte>, frameSize: int, count: int, released: seq<int>, f: int)
    requires Unchanged(mem, mem0, frameSize, count, released) && Zeroed(mem, frameSize, released)
    requires 0 <= f < count
    requires forall j :: 0 <= j < |released| ==> 0 <= released[j] < count
    ensures IsFrame(|mem|, frameSize, f)
    ensures Unchanged(WithFrame(mem, frameSize, f, Zeros(frameSize)), mem0, frameSize, count, released + [f])
    ensures Zeroed(WithFrame(mem, frameSize, f, Zeros(frameSize)), frameSize, released + [f])
  {
    ReplaceFrame(mem, frameSize, count, f, Zeros(frameSize));
  }

  /** The constructor's checks, in the source's order. */
  function CheckGeometry(size: int, frameSize: int): (o: Outcome)
    ensures o.Pass? <==> size > 0 && frameSize > 0 && size % frameSize == 0
    ensures size <= 0 || frameSize <= 0 ==> o == Fail(IllegalArgument(NonPositiveGeometry))
    ensures size > 0 && frameSize > 0 && size % frameSize != 0 ==> o == Fail(IllegalArgument(SizeNotMultipleOfFrame))
  {
    if size <= 0 || frameSize <= 0 then Fail(IllegalArgument(NonPositiveGeometry))
    else if size % frameSize != 0 then Fail(IllegalArgument(SizeNotMultipleOfFrame))
    else Pass
  }

  class PhysicalMemory {
    const buffer: array<byte>
    const frameSize: int

    /** The geometry fixed at construction. */
    ghost predicate Valid()
    {
      frameSize > 0 && buffer.Length > 0 && buffer.Length % frameSize == 0
    }

    /** A zero-filled buffer of `size` bytes, cut into frames of `frameSize` bytes. */
    constructor (size: int, frameSize: int)
      requires CheckGeometry(size, frameSize) == Pass
      ensures Valid() && fresh(buffer)
      ensures buffer.Length == size && this.frameSize == frameSize
      ensures buffer[..] == Zeros(size)
    {
      this.buffer := new byte[size](_ => 0);
      this.frameSize := frameSize;
    }

    /** The throwing constructor: an argument error, or a fresh zeroed memory. */
    static method Create(size: int, frameSize: int) returns (r: Result<PhysicalMemory>)
      ensures r.Err? <==> CheckGeometry(size, frameSize).Fail?
      ensures r.Err? ==> r.error == CheckGeometry(size, frameSize).error
      ensures r.Ok? ==> fresh(r.value) && fresh(r.value.buffer) && r.value.Valid()
      ensures r.Ok? ==> r.value.TotalSize() == size && r.value.frameSize == frameSize
      ensures r.Ok? ==> r.value.buffer[..] == Zeros(size)
    {
      var check := CheckGeometry(size, frameSize);
      if check.Fail? {
        return Err(check.error);
      }
      var mem := new PhysicalMemory(size, frameSize);
      r := Ok(mem);
    }

    function TotalSize(): (n: int)
      ensures n == buffer.Length
    {
      buffer.Length
    }

    /** size / frameSize frames cover the buffer exactly. */
    function NumberOfFrames(): (n: int)
      requires Valid()
      ensures n >= 1 && n * frameSize == buffer.Length
    {
      buffer.Length / frameSize
    }

    /** First byte of frame `f`, or an argument error for a frame index out of range. */
    function FrameStartAddress(f: int): (r: Result<int>)
      requires Valid()
      ensures r.Ok? <==> 0 <= f < NumberOfFrames()
      ensures r.Err? ==> r.error == IllegalArgument(InvalidFrameNumber)
      ensures r.Ok? ==> r.value == f * frameSize && IsFrame(buffer.Length, frameSize, f)
    {
      if 0 <= f < NumberOfFrames() then
        FrameIndexInRange(buffer.Length, frameSize, f);
        Ok(f * frameSize)
      else
        Err(IllegalArgument(InvalidFrameNumber))
    }

    /** A copy of frame `f`; the buffer is left as it is. */
    function ReadFrame(f: int): (r: Result<seq<byte>>)
      requires Valid()
      reads buffer
      ensures r.Ok? <==> 0 <= f < NumberOfFrames()
      ensures r.Err? ==> r.error == IllegalArgument(InvalidFrameNumber)
      ensures r.Ok? ==> IsFrame(buffer.Length, frameSize, f)
      ensures r.Ok? ==> |r.value| == frameSize
      ensures r.Ok? ==> forall i :: 0 <= i < frameSize ==> r.value[i] == buffer[f * frameSize + i]
      ensures r.Ok? ==> r.value == FrameOf(buffer[..], frameSize, f)
    {
      var start := FrameStartAddress(f);
      if start.Err? then Err(start.error)
      else Ok(buffer[start.value .. start.value + frameSize])
    }

    /** Zero-fills frame `f`; nothing else changes. */
    method ClearFrame(f: int) returns (o: Outcome)
      requires Valid()
      modifies buffer
      ensures o.Pass? <==> 0 <= f < NumberOfFrames()
      ensures o.Fail? ==> o.error == IllegalArgument(InvalidFrameNumber) && buffer[..] == old(buffer[..])
      ensures o.Pass? ==> IsFrame(buffer.Length, frameSize, f)
      ensures o.Pass? ==> buffer[..] == WithFrame(old(buffer[..]), frameSize, f, Zeros(frameSize))
    {
      var start := FrameStartAddress(f);
      if start.Err? {
        return Fail(start.error);
      }
      var s := start.value;
      forall i | s <= i < s + frameSize {
        buffer[i] := 0;
      }
      o := Pass;
      assert buffer[..] == WithFrame(old(buffer[..]), frameSize, f, Zeros(frameSize));
    }

    /**
     * Copies `data` to the start of frame `f` and zero-fills the rest of the
     * frame. The length check comes before the frame check.
     */
    method WriteFrame(f: int, data: seq<byte>) returns (o: Outcome)
      requires Valid()
      modifies buffer
      ensures o.Pass? <==> |data| <= frameSize && 0 <= f < NumberOfFrames()
      ensures |data| > frameSize ==> o == Fail(IllegalArgument(DataLargerThanFrame))
      ensures |data| <= frameSize && !(0 <= f < NumberOfFrames()) ==> o == Fail(IllegalArgument(InvalidFrameNumber))
      ensures o.Fail? ==> buffer[..] == old(buffer[..])
      ensures o.Pass? ==> IsFrame(buffer.Length, frameSize, f)
      ensures o.Pass? ==> buffer[..] == WithFrame(old(buffer[..]), frameSize, f, Padded(data, frameSize))
    {
      if |data| > frameSize {
        return Fail(IllegalArgument(DataLargerThanFrame));
      }
      var start := FrameStartAddress(f);
      if start.Err? {
        return Fail(start.error);
      }
      var s := start.value;
      forall i | s <= i < s + |data| {
        buffer[i] := data[i - s];
      }
      if |data| < frameSize {
        forall i | s + |data| <= i < s + frameSize {
          buffer[i] := 0;
        }
      }
      o := Pass;
      assert buffer[..] == WithFrame(old(buffer[..]), frameSize, f, Padded(data, frameSize));
    }
  }

  /** Every frame of an all-zero memory reads as zeros. */
  lemma ZeroMemoryFrame(size: int, frameSize: int, f: int)
    requires size >= 0 && IsFrame(size, frameSize, f)
    ensures FrameOf(Zeros(size), frameSize, f) == Zeros(frameSize)
  {
  }

  /** A frame left out of `touched` reads back, through readFrame, as it did in `mem0`. */
  lemma UnchangedFrameReads(pm: PhysicalMemory, mem0: seq<byte>, touched: seq<int>, f: int)
    requires pm.Valid() && Unchanged(pm.buffer[..], mem0, pm.frameSize, pm.NumberOfFrames(), touched)
    requires 0 <= f < pm.NumberOfFrames() && f !in touched
    ensures IsFrame(|mem0|, pm.frameSize, f)
    ensures pm.ReadFrame(f) == Ok(FrameOf(mem0, pm.frameSize, f))
  {
  }
}
