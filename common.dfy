/**
 * Values shared by every component of the paging simulator: the signed byte
 * of the JVM, the two kinds of failure the components raise, and the
 * result wrappers that carry them.
 */
module Common {

  /** A Java `byte`: signed, 8 bits. */
  newtype byte = b: int | -128 <= b < 128

  /** Which check failed; one constructor per distinct failure message of the source. */
  datatype Reason =
    | NotPowerOfTwo               // memory size or page size is not a power of two
    | NonPositiveMaxProcessSize   // maximum process size <= 0
    | MaxProcessSizeTooLarge      // maximum process size exceeds the physical memory size
    | NonPositiveGeometry         // physical size or frame size <= 0
    | SizeNotMultipleOfFrame      // physical size is not a multiple of the frame size
    | InvalidFrameNumber          // frame index outside [0, number of frames)
    | DataLargerThanFrame         // data handed to a frame write is longer than a frame
    | NonPositiveProcessLength    // logical memory of length <= 0
    | InvalidLogicalPage          // logical page index outside [0, number of pages)
    | NonPositivePageCount        // page table with pageCount <= 0
    | InvalidPageNumber           // page-table index outside [0, pageCount)
    | PageNotMapped               // valid page-table index with no mapping yet
    | DuplicatePid                // a process with this pid is already registered
    | NonPositiveProcessSize      // process size <= 0
    | ProcessSizeTooLarge         // process size exceeds the configured maximum
    | NotEnoughFrames             // fewer free frames than pages needed

  /**
   * The source distinguishes bad arguments (IllegalArgumentException) from an
   * operation the current state cannot honour (IllegalStateException); callers
   * catch the two separately.
   */
  datatype Error = IllegalArgument(reason: Reason) | IllegalState(reason: Reason)

  /** A value or the error that was raised instead. */
  datatype Result<+T> = Ok(value: T) | Err(error: Error)

  /** Success of an operation that returns nothing, or the error it raised. */
  datatype Outcome = Pass | Fail(error: Error)

  /** `java.util.Optional`. */
  datatype Option<+T> = None | Some(value: T)

  /** `n` zero bytes, as `new byte[n]` holds. */
  function Zeros(n: nat): seq<byte>
  {
    seq(n, _ => 0 as byte)
  }

  /** `data` followed by zero bytes up to `size`: what a frame holds after `data` is written into it. */
  function Padded(data: seq<byte>, size: int): (r: seq<byte>)
    requires |data| <= size
    ensures |r| == size
    ensures r[..|data|] == data
    ensures forall i :: |data| <= i < size ==> r[i] == 0
  {
    data + Zeros(size - |data|)
  }

  function Min(a: int, b: int): int
  {
    if a <= b then a else b
  }

  /** Multiplying by a non-negative factor keeps order. */
  lemma MulMonotone(a: int, b: int, c: int)
    requires a <= b && c >= 0
    ensures a * c <= b * c
  {
    assert b * c - a * c == (b - a) * c;
  }

  /** A positive number smaller than the divisor is its own remainder, so not a multiple. */
  lemma SmallMod(b: int, a: int)
    requires 0 < b < a
    ensures b % a == b
  {
    var q, r := b / a, b % a;
    assert a * q + r == b;
    if q >= 1 {
      MulMonotone(1, q, a);
    } else if q <= -1 {
      MulMonotone(q, -1, a);
    }
  }

  /** A multiple of a positive number leaves no remainder. */
  lemma MultipleMod(q: int, a: int)
    requires a > 0
    ensures (q * a) % a == 0
  {
    var b := q * a;
    var q', r' := b / a, b % a;
    assert a * q' + r' == b;
    var d := q - q';
    assert d * a == r' by {
      assert d * a == q * a - q' * a;
    }
    if d >= 1 {
      MulMonotone(1, d, a);
    } else if d <= -1 {
      MulMonotone(d, -1, a);
    }
  }
}
