/**
 * A process's logical memory: a read-only byte buffer cut into pages of
 * `pageSize` bytes, the last of which may be short.
 */
module Logical {
  import opened Common

  /**
   * `content` is fixed once built. The source fills it with random bytes;
   * here it is whatever the caller supplies.
   */
  datatype LogicalMemory = LogicalMemory(content: seq<byte>, pageSize: int)
  {
    /** What every LogicalMemory built by New satisfies (a page size > 0 is the caller's duty). */
    predicate Valid()
    {
      |content| > 0 && pageSize > 0
    }

    /** Length of the process in bytes. */
    function Size(): (n: int)
      requires Valid()
      ensures n == |content| && n > 0
    {
      |content|
    }

    /** Pages needed to hold every byte: the ceiling of size / pageSize. */
    function NumberOfPages(): (n: int)
      requires Valid()
      ensures n >= 1
      ensures (n - 1) * pageSize < |content| <= n * pageSize
    {
      CeilDivBounds(|content|, pageSize);
      CeilDiv(|content|, pageSize)
    }

    /** Bytes of page `p`, known to be a valid page index. */
    function Page(p: int): (page: seq<byte>)
      requires Valid() && 0 <= p < NumberOfPages()
      ensures 0 < |page| <= pageSize
      ensures p < NumberOfPages() - 1 ==> |page| == pageSize
      ensures p * pageSize + |page| <= |content|
      ensures p == NumberOfPages() - 1 ==> p * pageSize + |page| == |content|
      ensures forall i :: 0 <= i < |page| ==> page[i] == content[p * pageSize + i]
    {
      var n := NumberOfPages();
      MulMonotone(p, n - 1, pageSize);
      MulMonotone(Min(p + 1, n - 1), n - 1, pageSize);
      var start := p * pageSize;
      content[start..Min(start + pageSize, |content|)]
    }

    /** A copy of page `p`, or an argument error when `p` is not a page index. */
    function ReadPage(p: int): (r: Result<seq<byte>>)
      requires Valid()
      ensures r.Ok? <==> 0 <= p < NumberOfPages()
      ensures r.Err? ==> r.error == IllegalArgument(InvalidLogicalPage)
      ensures r.Ok? ==> r.value == Page(p) && 0 < |r.value| <= pageSize
    {
      if p < 0 || p >= NumberOfPages() then Err(IllegalArgument(InvalidLogicalPage))
      else Ok(Page(p))
    }

    /** Pages 0 .. k-1 laid end to end. */
    function Pages(k: int): seq<byte>
      requires Valid() && 0 <= k <= NumberOfPages()
      decreases k
    {
      if k == 0 then [] else Pages(k - 1) + Page(k - 1)
    }
  }

  /**
   * The constructor: a non-positive length is an argument error; otherwise
   * the buffer holds `content`. The page size is not checked by the source,
   * hence the requires.
   */
  function New(processLength: int, pageSize: int, content: seq<byte>): (r: Result<LogicalMemory>)
    requires pageSize > 0
    requires processLength > 0 ==> |content| == processLength
    ensures r.Err? <==> processLength <= 0
    ensures r.Err? ==> r.error == IllegalArgument(NonPositiveProcessLength)
    ensures r.Ok? ==> r.value.Valid() && r.value.Size() == processLength
    ensures r.Ok? ==> r.value.content == content && r.value.pageSize == pageSize
  {
    if processLength <= 0 then Err(IllegalArgument(NonPositiveProcessLength))
    else Ok(LogicalMemory(content, pageSize))
  }

  /** `(length + pageSize - 1) / pageSize`, the source's rounding-up division. */
  function CeilDiv(length: int, pageSize: int): int
    requires length > 0 && pageSize > 0
  {
    (length + pageSize - 1) / pageSize
  }

  /** CeilDiv is the least number of pages whose bytes cover `length`. */
  lemma CeilDivBounds(length: int, pageSize: int)
    requires length > 0 && pageSize > 0
    ensures CeilDiv(length, pageSize) >= 1
    ensures (CeilDiv(length, pageSize) - 1) * pageSize < length <= CeilDiv(length, pageSize) * pageSize
  {
    var q := (length + pageSize - 1) / pageSize;
    var r := (length + pageSize - 1) % pageSize;
    assert q * pageSize + r == length + pageSize - 1;
    assert 0 <= r < pageSize;
    assert (q - 1) * pageSize == q * pageSize - pageSize;
  }

  /** Concatenating the first k pages gives the first min(k*pageSize, size) bytes. */
  lemma {:induction false} PagesArePrefix(lm: LogicalMemory, k: int)
    requires lm.Valid() && 0 <= k <= lm.NumberOfPages()
    ensures |lm.Pages(k)| == Min(k * lm.pageSize, |lm.content|)
    ensures lm.Pages(k) == lm.content[..Min(k * lm.pageSize, |lm.content|)]
  {
    if k > 0 {
      PagesArePrefix(lm, k - 1);
      var page := lm.Page(k - 1);
      MulMonotone(k - 1, lm.NumberOfPages() - 1, lm.pageSize);
      assert (k - 1) * lm.pageSize + lm.pageSize == k * lm.pageSize;
      assert Min((k - 1) * lm.pageSize, |lm.content|) == (k - 1) * lm.pageSize;
      var start := (k - 1) * lm.pageSize;
      assert lm.Pages(k) == lm.content[..start] + page;
      assert start + |page| == Min(k * lm.pageSize, |lm.content|);
      assert lm.content[..start] + page == lm.content[..start + |page|];
    }
  }

  /** Reading every page in order and concatenating gives back the whole content. */
  lemma AllPagesAreContent(lm: LogicalMemory)
    requires lm.Valid()
    ensures lm.Pages(lm.NumberOfPages()) == lm.content
  {
    PagesArePrefix(lm, lm.NumberOfPages());
  }
}
