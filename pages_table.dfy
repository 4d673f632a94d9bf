/**
 * A process's page table: a partial map from logical page index to
 * physical frame index, over a fixed number of pages.
 */
module PageTables {
  import opened Common

  /** The map recorded by mapping page i to frames[i] for every i, in order. */
  function IndexMap(frames: seq<int>): (m: map<int, int>)
    ensures forall p :: p in m <==> 0 <= p < |frames|
    ensures forall p :: 0 <= p < |frames| ==> m[p] == frames[p]
  {
    map p | 0 <= p < |frames| :: frames[p]
  }

  /** Mapping one more page extends the map by that page alone. */
  lemma IndexMapSnoc(frames: seq<int>, f: int)
    ensures IndexMap(frames + [f]) == IndexMap(frames)[|frames| := f]
  {
    var m, m' := IndexMap(frames + [f]), IndexMap(frames)[|frames| := f];
    assert m.Keys == m'.Keys;
    forall p | p in m
      ensures m[p] == m'[p]
    {
      if p < |frames| {
        assert (frames + [f])[p] == frames[p];
      }
    }
  }

  /** The range check shared by both operations of the table. */
  function CheckPage(pageCount: int, p: int): (o: Outcome)
    ensures o.Pass? <==> 0 <= p < pageCount
    ensures o.Fail? ==> o.error == IllegalArgument(InvalidPageNumber)
  {
    if p < 0 || p >= pageCount then Fail(IllegalArgument(InvalidPageNumber)) else Pass
  }

  class PagesTable {
    const pageCount: int
    var mapping: map<int, int>

    /** Only page indices in range are ever mapped. */
    ghost predicate Valid()
      reads this
    {
      pageCount > 0 && forall p :: p in mapping ==> 0 <= p < pageCount
    }

    /** An empty table for `pageCount` pages. */
    constructor (pageCount: int)
      requires pageCount > 0
      ensures Valid() && this.pageCount == pageCount && mapping == map[]
    {
      this.pageCount := pageCount;
      this.mapping := map[];
    }

    /** The throwing constructor: an argument error unless pageCount > 0. */
    static method Create(pageCount: int) returns (r: Result<PagesTable>)
      ensures r.Err? <==> pageCount <= 0
      ensures r.Err? ==> r.error == IllegalArgument(NonPositivePageCount)
      ensures r.Ok? ==> fresh(r.value) && r.value.Valid()
      ensures r.Ok? ==> r.value.pageCount == pageCount && r.value.mapping == map[]
    {
      if pageCount <= 0 {
        return Err(IllegalArgument(NonPositivePageCount));
      }
      var table := new PagesTable(pageCount);
      r := Ok(table);
    }

    /**
     * Records (or overwrites) the frame of page `p`; the frame number itself
     * is not checked. The mappings of all other pages are kept.
     */
    method MapPageToFrame(p: int, f: int) returns (o: Outcome)
      requires Valid()
      modifies this`mapping
      ensures Valid()
      ensures o == CheckPage(pageCount, p)
      ensures o.Fail? ==> mapping == old(mapping)
      ensures o.Pass? ==> mapping == old(mapping)[p := f]
      ensures o.Pass? ==> GetPageFrame(p) == Ok(f)
      ensures forall q :: q != p ==> GetPageFrame(q) == old(GetPageFrame(q))
    {
      o := CheckPage(pageCount, p);
      if o.Pass? {
        mapping := mapping[p := f];
      }
    }

    /**
     * The frame of page `p`: an argument error for an index out of range,
     * a state error for a valid page that was never mapped.
     */
    function GetPageFrame(p: int): (r: Result<int>)
      reads this
      ensures r.Ok? <==> 0 <= p < pageCount && p in mapping
      ensures !(0 <= p < pageCount) ==> r == Err(IllegalArgument(InvalidPageNumber))
      ensures 0 <= p < pageCount && p !in mapping ==> r == Err(IllegalState(PageNotMapped))
      ensures r.Ok? ==> r.value == mapping[p]
    {
      var check := CheckPage(pageCount, p);
      if check.Fail? then Err(check.error)
      else if p !in mapping then Err(IllegalState(PageNotMapped))
      else Ok(mapping[p])
    }

    /** The page count given at construction, however many pages are mapped. */
    function Size(): (n: int)
      reads this
      requires Valid()
      ensures n == pageCount && n > 0
    {
      pageCount
    }
  }

  /** A table filled page by page from `frames` answers frames[p] for every page. */
  lemma IndexMapAnswers(t: PagesTable, frames: seq<int>, p: int)
    requires t.pageCount == |frames| && t.mapping == IndexMap(frames)
    requires 0 <= p < |frames|
    ensures t.GetPageFrame(p) == Ok(frames[p])
  {
  }
}
