/**
 * A simulated process: its pid, its logical memory and its page table,
 * fixed at construction. The constructor checks nothing.
 */
module Processes {
  import opened Common
  import opened Logical
  import opened PageTables

  /** `pid`, `logicalMemory` and `pagesTable` are the accessors of the source. */
  datatype Process = Process(pid: int, logicalMemory: LogicalMemory, pagesTable: PagesTable)
  {
    /** Delegates to the logical memory. */
    function SizeInBytes(): (n: int)
      requires logicalMemory.Valid()
      ensures n == |logicalMemory.content| && n > 0
    {
      logicalMemory.Size()
    }

    /**
     * Delegates to the logical memory, not to the page table: the number of
     * pages the process's bytes need.
     */
    function PageCount(): (n: int)
      requires logicalMemory.Valid()
      ensures n >= 1
      ensures (n - 1) * logicalMemory.pageSize < SizeInBytes() <= n * logicalMemory.pageSize
    {
      logicalMemory.NumberOfPages()
    }
  }
}
