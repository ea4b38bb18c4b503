/**
  KDirectory: one listed directory: its url and the entries that arrived
  for it, batch after batch, in arrival order.
 */
module KDirectory {
  import opened KDirectoryEntry

  /** The entries of a batch as slotEntries builds them: KDirectoryEntry(entry) with the default "0" details. */
  function BareEntries(batch: seq<UdsEntry>): (r: seq<Entry>)
    ensures |r| == |batch|
    ensures forall i :: 0 <= i < |batch| ==> r[i] == FromUds(batch[i], "0") && !r[i].fullDataAvailable
  {
    seq(|batch|, i requires 0 <= i < |batch| => FromUds(batch[i], "0"))
  }

  class Directory {
    const url: string
    var entries: seq<Entry>
    var count: int

    ghost predicate Valid()
      reads this
    {
      count == |entries|
    }

    /** KDirectory(directory): no entries yet, and url() is the argument. */
    constructor (directory: string)
      ensures Valid() && url == directory && entries == [] && count == 0
    {
      url := directory;
      entries := [];
      count := 0;
    }

    /** url() */
    function Url(): (u: string)
      ensures u == url
    {
      url
    }

    /** count(): the number of stored entries. */
    function Count(): (n: int)
      reads this
      requires Valid()
      ensures n == |entries|
    {
      count
    }

    /**
      slotEntries(job, entries): a non-empty batch is converted entry by
      entry and appended after the stored entries; an empty batch changes
      nothing.
     */
    method SlotEntries(batch: seq<UdsEntry>)
      requires Valid()
      modifies this
      ensures Valid()
      ensures entries == old(entries) + BareEntries(batch)
      ensures batch == [] ==> entries == old(entries) && count == old(count)
    {
      if |batch| > 0 {
        var currentList: seq<Entry> := [];
        var i := 0;
        while i < |batch|
          invariant 0 <= i <= |batch|
          invariant currentList == BareEntries(batch[..i])
        {
          currentList := currentList + [FromUds(batch[i], "0")];
          i := i + 1;
        }
        assert batch[..i] == batch;
        entries := entries + currentList;
        count := |entries|;
      }
    }
  }

  /** Two batches in a row store the same entries as their concatenation in one batch. */
  lemma BatchesConcatenate(a: seq<UdsEntry>, b: seq<UdsEntry>)
    ensures BareEntries(a) + BareEntries(b) == BareEntries(a + b)
  {
  }
}
