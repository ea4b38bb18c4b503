/**
  KDirectoryPrivate: the bookkeeping behind a directory listing: which
  incoming entries pass the QDir filter flags, a one-entry lookup cache, and
  the ids whose details are being fetched. The KIO list and stat jobs are
  not modelled; their results arrive as parameters.
 */
module KDirectoryPrivate {
  import opened KDirectoryEntry

  /** QDir::Filters (Qt 5 values); NoFilter is -1, all bits set. */
  type Filters = bv32

  const NoFilter: Filters := 0xFFFF_FFFF
  const Dirs: Filters := 0x001
  const Files: Filters := 0x002
  const Readable: Filters := 0x010
  const Writable: Filters := 0x020
  const Executable: Filters := 0x040
  const Modified: Filters := 0x080
  const Hidden: Filters := 0x100
  const System: Filters := 0x200
  const NoDot: Filters := 0x2000
  const NoDotDot: Filters := 0x4000
  const NoDotAndDotDot: Filters := 0x6000

  /** QDir::NoSort is -1 as well. */
  const NoSort: bv32 := 0xFFFF_FFFF

  lemma NoDotAndDotDotIsBoth()
    ensures NoDotAndDotDot == NoDot | NoDotDot
  {
  }

  /**
    keepEntryAccordingToFilter as written: NoFilter keeps everything; the
    dot flags reject "." and ".."; a hidden entry is rejected when the Hidden
    flag IS set; every later test (Dirs, Files, Readable, ...) returns true,
    as does falling through them.
   */
  function KeepAsWritten(flags: Filters, e: Entry): (r: bool)
    ensures flags == NoFilter ==> r
    ensures e.name != "." && e.name != ".." && !IsHidden(e) ==> r
    ensures flags != NoFilter && IsHidden(e) && flags & Hidden != 0 ==> !r
  {
    if flags == NoFilter then true
    else if flags & NoDotAndDotDot != 0 && (e.name == "." || e.name == "..") then false
    else if flags & NoDot != 0 && e.name == "." then false
    else if flags & NoDotDot != 0 && e.name == ".." then false
    else if IsHidden(e) && flags & Hidden != 0 then false
    else true
  }

  /** What KeepAsWritten decides, rule by rule: an entry is dropped only by a dot rule or the hidden rule. */
  lemma KeepAsWrittenRules(flags: Filters, e: Entry)
    ensures flags == NoFilter ==> KeepAsWritten(flags, e)
    ensures flags != NoFilter ==>
      (KeepAsWritten(flags, e) <==>
        !((flags & NoDot != 0 || flags & NoDotDot != 0) && (e.name == "." || e.name == ".."))
        && !(IsHidden(e) && flags & Hidden != 0))
  {
  }

  /**
    Where the filter as written and the corrected one part ways. As written,
    NoDot also drops ".." and NoDotDot also drops "." (the corrected filter
    shows them when Hidden is set, since both names are hidden); the Hidden
    flag drops hidden entries, which the corrected filter then shows; and
    without Hidden, hidden entries are shown, which the corrected filter
    drops.
   */
  lemma KeepAsWrittenCounterexamples()
    ensures !KeepAsWritten(NoDot, Entry("..", 0x4000, true))
    ensures !KeepAsWritten(NoDot | Hidden, Entry("..", 0x4000, true)) && KeepIntended(NoDot | Hidden, Entry("..", 0x4000, true))
    ensures !KeepAsWritten(NoDotDot | Hidden, Entry(".", 0x4000, true)) && KeepIntended(NoDotDot | Hidden, Entry(".", 0x4000, true))
    ensures !KeepAsWritten(Dirs | Files | Hidden, Entry(".bashrc", 0x8000, true))
    ensures KeepIntended(Dirs | Files | Hidden, Entry(".bashrc", 0x8000, true))
    ensures KeepAsWritten(Dirs | Files, Entry(".bashrc", 0x8000, true))
    ensures KeepAsWritten(Dirs | Files | NoDotAndDotDot, Entry(".bashrc", 0x8000, true))
      && !KeepIntended(Dirs | Files | NoDotAndDotDot, Entry(".bashrc", 0x8000, true))
  {
  }

  /**
    keepEntryAccordingToFilter as its comments describe it: NoDot drops ".",
    NoDotDot drops "..", and hidden entries are kept only when Hidden is set.
   */
  function KeepIntended(flags: Filters, e: Entry): bool {
    if flags == NoFilter then true
    else if flags & NoDotAndDotDot == NoDotAndDotDot && (e.name == "." || e.name == "..") then false
    else if flags & NoDot != 0 && e.name == "." then false
    else if flags & NoDotDot != 0 && e.name == ".." then false
    else if IsHidden(e) && flags & Hidden == 0 then false
    else true
  }

  /** Each flag of the intended filter governs exactly its own case. */
  lemma KeepIntendedRules(flags: Filters, e: Entry)
    ensures flags == NoFilter ==> KeepIntended(flags, e)
    ensures flags != NoFilter ==>
      (KeepIntended(flags, e) <==>
        !(flags & NoDot != 0 && e.name == ".")
        && !(flags & NoDotDot != 0 && e.name == "..")
        && (IsHidden(e) ==> flags & Hidden != 0))
  {
    if flags != NoFilter && flags & NoDotAndDotDot == NoDotAndDotDot {
      assert flags & NoDot != 0 && flags & NoDotDot != 0;
    }
  }

  /** The entries of `es` the filter keeps, in order. */
  function Filtered(es: seq<Entry>, flags: Filters): seq<Entry>
  {
    if es == [] then []
    else Filtered(es[..|es| - 1], flags) + (if KeepIntended(flags, es[|es| - 1]) then [es[|es| - 1]] else [])
  }

  /** The entries of `es` the filter drops, in order. */
  function Rejected(es: seq<Entry>, flags: Filters): seq<Entry>
  {
    if es == [] then []
    else Rejected(es[..|es| - 1], flags) + (if KeepIntended(flags, es[|es| - 1]) then [] else [es[|es| - 1]])
  }

  /** One more incoming entry extends exactly one of the two lists. */
  lemma FilterStep(es: seq<Entry>, x: Entry, flags: Filters)
    ensures Filtered(es + [x], flags) == Filtered(es, flags) + (if KeepIntended(flags, x) then [x] else [])
    ensures Rejected(es + [x], flags) == Rejected(es, flags) + (if KeepIntended(flags, x) then [] else [x])
  {
    assert (es + [x])[..|es|] == es;
  }

  /** Every entry goes to exactly one of the two lists: together they are a permutation of the batch. */
  lemma FilterPartitions(es: seq<Entry>, flags: Filters)
    ensures |Filtered(es, flags)| + |Rejected(es, flags)| == |es|
    ensures multiset(Filtered(es, flags)) + multiset(Rejected(es, flags)) == multiset(es)
    ensures forall x :: x in Filtered(es, flags) ==> x in es && KeepIntended(flags, x)
    ensures forall x :: x in Rejected(es, flags) ==> x in es && !KeepIntended(flags, x)
  {
    FilterMultisets(es, flags);
    FilterChooses(es, flags);
    assert |multiset(Filtered(es, flags))| == |Filtered(es, flags)|;
    assert |multiset(Rejected(es, flags))| == |Rejected(es, flags)|;
    forall x | x in Filtered(es, flags)
      ensures x in es
    {
      assert x in multiset(Filtered(es, flags));
    }
    forall x | x in Rejected(es, flags)
      ensures x in es
    {
      assert x in multiset(Rejected(es, flags));
    }
  }

  lemma {:induction false} FilterMultisets(es: seq<Entry>, flags: Filters)
    ensures multiset(Filtered(es, flags)) + multiset(Rejected(es, flags)) == multiset(es)
  {
    if es != [] {
      var init := es[..|es| - 1];
      FilterMultisets(init, flags);
      assert es == init + [es[|es| - 1]];
    }
  }

  lemma {:induction false} FilterChooses(es: seq<Entry>, flags: Filters)
    ensures forall x :: x in Filtered(es, flags) ==> KeepIntended(flags, x)
    ensures forall x :: x in Rejected(es, flags) ==> !KeepIntended(flags, x)
  {
    if es != [] {
      FilterChooses(es[..|es| - 1], flags);
    }
  }

  /** processFilterFlags has sorted the first i entries of `es` onto the lists f0 and u0, giving f and u. */
  ghost predicate SplitSoFar(f: seq<Entry>, u: seq<Entry>, f0: seq<Entry>, u0: seq<Entry>, es: seq<Entry>, flags: Filters, i: int) {
    && 0 <= i <= |es|
    && f == f0 + Filtered(es[..i], flags)
    && u == u0 + Rejected(es[..i], flags)
  }

  /** Entry i goes to the list the filter chooses for it. */
  lemma SplitOneMore(f: seq<Entry>, u: seq<Entry>, f0: seq<Entry>, u0: seq<Entry>, es: seq<Entry>, flags: Filters, i: int)
    requires SplitSoFar(f, u, f0, u0, es, flags, i) && i < |es|
    ensures KeepIntended(flags, es[i]) ==> SplitSoFar(f + [es[i]], u, f0, u0, es, flags, i + 1)
    ensures !KeepIntended(flags, es[i]) ==> SplitSoFar(f, u + [es[i]], f0, u0, es, flags, i + 1)
  {
    assert es[..i + 1] == es[..i] + [es[i]];
    FilterStep(es[..i], es[i], flags);
  }

  /** All of `es` sorted: the lists are extended by its filtered and its rejected entries. */
  lemma SplitDone(f: seq<Entry>, u: seq<Entry>, f0: seq<Entry>, u0: seq<Entry>, es: seq<Entry>, flags: Filters)
    requires SplitSoFar(f, u, f0, u0, es, flags, |es|)
    ensures f == f0 + Filtered(es, flags) && u == u0 + Rejected(es, flags)
    ensures |f0| <= |f| && f[..|f0|] == f0
  {
    assert es[..|es|] == es;
  }

  /** The entries processFilterFlags builds from a batch, with the lister's details. */
  function Parsed(batch: seq<UdsEntry>, details: string): (r: seq<Entry>)
    ensures |r| == |batch|
    ensures forall i :: 0 <= i < |batch| ==> r[i] == FromUds(batch[i], details)
  {
    seq(|batch|, i requires 0 <= i < |batch| => FromUds(batch[i], details))
  }

  /** m_statInProgress after loadEntryDetails(id). */
  function WithStat(s: seq<int>, id: int): seq<int> {
    if id in s then s else s + [id]
  }

  predicate Distinct(s: seq<int>) {
    forall i, j :: 0 <= i < j < |s| ==> s[i] != s[j]
  }

  /** Asking twice for the same id is asking once; no id is ever tracked twice. */
  lemma WithStatIdempotent(s: seq<int>, id: int)
    ensures WithStat(WithStat(s, id), id) == WithStat(s, id)
    ensures id in WithStat(s, id)
    ensures Distinct(s) ==> Distinct(WithStat(s, id))
  {
  }

  class DirectoryPrivate {
    var directory: string
    var filteredEntries: seq<Entry>
    var filteredEntriesCount: int
    var unusedEntries: seq<Entry>
    var lastEntry: Entry
    var lastEntryId: int
    var statInProgress: seq<int>
    var details: string
    var sortFlags: bv32
    var filterFlags: Filters

    /** The counter matches the filtered list, the cache holds a copy of the entry it names, no stat runs twice. */
    ghost predicate Valid()
      reads this
    {
      && filteredEntriesCount == |filteredEntries|
      && (lastEntryId == -1 || (0 <= lastEntryId < |filteredEntries| && lastEntry == filteredEntries[lastEntryId]))
      && Distinct(statInProgress)
    }

    constructor (directory: string)
      ensures Valid() && this.directory == directory
      ensures filteredEntries == [] && unusedEntries == [] && statInProgress == []
      ensures lastEntryId == -1 && filterFlags == NoFilter && sortFlags == NoSort && details == ""
    {
      this.directory := directory;
      filteredEntries := [];
      filteredEntriesCount := 0;
      unusedEntries := [];
      lastEntry := EmptyEntry;
      lastEntryId := -1;
      statInProgress := [];
      details := "";
      sortFlags := NoSort;
      filterFlags := NoFilter;
    }

    /** setDetails(details) */
    method SetDetails(details: string)
      modifies this
      ensures this.details == details
      ensures filteredEntries == old(filteredEntries) && unusedEntries == old(unusedEntries)
      ensures filteredEntriesCount == old(filteredEntriesCount)
      ensures lastEntry == old(lastEntry) && lastEntryId == old(lastEntryId) && statInProgress == old(statInProgress)
      ensures filterFlags == old(filterFlags) && sortFlags == old(sortFlags) && directory == old(directory)
    {
      this.details := details;
    }

    /** setFilter(filters); filter() then returns them. Entries already filtered stay where they are. */
    method SetFilter(filters: Filters)
      modifies this
      ensures filterFlags == filters && Filter() == filters
      ensures filteredEntries == old(filteredEntries) && unusedEntries == old(unusedEntries)
      ensures filteredEntriesCount == old(filteredEntriesCount)
      ensures lastEntry == old(lastEntry) && lastEntryId == old(lastEntryId) && statInProgress == old(statInProgress)
      ensures details == old(details) && sortFlags == old(sortFlags) && directory == old(directory)
    {
      filterFlags := filters;
    }

    /** setSorting(sort); sorting() then returns it. */
    method SetSorting(sort: bv32)
      modifies this
      ensures sortFlags == sort && Sorting() == sort
      ensures filteredEntries == old(filteredEntries) && unusedEntries == old(unusedEntries)
      ensures filteredEntriesCount == old(filteredEntriesCount)
      ensures lastEntry == old(lastEntry) && lastEntryId == old(lastEntryId) && statInProgress == old(statInProgress)
      ensures details == old(details) && filterFlags == old(filterFlags) && directory == old(directory)
    {
      sortFlags := sort;
    }

    /** filter() */
    function Filter(): (r: Filters)
      reads this
      ensures r == filterFlags
    {
      filterFlags
    }

    /** sorting() */
    function Sorting(): (r: bv32)
      reads this
      ensures r == sortFlags
    {
      sortFlags
    }

    /**
      entry(index): the filtered entry at a valid index, the empty entry
      otherwise. The last valid index is remembered with a copy of its
      entry, and a repeated request is served from that copy.
     */
    method GetEntry(index: int) returns (e: Entry)
      requires Valid()
      modifies this
      ensures Valid()
      ensures e == if 0 <= index < |filteredEntries| then filteredEntries[index] else EmptyEntry
      ensures old(lastEntryId) >= 0 && old(lastEntryId) == index ==> e == old(lastEntry)
      ensures lastEntryId == if 0 <= index < |filteredEntries| then index else -1
      ensures filteredEntries == old(filteredEntries) && unusedEntries == old(unusedEntries)
      ensures statInProgress == old(statInProgress) && filterFlags == old(filterFlags)
      ensures details == old(details) && sortFlags == old(sortFlags) && directory == old(directory)
    {
      if lastEntryId >= 0 && lastEntryId == index {
        e := lastEntry;
      } else if index >= 0 && index < filteredEntriesCount {
        lastEntryId := index;
        lastEntry := filteredEntries[index];
        e := lastEntry;
      } else {
        lastEntryId := -1;
        e := EmptyEntry;
      }
    }

    /**
      processFilterFlags(entries): each incoming entry, built with the
      current details, is appended to the filtered list when the filter keeps
      it and to the unused list otherwise; then the counter is updated.
     */
    method ProcessFilterFlags(batch: seq<UdsEntry>)
      requires Valid()
      modifies this
      ensures Valid()
      ensures filteredEntries == old(filteredEntries) + Filtered(Parsed(batch, details), filterFlags)
      ensures unusedEntries == old(unusedEntries) + Rejected(Parsed(batch, details), filterFlags)
      ensures lastEntry == old(lastEntry) && lastEntryId == old(lastEntryId) && statInProgress == old(statInProgress)
      ensures filterFlags == old(filterFlags) && details == old(details)
      ensures sortFlags == old(sortFlags) && directory == old(directory)
    {
      ghost var parsed := Parsed(batch, details);
      var i := 0;
      while i < |batch|
        invariant 0 <= i <= |batch|
        invariant SplitSoFar(filteredEntries, unusedEntries, old(filteredEntries), old(unusedEntries), parsed, filterFlags, i)
        invariant lastEntry == old(lastEntry) && lastEntryId == old(lastEntryId) && statInProgress == old(statInProgress)
        invariant filterFlags == old(filterFlags) && details == old(details)
        invariant sortFlags == old(sortFlags) && directory == old(directory)
        invariant filteredEntriesCount == old(filteredEntriesCount)
      {
        var e := FromUds(batch[i], details);
        SplitOneMore(filteredEntries, unusedEntries, old(filteredEntries), old(unusedEntries), parsed, filterFlags, i);
        if KeepIntended(filterFlags, e) {
          filteredEntries := filteredEntries + [e];
        } else {
          unusedEntries := unusedEntries + [e];
        }
        i := i + 1;
      }
      SplitDone(filteredEntries, unusedEntries, old(filteredEntries), old(unusedEntries), parsed, filterFlags);
      filteredEntriesCount := |filteredEntries|;
    }

    /** slotEntries(job, entries): a non-empty batch is filtered; sorting has no effect yet. */
    method SlotEntries(batch: seq<UdsEntry>)
      requires Valid()
      modifies this
      ensures Valid()
      ensures filteredEntries == old(filteredEntries) + Filtered(Parsed(batch, details), filterFlags)
      ensures unusedEntries == old(unusedEntries) + Rejected(Parsed(batch, details), filterFlags)
      ensures batch == [] ==> filteredEntriesCount == old(filteredEntriesCount)
      ensures lastEntry == old(lastEntry) && lastEntryId == old(lastEntryId) && statInProgress == old(statInProgress)
      ensures filterFlags == old(filterFlags) && details == old(details)
      ensures sortFlags == old(sortFlags) && directory == old(directory)
    {
      if |batch| > 0 {
        ProcessFilterFlags(batch);
      }
    }

    /** loadEntryDetails(id): an id already being fetched is left alone; otherwise it is recorded. */
    method LoadEntryDetails(id: int)
      requires Valid()
      modifies this
      ensures Valid()
      ensures statInProgress == WithStat(old(statInProgress), id)
      ensures filteredEntries == old(filteredEntries) && unusedEntries == old(unusedEntries)
      ensures filteredEntriesCount == old(filteredEntriesCount)
      ensures lastEntry == old(lastEntry) && lastEntryId == old(lastEntryId)
      ensures filterFlags == old(filterFlags) && details == old(details)
      ensures sortFlags == old(sortFlags) && directory == old(directory)
    {
      if id in statInProgress {
        return;
      }
      statInProgress := statInProgress + [id];
    }
  }
}
