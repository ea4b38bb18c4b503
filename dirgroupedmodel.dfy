/**
  DirGroupedModel: one row per distinct group key among the entries of the
  listed directory, built up incrementally as entries arrive, each row
  with a filter model for its group.
 */
module DirGroupedModel {
  import Wrappers
  import opened KDirectoryEntry
  import opened DirListModel
  import KDirectory
  import DirGroupedProxyModel

  /** DirGroupedModel::Roles: the one role, the group key of a row. */
  const GroupedName: int := UserRole + 1

  predicate Distinct(keys: seq<Variant>) {
    forall i, j :: 0 <= i < j < |keys| ==> keys[i] != keys[j]
  }

  /**
    The group key processEntry computes for an entry: the entry's value for
    the grouping role; the empty value for Thumbnail and for a role outside
    the enumeration; no key at all (None) for Hidden and None.
   */
  function GroupKey(e: Entry, groupby: int, lookup: Lookup): (k: Wrappers.Option<Variant>)
    ensures k.None? <==> groupby == Hidden || groupby == None
    ensures Name <= groupby <= Group && groupby != Thumbnail ==> k == Wrappers.Some(RowData(e, groupby, lookup))
    ensures groupby == Thumbnail || !(Name <= groupby <= None) ==> k == Wrappers.Some(Invalid)
  {
    if groupby == Name then Wrappers.Some(Str(e.name))
    else if groupby == BaseName then Wrappers.Some(Str(Basename(e)))
    else if groupby == DirListModel.Extension then Wrappers.Some(Str(KDirectoryEntry.Extension(e)))
    else if groupby == MimeComment || groupby == MimeIcon then Wrappers.Some(lookup(e, groupby))
    else if groupby == Thumbnail then Wrappers.Some(Invalid)
    else if Size <= groupby <= Group then Wrappers.Some(lookup(e, groupby))
    else if groupby == Hidden || groupby == None then Wrappers.None
    else Wrappers.Some(Invalid)
  }

  /** The key list after one entry: its key is appended when it is new. */
  function AddKey(keys: seq<Variant>, k: Wrappers.Option<Variant>): seq<Variant> {
    if k.Some? && k.value !in keys then keys + [k.value] else keys
  }

  /** The key list after the entries `es`, processed in order. */
  function Grouped(keys: seq<Variant>, es: seq<Entry>, groupby: int, lookup: Lookup): seq<Variant>
    decreases |es|
  {
    if es == [] then keys
    else AddKey(Grouped(keys, es[..|es| - 1], groupby, lookup), GroupKey(es[|es| - 1], groupby, lookup))
  }

  /**
    Grouping keeps the keys distinct and in first-seen order: the old keys
    stay in front, every processed entry's key is in the list, and every
    key in the list is an old one or the key of a processed entry.
   */
  lemma {:induction false} GroupedKeys(keys: seq<Variant>, es: seq<Entry>, groupby: int, lookup: Lookup)
    requires Distinct(keys)
    ensures var r := Grouped(keys, es, groupby, lookup);
      && Distinct(r)
      && keys <= r
      && (forall i :: 0 <= i < |es| && GroupKey(es[i], groupby, lookup).Some? ==> GroupKey(es[i], groupby, lookup).value in r)
      && (forall k :: k in r ==> k in keys || exists i :: 0 <= i < |es| && GroupKey(es[i], groupby, lookup) == Wrappers.Some(k))
    decreases |es|
  {
    if es != [] {
      var init := es[..|es| - 1];
      GroupedKeys(keys, init, groupby, lookup);
      var prev := Grouped(keys, init, groupby, lookup);
      var r := Grouped(keys, es, groupby, lookup);
      forall i | 0 <= i < |es| && GroupKey(es[i], groupby, lookup).Some?
        ensures GroupKey(es[i], groupby, lookup).value in r
      {
        if i < |es| - 1 {
          assert es[i] == init[i];
        }
      }
      forall k | k in r
        ensures k in keys || exists i :: 0 <= i < |es| && GroupKey(es[i], groupby, lookup) == Wrappers.Some(k)
      {
        if k in prev {
          if k !in keys {
            var i :| 0 <= i < |init| && GroupKey(init[i], groupby, lookup) == Wrappers.Some(k);
            assert es[i] == init[i];
          }
        } else {
          assert GroupKey(es[|es| - 1], groupby, lookup) == Wrappers.Some(k);
        }
      }
    }
  }

  /**
    Entries processed in two batches give the same keys as the two batches
    processed as one: the incremental slots agree with a single pass.
   */
  lemma {:induction false} GroupedInBatches(keys: seq<Variant>, a: seq<Entry>, b: seq<Entry>, groupby: int, lookup: Lookup)
    ensures Grouped(Grouped(keys, a, groupby, lookup), b, groupby, lookup) == Grouped(keys, a + b, groupby, lookup)
    decreases |b|
  {
    if b == [] {
      assert a + b == a;
    } else {
      GroupedInBatches(keys, a, b[..|b| - 1], groupby, lookup);
      assert (a + b)[..|a + b| - 1] == a + b[..|b| - 1];
      assert (a + b)[|a + b| - 1] == b[|b| - 1];
    }
  }

  /**
    A filter set to the grouping role and a row's key keeps that row: the
    key processEntry files an entry under is the value the filter compares.
   */
  lemma GroupFilterKeepsEntry(p: DirGroupedProxyModel.Proxy, e: Entry, groupby: int, lookup: Lookup)
    requires Name <= groupby <= Group && groupby != Thumbnail
    requires p.acceptedRole == groupby && GroupKey(e, groupby, lookup) == Wrappers.Some(p.filterValue)
    ensures p.FilterAcceptsRow(e, lookup)
  {
    DirGroupedProxyModel.AcceptsByRowValue(p, e, lookup);
  }

  class GroupedModel {
    var groupby: int
    var distinctGroupKey: seq<Variant>
    var groupList: seq<DirGroupedProxyModel.Proxy>
    var currentRowCount: int
    var currentEntryRowCount: int

    /**
      The keys are distinct, each has its filter model (modelAtIndex may add
      one filter model ahead of any key), and the row count is the number
      of keys.
     */
    ghost predicate Valid()
      reads this
    {
      && Distinct(distinctGroupKey)
      && |distinctGroupKey| <= |groupList|
      && currentRowCount == |distinctGroupKey|
      && 0 <= currentEntryRowCount
    }

    /** DirGroupedModel(): a value-initialised grouping role (0), no keys, no groups. */
    constructor ()
      ensures Valid()
      ensures groupby == 0 && distinctGroupKey == [] && groupList == []
      ensures currentRowCount == 0 && currentEntryRowCount == 0
    {
      groupby := 0;
      distinctGroupKey := [];
      groupList := [];
      currentRowCount := 0;
      currentEntryRowCount := 0;
    }

    /** setGroupby(role): a different role is stored (`changed`, groupbyChanged); the same role changes nothing. */
    method SetGroupby(role: int) returns (changed: bool)
      modifies this
      ensures changed <==> old(groupby) != role
      ensures groupby == role
      ensures distinctGroupKey == old(distinctGroupKey) && groupList == old(groupList)
      ensures currentRowCount == old(currentRowCount) && currentEntryRowCount == old(currentEntryRowCount)
    {
      changed := role != groupby;
      if changed {
        groupby := role;
      }
    }

    /** rowCount(): the number of distinct group keys. */
    function RowCount(): (n: int)
      reads this
      ensures Valid() ==> n == |distinctGroupKey|
    {
      currentRowCount
    }

    /**
      data(index, role): the group key of the row for the first column of a
      valid index, the empty value otherwise.
     */
    function Data(valid: bool, row: int, column: int): (r: Variant)
      reads this
      requires valid && column == 0 ==> 0 <= row < |distinctGroupKey|
      ensures valid && column == 0 ==> r == distinctGroupKey[row]
      ensures !(valid && column == 0) ==> r == Invalid
    {
      if !valid then Invalid
      else if column + UserRole + 1 == GroupedName then distinctGroupKey[row]
      else Invalid
    }

    /**
      processEntry(dir, id) for the entry `e` at id: under Hidden and None
      nothing happens; otherwise a key not yet present gets a new row and a
      new filter model, and a present key changes nothing.
     */
    method ProcessEntry(e: Entry, lookup: Lookup)
      requires Valid()
      modifies this
      ensures Valid()
      ensures distinctGroupKey == AddKey(old(distinctGroupKey), GroupKey(e, groupby, lookup))
      ensures |distinctGroupKey| == |old(distinctGroupKey)| ==> groupList == old(groupList)
      ensures |distinctGroupKey| > |old(distinctGroupKey)| ==>
        |groupList| == |old(groupList)| + 1 && groupList[..|old(groupList)|] == old(groupList)
        && fresh(groupList[|groupList| - 1])
      ensures groupby == old(groupby) && currentEntryRowCount == old(currentEntryRowCount)
    {
      var potentialNewGroupKey := GroupKey(e, groupby, lookup);
      if potentialNewGroupKey.None? {
        return;
      }
      if potentialNewGroupKey.value !in distinctGroupKey {
        var model := new DirGroupedProxyModel.Proxy();
        groupList := groupList + [model];
        distinctGroupKey := distinctGroupKey + [potentialNewGroupKey.value];
        currentRowCount := |distinctGroupKey|;
      }
    }

    /**
      slotDirectoryContentChanged(dir): under None a single group with the
      empty key is created the first time and nothing happens afterwards;
      otherwise only the entries from the processed count on are grouped,
      and the processed count becomes the directory's entry count.
     */
    method SlotDirectoryContentChanged(dir: KDirectory.Directory, lookup: Lookup)
      requires Valid() && dir.Valid()
      modifies this
      ensures Valid() && groupby == old(groupby)
      ensures groupby == None && old(groupList) == [] ==>
        distinctGroupKey == [Invalid] && |groupList| == 1 && fresh(groupList[0])
        && currentEntryRowCount == old(currentEntryRowCount)
      ensures groupby == None && old(groupList) != [] ==>
        distinctGroupKey == old(distinctGroupKey) && groupList == old(groupList)
        && currentEntryRowCount == old(currentEntryRowCount)
      ensures groupby != None ==>
        var start := if old(currentEntryRowCount) <= |dir.entries| then old(currentEntryRowCount) else |dir.entries|;
        distinctGroupKey == Grouped(old(distinctGroupKey), dir.entries[start..], groupby, lookup)
        && currentEntryRowCount == |dir.entries|
    {
      if groupby == None {
        if groupList == [] {
          var model := new DirGroupedProxyModel.Proxy();
          groupList := groupList + [model];
          distinctGroupKey := distinctGroupKey + [Invalid];
          currentRowCount := |distinctGroupKey|;
        }
        return;
      }
      var currentEntryCount := |dir.entries|;
      var start := if currentEntryRowCount <= currentEntryCount then currentEntryRowCount else currentEntryCount;
      var i := currentEntryRowCount;
      while i < currentEntryCount
        invariant Valid() && groupby == old(groupby) && dir.entries == old(dir.entries)
        invariant start <= i <= currentEntryCount || i == old(currentEntryRowCount) > currentEntryCount
        invariant i <= currentEntryCount ==>
          distinctGroupKey == Grouped(old(distinctGroupKey), dir.entries[start..i], groupby, lookup)
        invariant i > currentEntryCount ==> distinctGroupKey == old(distinctGroupKey)
      {
        ProcessEntry(dir.entries[i], lookup);
        assert dir.entries[start..i + 1][..i - start] == dir.entries[start..i];
        i := i + 1;
      }
      currentEntryRowCount := currentEntryCount;
      if old(currentEntryRowCount) > currentEntryCount {
        assert dir.entries[start..] == [];
      } else {
        assert dir.entries[start..i] == dir.entries[start..];
      }
    }

    /**
      slotCompleted(dir): entries left over since the last change are handled
      as by slotDirectoryContentChanged: grouped, or under None the single
      empty-key group is created if there is none yet.
     */
    method SlotCompleted(dir: KDirectory.Directory, lookup: Lookup)
      requires Valid() && dir.Valid()
      modifies this
      ensures Valid() && groupby == old(groupby)
      ensures |dir.entries| <= old(currentEntryRowCount) ==>
        distinctGroupKey == old(distinctGroupKey) && groupList == old(groupList)
        && currentEntryRowCount == old(currentEntryRowCount)
      ensures |dir.entries| > old(currentEntryRowCount) && groupby != None ==>
        distinctGroupKey == Grouped(old(distinctGroupKey), dir.entries[old(currentEntryRowCount)..], groupby, lookup)
        && currentEntryRowCount == |dir.entries|
      ensures |dir.entries| > old(currentEntryRowCount) && groupby == None && old(groupList) == [] ==>
        distinctGroupKey == [Invalid] && |groupList| == 1 && fresh(groupList[0])
        && currentEntryRowCount == old(currentEntryRowCount)
      ensures |dir.entries| > old(currentEntryRowCount) && groupby == None && old(groupList) != [] ==>
        distinctGroupKey == old(distinctGroupKey) && groupList == old(groupList)
        && currentEntryRowCount == old(currentEntryRowCount)
    {
      if dir.count > currentEntryRowCount {
        SlotDirectoryContentChanged(dir, lookup);
      }
    }

    /** clearAdministrativeData(): no keys, no groups, both counters zero. */
    method ClearAdministrativeData()
      modifies this
      ensures Valid()
      ensures distinctGroupKey == [] && groupList == [] && currentRowCount == 0 && currentEntryRowCount == 0
      ensures groupby == old(groupby)
    {
      distinctGroupKey := [];
      groupList := [];
      currentRowCount := 0;
      currentEntryRowCount := 0;
    }

    /**
      modelAtIndex(index): the filter model of a row, null (None) outside
      the group list; under None, asking for row 0 of an empty list first
      creates its filter model.
     */
    method ModelAtIndex(index: int) returns (m: Wrappers.Option<DirGroupedProxyModel.Proxy>)
      requires Valid()
      modifies this
      ensures Valid()
      ensures index == 0 && groupby == None && old(groupList) == [] ==> |groupList| == 1 && fresh(groupList[0])
      ensures !(index == 0 && groupby == None && old(groupList) == []) ==> groupList == old(groupList)
      ensures m.Some? <==> 0 <= index < |groupList|
      ensures m.Some? ==> m.value == groupList[index]
      ensures distinctGroupKey == old(distinctGroupKey) && groupby == old(groupby)
      ensures currentRowCount == old(currentRowCount) && currentEntryRowCount == old(currentEntryRowCount)
    {
      if index == 0 && groupby == None && groupList == [] {
        var model := new DirGroupedProxyModel.Proxy();
        groupList := groupList + [model];
      }
      if index >= 0 && index < |groupList| {
        return Wrappers.Some(groupList[index]);
      }
      return Wrappers.None;
    }
  }
}
