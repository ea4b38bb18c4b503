/**
  KDirListerV2Private: the list of opened directories and the table from a
  directory's url to its index in that list.
 */
module KDirListerV2Private {
  import opened Wrappers
  import KDirectory

  /** KDirListerV2::OpenUrlFlags */
  const NoFlags: bv32 := 0x0
  const Keep: bv32 := 0x1
  const Reload: bv32 := 0x2

  /** What urlToIndex answers for an unknown url. */
  const NotFound: int := -100

  /** The table is right: every mapped url names a directory at that index with that url. */
  predicate Consistent(urls: seq<string>, m: map<string, int>) {
    forall u :: u in m ==> 0 <= m[u] < |urls| && urls[m[u]] == u
  }

  /** urlToIndex(url) on a table. */
  function IndexOf(m: map<string, int>, url: string): (i: int)
    ensures url in m ==> i == m[url]
    ensures url !in m ==> i == NotFound
  {
    if url in m then m[url] else NotFound
  }

  /** newUrl(url) on the urls of the list and the table. */
  function NewUrlOf(urls: seq<string>, m: map<string, int>, url: string): (seq<string>, map<string, int>) {
    (urls + [url], m[url := |urls|])
  }

  /** A new directory keeps the table right and is found at the end of the list. */
  lemma NewUrlConsistent(urls: seq<string>, m: map<string, int>, url: string)
    requires Consistent(urls, m)
    ensures Consistent(NewUrlOf(urls, m, url).0, NewUrlOf(urls, m, url).1)
    ensures IndexOf(NewUrlOf(urls, m, url).1, url) == |urls|
  {
  }

  /**
    removeUrlBookkeepingAndData(url) as written: an unknown url aborts (None);
    otherwise the directory is removed from the list and the url from the
    table, and the indices of the directories after it are NOT shifted. A
    stale index past the end would make removeAt fail: None as well.
   */
  function RemoveAsWritten(urls: seq<string>, m: map<string, int>, url: string): Option<(seq<string>, map<string, int>)> {
    var index := IndexOf(m, url);
    if index < -1 then None
    else if index < 0 || index >= |urls| then None
    else Some((urls[..index] + urls[index + 1..], m - {url}))
  }

  /** addUrl(url, flags) as written. */
  function AddUrlAsWritten(urls: seq<string>, m: map<string, int>, url: string, flags: bv32): Option<(seq<string>, map<string, int>)> {
    if url in m && flags & Reload != 0 then
      match RemoveAsWritten(urls, m, url)
      case None => None
      case Some(removed) => Some(NewUrlOf(removed.0, removed.1, url))
    else Some(NewUrlOf(urls, m, url))
  }

  /**
    The discrepancy: open "a", open "b", reload "a". The table then sends
    "b" to index 1, where the new "a" sits.
   */
  lemma ReloadLeavesStaleIndex()
    ensures var s1 := NewUrlOf([], map[], "a");
      var s2 := NewUrlOf(s1.0, s1.1, "b");
      var s3 := AddUrlAsWritten(s2.0, s2.1, "a", Reload);
      && Consistent(s2.0, s2.1)
      && s3.Some?
      && s3.value.0 == ["b", "a"]
      && IndexOf(s3.value.1, "b") == 1
      && s3.value.0[1] == "a"
      && !Consistent(s3.value.0, s3.value.1)
  {
    var s1 := NewUrlOf([], map[], "a");
    var s2 := NewUrlOf(s1.0, s1.1, "b");
    assert s2.0 == ["a", "b"] && s2.1 == map["a" := 0, "b" := 1];
    var removed := (s2.0[..0] + s2.0[1..], s2.1 - {"a"});
    assert RemoveAsWritten(s2.0, s2.1, "a") == Some(removed);
    assert removed.0 == ["b"];
    var s3 := AddUrlAsWritten(s2.0, s2.1, "a", Reload);
    assert s3 == Some(NewUrlOf(["b"], removed.1, "a"));
    assert s3.value.1["b"] == 1;
  }

  /** The table after removing `url` at `index`: later indices move down by one. */
  function Shifted(m: map<string, int>, url: string, index: int): (r: map<string, int>)
    ensures r.Keys == m.Keys - {url}
  {
    map u | u in m && u != url :: if m[u] > index then m[u] - 1 else m[u]
  }

  /** Removal with the shift keeps the table right. */
  lemma RemoveShiftedConsistent(urls: seq<string>, m: map<string, int>, url: string)
    requires Consistent(urls, m) && url in m
    ensures var i := m[url];
      Consistent(urls[..i] + urls[i + 1..], Shifted(m, url, i))
  {
    var i := m[url];
    var rest := urls[..i] + urls[i + 1..];
    var r := Shifted(m, url, i);
    forall u | u in r
      ensures 0 <= r[u] < |rest| && rest[r[u]] == u
    {
      assert m[u] != i;
      if m[u] > i {
        assert rest[m[u] - 1] == urls[m[u]];
      } else {
        assert rest[m[u]] == urls[m[u]];
      }
    }
  }

  class ListerPrivate {
    var dirs: seq<KDirectory.Directory>
    var urlToIndex: map<string, int>
    var details: string

    /** The urls of the listed directories, in list order. */
    ghost function Urls(): (r: seq<string>)
      reads this
      ensures |r| == |dirs|
      ensures forall i :: 0 <= i < |dirs| ==> r[i] == dirs[i].url
    {
      seq(|dirs|, i requires 0 <= i < |dirs| reads this => dirs[i].url)
    }

    ghost predicate Valid()
      reads this
    {
      Consistent(Urls(), urlToIndex)
    }

    /** KDirListerV2Private(): no directories, "0" details. */
    constructor ()
      ensures Valid() && dirs == [] && urlToIndex == map[] && details == "0"
    {
      dirs := [];
      urlToIndex := map[];
      details := "0";
    }

    /** newUrl(url): a new, empty directory at the end of the list, its url mapped to that index. */
    method NewUrl(url: string)
      requires Valid()
      modifies this
      ensures Valid()
      ensures |dirs| == |old(dirs)| + 1 && dirs[..|old(dirs)|] == old(dirs)
      ensures fresh(dirs[|dirs| - 1]) && dirs[|dirs| - 1].url == url && dirs[|dirs| - 1].entries == []
      ensures urlToIndex == old(urlToIndex)[url := |dirs| - 1]
      ensures details == old(details)
    {
      var dir := new KDirectory.Directory(url);
      dirs := dirs + [dir];
      var index := |dirs| - 1;
      urlToIndex := urlToIndex[dir.url := index];
      assert Urls() == old(Urls()) + [url];
    }

    /**
      removeUrlBookkeepingAndData(url): an unknown url aborts (`aborted`,
      nothing changes); a known one is removed from the list and the table,
      and the indices after it move down by one (see RemoveAsWritten for the
      code as written, which does not move them).
     */
    method RemoveUrlBookkeepingAndData(url: string) returns (aborted: bool)
      requires Valid()
      modifies this
      ensures Valid()
      ensures aborted <==> url !in old(urlToIndex)
      ensures aborted ==> dirs == old(dirs) && urlToIndex == old(urlToIndex)
      ensures !aborted ==> var i := old(urlToIndex)[url];
        dirs == old(dirs)[..i] + old(dirs)[i + 1..] && urlToIndex == Shifted(old(urlToIndex), url, i)
      ensures details == old(details)
    {
      var index := UrlToIndex(url);
      if index < -1 {
        return true;
      }
      aborted := false;
      RemoveShiftedConsistent(Urls(), urlToIndex, url);
      ghost var rest := Urls()[..index] + Urls()[index + 1..];
      dirs := dirs[..index] + dirs[index + 1..];
      urlToIndex := Shifted(urlToIndex, url, index);
      assert Urls() == rest;
    }

    /** addUrl(url, flags): Reload of a known url first removes it; then a new directory is added. */
    method AddUrl(url: string, flags: bv32)
      requires Valid()
      modifies this
      ensures Valid()
      ensures |dirs| >= 1 && dirs[|dirs| - 1].url == url && fresh(dirs[|dirs| - 1])
      ensures UrlToIndex(url) == |dirs| - 1
      ensures url in old(urlToIndex) && flags & Reload != 0 ==>
        var i := old(urlToIndex)[url];
        dirs[..|dirs| - 1] == old(dirs)[..i] + old(dirs)[i + 1..]
        && urlToIndex == Shifted(old(urlToIndex), url, i)[url := |dirs| - 1]
      ensures !(url in old(urlToIndex) && flags & Reload != 0) ==>
        dirs[..|dirs| - 1] == old(dirs) && urlToIndex == old(urlToIndex)[url := |dirs| - 1]
    {
      if url in urlToIndex && flags & Reload != 0 {
        var _ := RemoveUrlBookkeepingAndData(url);
      }
      NewUrl(url);
    }

    /** urlToIndex(url): the mapped index, or -100; a found index names a directory with that url. */
    function UrlToIndex(url: string): (i: int)
      reads this
      ensures i == IndexOf(urlToIndex, url)
      ensures Valid() && i != NotFound ==> 0 <= i < |dirs| && dirs[i].url == url
    {
      if url in urlToIndex then urlToIndex[url] else NotFound
    }

    /** indexExists(index) */
    function IndexExists(index: int): (r: bool)
      reads this
      ensures r <==> 0 <= index < |dirs|
    {
      index < |dirs| && index >= 0
    }

    /** indexToUrl(index): the url of the directory there, the empty string past the end. */
    function IndexToUrl(index: int): (u: string)
      reads this
      requires 0 <= index
      ensures index < |dirs| ==> u == dirs[index].url
      ensures index >= |dirs| ==> u == ""
    {
      if index < |dirs| then dirs[index].url else ""
    }

    /** directory(index): the directory there, null (None) past the end. */
    function Directory(index: int): (d: Option<KDirectory.Directory>)
      reads this
      requires 0 <= index
      ensures d.Some? <==> index < |dirs|
      ensures d.Some? ==> d.value == dirs[index]
    {
      if index < |dirs| then Some(dirs[index]) else None
    }
  }

  /** On a consistent table, urlToIndex and indexToUrl are inverse on every mapped url. */
  lemma IndexRoundTrip(urls: seq<string>, m: map<string, int>, url: string)
    requires Consistent(urls, m) && url in m
    ensures 0 <= IndexOf(m, url) < |urls| && urls[IndexOf(m, url)] == url
  {
  }
}
