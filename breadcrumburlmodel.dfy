/**
  BreadcrumbUrlModel: the current url, its path split into segments (the rows
  of the list model), and a back/forward history of urls with a current index.
  A url is abstracted to the part before its path and the path itself; the
  directory separator is '/'.
 */
module BreadcrumbUrlModel {

  const Sep: char := '/'

  datatype Url = Url(base: string, path: string)

  /** Index of the first separator in `s`, or |s| when there is none. */
  function FirstSep(s: string): (n: nat)
    ensures n <= |s| && Sep !in s[..n]
    ensures n < |s| ==> s[n] == Sep
  {
    if s == [] || s[0] == Sep then 0 else 1 + FirstSep(s[1..])
  }

  /** A segment as the list model shows it: non-empty and free of separators. */
  predicate Segment(s: string) {
    s != "" && Sep !in s
  }

  predicate Segments(ss: seq<string>) {
    forall i :: 0 <= i < |ss| ==> Segment(ss[i])
  }

  /** path().split(separator, SkipEmptyParts) */
  function Split(s: string): (r: seq<string>)
    ensures Segments(r)
    decreases |s|
  {
    if s == [] then []
    else
      var n := FirstSep(s);
      if n == 0 then Split(s[1..])
      else [s[..n]] + (if n < |s| then Split(s[n + 1..]) else [])
  }

  /** QStringList::join(separator) */
  function Join(ss: seq<string>): string {
    if ss == [] then ""
    else if |ss| == 1 then ss[0]
    else ss[0] + [Sep] + Join(ss[1..])
  }

  /** The path the model builds from its segments: the separator followed by the joined segments. */
  function PathOf(ss: seq<string>): string {
    [Sep] + Join(ss)
  }

  /** The separator-free start of a string is found whole by FirstSep. */
  lemma FirstSepOf(seg: string, rest: string)
    requires Sep !in seg
    ensures FirstSep(seg + rest) == |seg| || (rest != [] && rest[0] != Sep && FirstSep(seg + rest) > |seg|)
    ensures rest == [] || rest[0] == Sep ==> FirstSep(seg + rest) == |seg|
  {
    var n := FirstSep(seg + rest);
    if n > |seg| {
      assert (seg + rest)[..n][|seg|] == rest[0];
    }
  }

  /** Splitting a joined list of segments gives the segments back. */
  lemma {:induction false} SplitJoin(ss: seq<string>)
    requires Segments(ss)
    ensures Split(Join(ss)) == ss
  {
    if ss == [] {
    } else if |ss| == 1 {
      FirstSepOf(ss[0], "");
      assert ss[0] + "" == ss[0];
      assert ss[0][..|ss[0]|] == ss[0];
    } else {
      var s := Join(ss);
      var tail := [Sep] + Join(ss[1..]);
      assert s == ss[0] + tail;
      FirstSepOf(ss[0], tail);
      assert s[..|ss[0]|] == ss[0];
      assert s[|ss[0]| + 1..] == Join(ss[1..]);
      SplitJoin(ss[1..]);
      assert Split(s) == [ss[0]] + Split(Join(ss[1..]));
    }
  }

  /** A path rebuilt from segments parses back to those segments. */
  lemma SplitPathOf(ss: seq<string>)
    requires Segments(ss)
    ensures Split(PathOf(ss)) == ss
  {
    assert PathOf(ss)[1..] == Join(ss);
    SplitJoin(ss);
  }

  class Model {
    var url: Url
    var segments: seq<string>
    var urls: seq<Url>
    var index: int

    /** The index stays within the history and the current url is the history's current entry. */
    ghost predicate Valid()
      reads this
    {
      && 0 <= index
      && (urls == [] ==> index == 0)
      && (urls != [] ==> index < |urls| && url == urls[index])
    }

    constructor ()
      ensures Valid() && url == Url("", "") && segments == [] && urls == [] && index == 0
    {
      url := Url("", "");
      segments := [];
      urls := [];
      index := 0;
    }

    /** parseUrl(): the current history entry becomes the url, its path the segments. */
    method ParseUrl()
      requires 0 <= index < |urls|
      modifies this
      ensures urls == old(urls) && index == old(index)
      ensures url == urls[index] && segments == Split(url.path)
    {
      url := urls[index];
      segments := Split(url.path);
    }

    /**
      setUrl(u): drop the history after the current entry; a url different
      from the current one is appended, made current and parsed. Either way
      the current url is `u` afterwards.
     */
    method SetUrl(u: Url)
      requires Valid()
      modifies this
      ensures Valid() && url == u
      ensures var kept := if |old(urls)| > old(index) + 1 then old(urls)[..old(index) + 1] else old(urls);
        urls == (if old(url) != u then kept + [u] else kept)
      ensures old(url) != u ==> index == |urls| - 1 && segments == Split(u.path)
      ensures old(url) == u ==> index == old(index) && segments == old(segments)
    {
      while |urls| > index + 1
        invariant Valid() && url == old(url) && index == old(index) && segments == old(segments)
        invariant |urls| <= |old(urls)| && urls == old(urls)[..|urls|]
        invariant |old(urls)| > index + 1 ==> |urls| >= index + 1
        invariant |old(urls)| <= index + 1 ==> urls == old(urls)
        decreases |urls|
      {
        urls := urls[..|urls| - 1];
      }
      if url != u {
        urls := urls + [u];
        index := |urls| - 1;
        ParseUrl();
      }
    }

    /**
      append(str): a non-empty str goes to the url whose path is the
      separator followed by the old segments and str, joined.
     */
    method Append(str: string)
      requires Valid()
      modifies this
      ensures Valid()
      ensures str == "" ==> url == old(url) && segments == old(segments) && urls == old(urls) && index == old(index)
      ensures str != "" ==> url == old(url).(path := PathOf(old(segments) + [str]))
      ensures str != "" && url != old(url) && Segments(old(segments)) && Segment(str) ==>
        segments == old(segments) + [str] && index == |urls| - 1 && urls[index] == url
    {
      if str != "" {
        segments := segments + [str];
        var newUrl := url.(path := PathOf(segments));
        ghost var appended := segments;
        SetUrl(newUrl);
        if url != old(url) && Segments(old(segments)) && Segment(str) {
          SplitPathOf(appended);
        }
      }
    }

    /** parent(): drop the last segment, if any, and go to the url built from the rest. */
    method Parent()
      requires Valid()
      modifies this
      ensures Valid()
      ensures old(segments) == [] ==> url == old(url) && segments == [] && urls == old(urls) && index == old(index)
      ensures old(segments) != [] ==> url == old(url).(path := PathOf(old(segments)[..|old(segments)| - 1]))
      ensures old(segments) != [] && url != old(url) && Segments(old(segments)) ==>
        segments == old(segments)[..|old(segments)| - 1]
    {
      if |segments| > 0 {
        segments := segments[..|segments| - 1];
        var newUrl := url.(path := PathOf(segments));
        ghost var shortened := segments;
        SetUrl(newUrl);
        if url != old(url) && Segments(old(segments)) {
          SplitPathOf(shortened);
        }
      }
    }

    /**
      removeAfterIndex(i): when i + 1 is a valid segment position, keep the
      first i + 1 segments and go to the url built from them; otherwise
      nothing happens.
     */
    method RemoveAfterIndex(i: int)
      requires Valid()
      modifies this
      ensures Valid()
      ensures !(0 <= i + 1 < |old(segments)|) ==>
        url == old(url) && segments == old(segments) && urls == old(urls) && index == old(index)
      ensures 0 <= i + 1 < |old(segments)| ==> url == old(url).(path := PathOf(old(segments)[..i + 1]))
      ensures 0 <= i + 1 < |old(segments)| && url != old(url) && Segments(old(segments)) ==>
        segments == old(segments)[..i + 1]
    {
      var keep := i + 1;
      if keep >= 0 && keep < |segments| {
        var k := |segments|;
        while k > keep
          invariant Valid() && url == old(url) && urls == old(urls) && index == old(index)
          invariant keep <= k <= |old(segments)| && |segments| == k
          invariant segments == old(segments)[..k]
        {
          segments := segments[..|segments| - 1];
          k := k - 1;
        }
        var newUrl := url.(path := PathOf(segments));
        ghost var kept := segments;
        SetUrl(newUrl);
        if url != old(url) && Segments(old(segments)) {
          SplitPathOf(kept);
        }
      }
    }

    /** hasNext(): a later history entry exists. */
    function HasNext(): (r: bool)
      reads this
      ensures 0 <= index < |urls| ==> (r <==> urls[index + 1..] != [])
      ensures r ==> 0 <= index + 1 < |urls| || index < 0
    {
      |urls| > index + 1
    }

    /** hasPrevious(): an earlier history entry exists. */
    function HasPrevious(): (r: bool)
      reads this
      ensures 0 <= index < |urls| ==> (r <==> urls[..index] != [])
      ensures r ==> 0 < index < |urls|
    {
      index > 0 && index < |urls|
    }

    /** next(): one step forward in the history, reparsed; nothing when there is no later entry. */
    method Next()
      requires Valid()
      modifies this
      ensures Valid() && urls == old(urls)
      ensures old(HasNext()) ==> index == old(index) + 1 && url == urls[index] && segments == Split(url.path)
      ensures !old(HasNext()) ==> index == old(index) && url == old(url) && segments == old(segments)
    {
      if HasNext() {
        index := index + 1;
        ParseUrl();
      }
    }

    /** previous(): one step back in the history, reparsed; nothing when there is no earlier entry. */
    method Previous()
      requires Valid()
      modifies this
      ensures Valid() && urls == old(urls)
      ensures old(HasPrevious()) ==> index == old(index) - 1 && url == urls[index] && segments == Split(url.path)
      ensures !old(HasPrevious()) ==> index == old(index) && url == old(url) && segments == old(segments)
    {
      if HasPrevious() {
        index := index - 1;
        ParseUrl();
      }
    }

    /** rowCount(): one row per segment. */
    function RowCount(): (n: nat)
      reads this
      ensures n == |segments|
    {
      |segments|
    }
  }
}
