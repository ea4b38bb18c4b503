/**
  UrlUndoRedo: the back/forward history of visited urls, a list plus the
  index of the current entry. The index is left uninitialised by the
  constructor; this model starts it at 0.
 */
module UrlUndoRedo {
  import opened Wrappers

  /** next() moves to index + 1 when that entry exists, otherwise stays. */
  function NextIndex(urls: seq<string>, index: int): int {
    if index + 1 < |urls| then index + 1 else index
  }

  /** previous() moves to index - 1 when that is a valid position, otherwise stays. */
  function PreviousIndex(urls: seq<string>, index: int): int {
    if index - 1 < |urls| && index - 1 >= 0 then index - 1 else index
  }

  /** hasNext() as written: index < count. */
  function HasNextAsWritten(urls: seq<string>, index: int): bool {
    index < |urls|
  }

  /** hasNext() as intended: exactly when next() would move. */
  function HasNextIntended(urls: seq<string>, index: int): (r: bool)
    ensures r <==> NextIndex(urls, index) != index
  {
    index + 1 < |urls|
  }

  /** hasPrevious(): index > 0. */
  function HasPreviousOf(urls: seq<string>, index: int): bool {
    index > 0
  }

  /** currentUrl(): m_urls.at(index); None where at() would be out of range. */
  function CurrentUrlOf(urls: seq<string>, index: int): (r: Option<string>)
    ensures r.Some? <==> 0 <= index < |urls|
    ensures r.Some? ==> r.value in urls
  {
    if 0 <= index < |urls| then Some(urls[index]) else None
  }

  /** The states the class can reach from its constructor. */
  predicate Reachable(urls: seq<string>, index: int) {
    0 <= index && (urls == [] ==> index == 0) && (urls != [] ==> index < |urls|)
  }

  /** On every reachable state, hasPrevious() says exactly whether previous() moves. */
  lemma HasPreviousMeansPreviousMoves(urls: seq<string>, index: int)
    requires Reachable(urls, index)
    ensures HasPreviousOf(urls, index) <==> PreviousIndex(urls, index) != index
  {
  }

  /** As written, hasNext() is true on every reachable state with an entry, including the last one. */
  lemma HasNextAsWrittenOnAnyEntry(urls: seq<string>, index: int)
    requires Reachable(urls, index)
    ensures HasNextAsWritten(urls, index) <==> urls != []
  {
  }

  /** The discrepancy: at the only entry hasNext() says yes, yet next() does not move. */
  lemma HasNextAtLastEntry()
    ensures Reachable(["/home"], 0)
    ensures HasNextAsWritten(["/home"], 0)
    ensures NextIndex(["/home"], 0) == 0
    ensures !HasNextIntended(["/home"], 0)
  {
  }

  /** Every reachable state has a current url, unless the history is empty. */
  lemma ReachableHasCurrent(urls: seq<string>, index: int)
    requires Reachable(urls, index)
    ensures CurrentUrlOf(urls, index).Some? <==> urls != []
  {
  }

  class History {
    var urls: seq<string>
    var index: int

    ghost predicate Valid()
      reads this
    {
      Reachable(urls, index)
    }

    constructor ()
      ensures Valid() && urls == [] && index == 0
    {
      urls := [];
      index := 0;
    }

    /**
      add(url): first drop every entry after the current one; then a
      non-empty url is appended and becomes current, an empty one is not.
     */
    method Add(url: string)
      requires Valid()
      modifies this
      ensures Valid()
      ensures var kept := if old(index) < |old(urls)| - 1 then old(urls)[..old(index) + 1] else old(urls);
        urls == (if url != "" then kept + [url] else kept)
      ensures url != "" ==> index == |urls| - 1 && CurrentUrl() == Some(url) && !HasNext()
      ensures url == "" ==> index == old(index)
    {
      if index < |urls| - 1 {
        while |urls| - 1 > index
          invariant index == old(index) && 0 <= index
          invariant index + 1 <= |urls| <= |old(urls)|
          invariant urls == old(urls)[..|urls|]
          decreases |urls|
        {
          urls := urls[..|urls| - 1];
        }
      }
      if url != "" {
        urls := urls + [url];
        index := |urls| - 1;
      }
    }

    /** next() */
    method Next()
      requires Valid()
      modifies this
      ensures Valid() && urls == old(urls) && index == NextIndex(old(urls), old(index))
    {
      if index + 1 < |urls| {
        index := index + 1;
      }
    }

    /** previous() */
    method Previous()
      requires Valid()
      modifies this
      ensures Valid() && urls == old(urls) && index == PreviousIndex(old(urls), old(index))
    {
      if index - 1 < |urls| && index - 1 >= 0 {
        index := index - 1;
      }
    }

    /** currentUrl() */
    function CurrentUrl(): (r: Option<string>)
      reads this
      ensures r.Some? <==> 0 <= index < |urls|
      ensures r.Some? ==> r.value == urls[index]
    {
      CurrentUrlOf(urls, index)
    }

    /**
      hasNext(), the corrected form: exactly when next() moves. The code as
      written (HasNextAsWritten) also answers yes at the last entry.
     */
    function HasNext(): (r: bool)
      reads this
      ensures r <==> NextIndex(urls, index) != index
      ensures r ==> HasNextAsWritten(urls, index)
    {
      HasNextIntended(urls, index)
    }

    /** hasPrevious() */
    function HasPrevious(): (r: bool)
      reads this
      ensures index <= |urls| ==> (r <==> PreviousIndex(urls, index) != index)
    {
      HasPreviousOf(urls, index)
    }
  }
}
