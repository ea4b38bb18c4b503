/**
  AltLRU: a least-recently-used cache of values keyed by (keyname, id), with
  an optional item limit and optional expiry. A hash map holds one heap
  allocated cache entry per key; a list holds the keys from most to least
  recently used, and every entry remembers its position in that list.
  The wall clock (time(NULL)) is the parameter `now`.
 */
module AltLRU {
  import opened Wrappers

  /** (keyname, id) */
  type Key = (string, int)

  /** `exp` after init(v, expires) at time `now`: 0 stands for "never". */
  function ExpiryAt(expires: nat, now: nat): nat {
    if expires > 0 then expires + now else 0
  }

  /** isExpired(current_seconds) of an entry whose `exp` is given; current 0 reads the clock. */
  function Expired(exp: nat, current: nat, now: nat): bool {
    exp != 0 && (if current == 0 then now else current) > exp
  }

  /** init(v, 0) never expires, whatever the clock says. */
  lemma NoTimeoutNeverExpires(now: nat, current: nat, clock: nat)
    ensures ExpiryAt(0, now) == 0
    ensures !Expired(ExpiryAt(0, now), current, clock)
  {
  }

  /** init(v, e) with e > 0 expires strictly after e + now. */
  lemma TimeoutExpiresStrictlyAfter(e: nat, now: nat, t: nat, clock: nat)
    requires e > 0
    ensures ExpiryAt(e, now) == e + now
    ensures Expired(ExpiryAt(e, now), t, clock) <==> (if t == 0 then clock else t) > e + now
  {
  }

  /** An entry initialised at `now` is not expired when read at the same `now`. */
  lemma FreshNotExpired(e: nat, now: nat)
    ensures !Expired(ExpiryAt(e, now), 0, now)
  {
  }

  /** AltLRU_CacheEntry: the value, its expiry time and the list position (the key it sits under). */
  class CacheEntry<T> {
    var listIter: Key
    var value: T
    var exp: nat

    constructor (v: T, expires: nat, now: nat)
      ensures value == v && exp == ExpiryAt(expires, now)
    {
      value := v;
      exp := ExpiryAt(expires, now);
    }

    /** init(v, expires): a new value and expiry; the list position stays. */
    method Init(v: T, expires: nat, now: nat)
      modifies this
      ensures value == v && exp == ExpiryAt(expires, now) && listIter == old(listIter)
      ensures GetValue() == v
    {
      value := v;
      exp := ExpiryAt(expires, now);
    }

    /** getvalue() / getvalue_ref() */
    function GetValue(): (r: T)
      reads this
      ensures r == value
    {
      value
    }

    /** isExpired(current_seconds) */
    function IsExpired(current: nat, now: nat): (r: bool)
      reads this
      ensures exp == 0 ==> !r
      ensures exp != 0 && current != 0 ==> (r <==> current > exp)
      ensures exp != 0 && current == 0 ==> (r <==> now > exp)
    {
      Expired(exp, current, now)
    }

    /** getListIter() */
    function GetListIter(): Key
      reads this
    {
      listIter
    }

    /** setListIter(it): getListIter() then returns `it`; nothing else changes. */
    method SetListIter(it: Key)
      modifies this
      ensures GetListIter() == it && value == old(value) && exp == old(exp)
    {
      listIter := it;
    }
  }

  predicate NoDups(s: seq<Key>) {
    forall i, j :: 0 <= i < j < |s| ==> s[i] != s[j]
  }

  /** The recency list after erasing the element `k`. */
  function Without(s: seq<Key>, k: Key): (r: seq<Key>)
    ensures forall x :: x in r <==> x in s && x != k
    ensures NoDups(s) ==> NoDups(r)
    ensures NoDups(s) && k in s ==> |r| == |s| - 1
    ensures k !in s ==> r == s
  {
    if s == [] then []
    else if s[0] == k then Without(s[1..], k)
    else
      assert NoDups(s) ==> s[0] !in s[1..];
      [s[0]] + Without(s[1..], k)
  }

  /** Erasing the last element of a list without duplicates drops exactly that position. */
  lemma {:induction false} WithoutLast(s: seq<Key>)
    requires NoDups(s) && |s| > 0
    ensures Without(s, s[|s| - 1]) == s[..|s| - 1]
  {
    if |s| > 1 {
      WithoutLast(s[1..]);
      assert s[1..][..|s| - 2] == s[1..|s| - 1];
      assert s[..|s| - 1] == [s[0]] + s[1..|s| - 1];
    }
  }

  /** The recency list once the limit `max` is enforced: only the `max` most recent keys stay. */
  function Truncate(s: seq<Key>, max: nat): seq<Key> {
    if max > 0 && |s| > max then s[..max] else s
  }

  /** checkLimits has cut `s0` down to `s` from the tail, and not below the limit `max`. */
  predicate Evicting(s0: seq<Key>, s: seq<Key>, max: nat) {
    |Truncate(s0, max)| <= |s| <= |s0| && s == s0[..|s|]
  }

  /** Dropping the tail of a list still above the limit keeps checkLimits on its way. */
  lemma EvictOne(s0: seq<Key>, s: seq<Key>, t: seq<Key>, max: nat)
    requires Evicting(s0, s, max) && max > 0 && |s| > max && t == s[..|s| - 1]
    ensures Evicting(s0, t, max)
  {
    assert s0[..|s|][..|s| - 1] == s0[..|s| - 1];
  }

  /** Once the limit holds, checkLimits has left exactly the `max` most recent keys. */
  lemma EvictDone(s0: seq<Key>, s: seq<Key>, max: nat)
    requires Evicting(s0, s, max) && !(max > 0 && |s| > max)
    ensures s == Truncate(s0, max)
  {
    if !(max > 0 && |s0| > max) {
      assert s0[..|s0|] == s0;
    }
  }

  /** With the cache full, a new key pushes out exactly the old tail: the least recently used key. */
  lemma NewKeyEvictsTail(s: seq<Key>, k: Key, max: nat)
    requires NoDups(s) && k !in s && max > 0 && |s| == max
    ensures Truncate([k] + s, max) == [k] + s[..|s| - 1]
    ensures s[|s| - 1] !in Truncate([k] + s, max)
    ensures forall x :: x in s && x != s[|s| - 1] ==> x in Truncate([k] + s, max)
  {
    assert ([k] + s)[..max] == [k] + s[..|s| - 1];
    assert s[|s| - 1] !in s[..|s| - 1];
    forall x | x in s && x != s[|s| - 1] ensures x in s[..|s| - 1] {
      var i :| 0 <= i < |s| && s[i] == x;
      assert s[..|s| - 1][i] == x;
    }
  }

  /** Below the limit (or without one) nothing is evicted. */
  lemma NewKeyBelowLimit(s: seq<Key>, k: Key, max: nat)
    requires max == 0 || |s| < max
    ensures Truncate([k] + s, max) == [k] + s
  {
  }

  /** A list without duplicates has as many elements as it has distinct keys. */
  lemma {:induction false} CardOfNoDups(s: seq<Key>)
    requires NoDups(s)
    ensures |set x | x in s| == |s|
  {
    if s != [] {
      CardOfNoDups(s[1..]);
      assert (set x | x in s) == {s[0]} + (set x | x in s[1..]);
      assert s[0] !in (set x | x in s[1..]);
    }
  }

  /** AltLRU<T> */
  class Cache<T> {
    var maxCount: nat
    var storedItems: nat
    var expire: nat
    var valuemap: map<Key, CacheEntry<T>>
    var valuelist: seq<Key>

    /** Map and list describe the same keys; every entry is its own object and knows its position. */
    ghost predicate Linked()
      reads this, valuemap.Values
    {
      && (forall k :: k in valuemap ==> valuemap[k].listIter == k)
      && (forall k1, k2 :: k1 in valuemap && k2 in valuemap && k1 != k2 ==> valuemap[k1] != valuemap[k2])
      && NoDups(valuelist)
      && (forall k :: k in valuelist <==> k in valuemap)
    }

    /** ... and the counter and the limit agree with them. */
    ghost predicate Valid()
      reads this, valuemap.Values
    {
      Linked() && storedItems == |valuelist| && (maxCount > 0 ==> storedItems <= maxCount)
    }

    /** What the cache holds: key to value. */
    ghost function Contents(): map<Key, T>
      reads this, valuemap.Values
    {
      map k | k in valuemap :: valuemap[k].value
    }

    constructor (maxCount: nat, expire: nat)
      ensures Valid() && this.maxCount == maxCount && this.expire == expire
      ensures valuemap == map[] && valuelist == []
    {
      this.maxCount := maxCount;
      this.expire := expire;
      valuemap := map[];
      valuelist := [];
      storedItems := 0;
    }

    /** clear(): empty map and list, counter 0. */
    method Clear()
      modifies this
      ensures Valid() && valuemap == map[] && valuelist == [] && storedItems == 0
      ensures maxCount == old(maxCount) && expire == old(expire)
    {
      valuelist := [];
      valuemap := map[];
      storedItems := 0;
    }

    /** count(): the counter, which equals the number of map entries and of list entries. */
    function Count(): (n: nat)
      reads this, valuemap.Values
      requires Valid()
      ensures n == |valuelist| && n == |valuemap| && n == |Contents()|
    {
      CardOfNoDups(valuelist);
      assert valuemap.Keys == set x | x in valuelist;
      assert Contents().Keys == valuemap.Keys;
      storedItems
    }

    /** cacheRemove(it): erase the key from list and map; the counter is left alone. */
    method CacheRemove(k: Key)
      requires Linked() && k in valuemap
      modifies this
      ensures Linked()
      ensures valuelist == Without(old(valuelist), k) && valuemap == old(valuemap) - {k}
      ensures storedItems == old(storedItems) && maxCount == old(maxCount) && expire == old(expire)
    {
      valuelist := Without(valuelist, valuemap[k].GetListIter());
      valuemap := valuemap - {k};
    }

    /** cacheOut(it): cacheRemove and one item fewer. */
    method CacheOut(k: Key)
      requires Linked() && storedItems == |valuelist| && k in valuemap
      modifies this
      ensures Linked() && storedItems == |valuelist| && storedItems == old(storedItems) - 1
      ensures valuelist == Without(old(valuelist), k) && valuemap == old(valuemap) - {k}
      ensures maxCount == old(maxCount) && expire == old(expire)
    {
      CacheRemove(k);
      storedItems := storedItems - 1;
    }

    /** checkLimits(): evict from the tail (least recently used) until the limit holds. */
    method CheckLimits()
      requires Linked() && storedItems == |valuelist|
      modifies this
      ensures Valid()
      ensures valuelist == Truncate(old(valuelist), maxCount)
      ensures forall k :: k in valuemap ==> k in old(valuemap) && valuemap[k] == old(valuemap)[k]
      ensures maxCount == old(maxCount) && expire == old(expire)
    {
      while maxCount > 0 && storedItems > maxCount
        invariant Linked() && storedItems == |valuelist|
        invariant Evicting(old(valuelist), valuelist, maxCount)
        invariant forall k :: k in valuemap ==> k in old(valuemap) && valuemap[k] == old(valuemap)[k]
        invariant maxCount == old(maxCount) && expire == old(expire)
        decreases storedItems
      {
        var last := valuelist[|valuelist| - 1];
        WithoutLast(valuelist);
        ghost var before := valuelist;
        CacheOut(last);
        EvictOne(old(valuelist), before, valuelist, maxCount);
      }
      EvictDone(old(valuelist), valuelist, maxCount);
    }

    /**
      valuelist.splice(begin, getListIter()) then setListIter(begin): the key
      becomes the most recently used one; what the cache holds is unchanged.
     */
    method MoveToFront(k: Key)
      requires Linked() && k in valuemap
      modifies this, valuemap[k]
      ensures Linked()
      ensures valuelist == [k] + Without(old(valuelist), k) && valuemap == old(valuemap)
      ensures storedItems == old(storedItems) && maxCount == old(maxCount) && expire == old(expire)
      ensures Contents() == old(Contents())
      ensures valuemap[k].value == old(valuemap[k].value) && valuemap[k].exp == old(valuemap[k].exp)
    {
      var entry := valuemap[k];
      valuelist := [k] + Without(valuelist, entry.GetListIter());
      entry.SetListIter(k);
      assert forall x :: x in valuemap && x != k ==> valuemap[x] != entry;
    }

    /** valuemap.insert, valuelist.push_front, setListIter(begin), stored_items++ for a new entry. */
    method PushFront(k: Key, entry: CacheEntry<T>)
      requires Linked() && storedItems == |valuelist| && k !in valuemap && entry !in valuemap.Values
      modifies this, entry
      ensures Linked() && storedItems == |valuelist|
      ensures valuelist == [k] + old(valuelist) && valuemap == old(valuemap)[k := entry]
      ensures maxCount == old(maxCount) && expire == old(expire)
      ensures entry.value == old(entry.value) && entry.exp == old(entry.exp)
    {
      // The entry is not reachable from the map yet, so its position can be
      // set before it is published: nothing observes the difference.
      entry.SetListIter(k);
      valuemap := valuemap[k := entry];
      valuelist := [k] + valuelist;
      storedItems := storedItems + 1;
    }

    /**
      get(keyname, id) at time `now`: None for an absent key; an expired
      entry is cached out and gives None; otherwise its value, and the key
      moves to the front of the list.
     */
    method Get(k: Key, now: nat) returns (r: Option<T>)
      requires Valid()
      modifies this, valuemap.Values
      ensures Valid()
      ensures maxCount == old(maxCount) && expire == old(expire)
      ensures valuemap.Values <= old(valuemap.Values)
      ensures k !in old(valuemap) ==>
        r == None && valuelist == old(valuelist) && valuemap == old(valuemap) && Contents() == old(Contents())
      ensures k in old(valuemap) && old(valuemap[k].IsExpired(0, now)) ==>
        r == None && valuelist == Without(old(valuelist), k) && valuemap == old(valuemap) - {k}
        && Contents() == old(Contents()) - {k}
      ensures k in old(valuemap) && !old(valuemap[k].IsExpired(0, now)) ==>
        r == Some(old(Contents())[k]) && valuelist == [k] + Without(old(valuelist), k)
        && valuemap == old(valuemap) && Contents() == old(Contents())
    {
      if k !in valuemap {
        return None;
      }
      var entry := valuemap[k];
      if entry.IsExpired(0, now) {
        CacheOut(k);
        return None;
      }
      MoveToFront(k);
      r := Some(entry.GetValue());
    }

    /** The new-entry branch of set: allocate, push to the front, count it, enforce the limit. */
    method SetNew(k: Key, v: T, e: nat, now: nat)
      requires Valid() && k !in valuemap
      modifies this
      ensures Valid()
      ensures maxCount == old(maxCount) && expire == old(expire)
      ensures k in valuemap && fresh(valuemap[k]) && valuemap[k].value == v && valuemap[k].exp == ExpiryAt(e, now)
      ensures valuelist == Truncate([k] + old(valuelist), maxCount)
      ensures forall x :: x in valuemap && x != k ==> x in old(valuemap) && valuemap[x] == old(valuemap)[x]
    {
      var entry := new CacheEntry(v, e, now);
      PushFront(k, entry);
      ghost var pushed := valuemap;
      CheckLimits();
      assert valuelist[0] == k;
    }

    /** The existing-entry branch of set: init the entry, then move it to the front. */
    method SetExisting(k: Key, v: T, e: nat, now: nat)
      requires Valid() && k in valuemap
      modifies this, valuemap[k]
      ensures Valid()
      ensures maxCount == old(maxCount) && expire == old(expire)
      ensures valuemap == old(valuemap) && valuemap[k].value == v && valuemap[k].exp == ExpiryAt(e, now)
      ensures valuelist == [k] + Without(old(valuelist), k)
      ensures Contents() == old(Contents())[k := v]
    {
      var entry := valuemap[k];
      entry.Init(v, e, now);
      assert forall x :: x in valuemap && x != k ==> valuemap[x] != entry;
      assert Contents() == old(Contents())[k := v];
      MoveToFront(k);
    }

    /**
      set(keyname, id, value, expire) at time `now` (an expire of 0 takes the
      cache's default): a new key goes to the front, counts one more and may
      push the least recently used key out; an existing key gets the new
      value and expiry and moves to the front.
     */
    method Set(k: Key, v: T, expire: nat, now: nat)
      requires Valid()
      modifies this, valuemap.Values
      ensures Valid()
      ensures maxCount == old(maxCount) && this.expire == old(this.expire)
      ensures k in valuemap && valuemap[k].value == v
      ensures valuemap[k].exp == ExpiryAt(if expire == 0 then old(this.expire) else expire, now)
      ensures k in old(valuemap) ==> valuelist == [k] + Without(old(valuelist), k)
      ensures k !in old(valuemap) ==> valuelist == Truncate([k] + old(valuelist), maxCount)
      ensures forall x :: x in valuemap ==> valuemap[x] in old(valuemap.Values) || fresh(valuemap[x])
      ensures k in Contents() && Contents()[k] == v
      ensures forall x :: x in Contents() && x != k ==> x in old(Contents()) && Contents()[x] == old(Contents())[x]
    {
      var e := if expire == 0 then this.expire else expire;
      if k !in valuemap {
        SetNew(k, v, e, now);
      } else {
        SetExisting(k, v, e, now);
      }
    }

    /** remove(keyname, id): cacheOut when present, nothing otherwise. */
    method Remove(k: Key)
      requires Valid()
      modifies this
      ensures Valid()
      ensures maxCount == old(maxCount) && expire == old(expire)
      ensures valuelist == Without(old(valuelist), k) && valuemap == old(valuemap) - {k}
      ensures storedItems == if k in old(valuemap) then old(storedItems) - 1 else old(storedItems)
      ensures Contents() == old(Contents()) - {k}
    {
      if k in valuemap {
        CacheOut(k);
      } else {
        assert valuemap == old(valuemap) - {k};
      }
    }

    /**
      getset(keyname, id, callback, expire): the cached, unexpired value
      without calling the callback; otherwise the callback's value, stored.
     */
    method GetSet(k: Key, callback: () -> T, expire: nat, now: nat) returns (r: Option<T>, called: bool)
      requires Valid()
      modifies this, valuemap.Values
      ensures Valid()
      ensures k in old(valuemap) && !old(valuemap[k].IsExpired(0, now)) ==>
        !called && r == Some(old(Contents())[k]) && Contents() == old(Contents())
      ensures !(k in old(valuemap) && !old(valuemap[k].IsExpired(0, now))) ==>
        called && r == Some(callback()) && k in Contents() && Contents()[k] == callback()
    {
      var valr := Get(k, now);
      if valr.None? {
        var val := callback();
        Set(k, val, expire, now);
        FreshNotExpired(if expire == 0 then this.expire else expire, now);
        r := Get(k, now);
        called := true;
      } else {
        r := valr;
        called := false;
      }
    }
  }
}
