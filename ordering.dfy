/**
  Ordering: the comparisons and the sort the sort proxy relies on.
  QString::compare orders strings code unit by code unit; std::sort is
  represented by one of its admissible outcomes, a stable insertion sort.
 */
module Ordering {

  /** QString::compare(a, b) < 0: lexicographic order on the characters, a proper prefix first. */
  predicate StrLess(a: string, b: string)
    decreases |a|
  {
    if a == [] then b != []
    else if b == [] then false
    else a[0] < b[0] || (a[0] == b[0] && StrLess(a[1..], b[1..]))
  }

  lemma {:induction false} StrLessIrreflexive(a: string)
    ensures !StrLess(a, a)
    decreases |a|
  {
    if a != [] {
      StrLessIrreflexive(a[1..]);
    }
  }

  lemma {:induction false} StrLessTransitive(a: string, b: string, c: string)
    requires StrLess(a, b) && StrLess(b, c)
    ensures StrLess(a, c)
    decreases |a|
  {
    if a != [] && a[0] == b[0] && b[0] == c[0] {
      StrLessTransitive(a[1..], b[1..], c[1..]);
    }
  }

  /** Two different strings are ordered one way or the other. */
  lemma {:induction false} StrLessTotal(a: string, b: string)
    requires a != b
    ensures StrLess(a, b) || StrLess(b, a)
    decreases |a|
  {
    if a != [] && b != [] && a[0] == b[0] {
      assert a == [a[0]] + a[1..] && b == [b[0]] + b[1..];
      StrLessTotal(a[1..], b[1..]);
    }
  }

  /** A strict order: irreflexive and transitive. */
  ghost predicate StrictOrder<K(!new)>(less: (K, K) -> bool) {
    && (forall a :: !less(a, a))
    && (forall a, b, c :: less(a, b) && less(b, c) ==> less(a, c))
  }

  lemma StrLessIsStrict()
    ensures StrictOrder(StrLess)
  {
    forall a: string
      ensures !StrLess(a, a)
    {
      StrLessIrreflexive(a);
    }
    forall a: string, b: string, c: string | StrLess(a, b) && StrLess(b, c)
      ensures StrLess(a, c)
    {
      StrLessTransitive(a, b, c);
    }
  }

  /** The row ids lo, lo + 1, ..., hi - 1. */
  function Range(lo: int, hi: int): (r: seq<int>)
    requires lo <= hi
    ensures |r| == hi - lo
    ensures forall i :: 0 <= i < |r| ==> r[i] == lo + i
  {
    seq(hi - lo, i requires 0 <= i < hi - lo => lo + i)
  }

  predicate Distinct<T(==)>(s: seq<T>) {
    forall i, j :: 0 <= i < j < |s| ==> s[i] != s[j]
  }

  /** A duplicate-free sequence holds each value at most once. */
  lemma {:induction false} DistinctCounts<T>(s: seq<T>, v: T)
    requires Distinct(s)
    ensures multiset(s)[v] <= 1
    decreases |s|
  {
    if s != [] {
      assert s == [s[0]] + s[1..];
      DistinctCounts(s[1..], v);
      if s[0] == v {
        assert v !in s[1..];
      }
    }
  }

  /** A rearrangement of a duplicate-free sequence is duplicate-free. */
  lemma PermutationKeepsDistinct<T>(a: seq<T>, b: seq<T>)
    requires multiset(a) == multiset(b) && Distinct(b)
    ensures Distinct(a)
  {
    forall i, j | 0 <= i < j < |a|
      ensures a[i] != a[j]
    {
      if a[i] == a[j] {
        assert a == a[..i] + [a[i]] + a[i + 1..j] + [a[j]] + a[j + 1..];
        assert multiset(a)[a[i]] >= 2;
        DistinctCounts(b, a[i]);
      }
    }
  }

  /** `s` is sorted by `key` under `less`: no later element is less than an earlier one. */
  ghost predicate SortedBy<K>(s: seq<int>, key: int -> K, less: (K, K) -> bool) {
    forall i, j :: 0 <= i < j < |s| ==> !less(key(s[j]), key(s[i]))
  }

  /** A slice of a sorted sequence is sorted. */
  lemma SortedSlice<K>(s: seq<int>, lo: int, hi: int, key: int -> K, less: (K, K) -> bool)
    requires 0 <= lo <= hi <= |s| && SortedBy(s, key, less)
    ensures SortedBy(s[lo..hi], key, less)
  {
    forall i, j | 0 <= i < j < hi - lo
      ensures !less(key(s[lo..hi][j]), key(s[lo..hi][i]))
    {
      assert s[lo..hi][j] == s[lo + j] && s[lo..hi][i] == s[lo + i];
    }
  }

  /** x inserted before the first element it is less than. */
  function InsertBy<K>(x: int, s: seq<int>, key: int -> K, less: (K, K) -> bool): (r: seq<int>)
    ensures |r| == |s| + 1 && multiset(r) == multiset(s) + multiset{x}
    ensures forall y :: y in r <==> y == x || y in s
  {
    if s == [] then [x]
    else if less(key(x), key(s[0])) then [x] + s
    else
      assert s == [s[0]] + s[1..];
      [s[0]] + InsertBy(x, s[1..], key, less)
  }

  /** The rows `s` in the order std::sort leaves them (one of its admissible outcomes). */
  function SortBy<K>(s: seq<int>, key: int -> K, less: (K, K) -> bool): (r: seq<int>)
    ensures |r| == |s| && multiset(r) == multiset(s)
    ensures forall y :: y in r <==> y in s
  {
    if s == [] then []
    else
      assert s == [s[0]] + s[1..];
      InsertBy(s[0], SortBy(s[1..], key, less), key, less)
  }

  /** Sorting keeps every row within the bounds the rows had. */
  lemma SortByBounds<K>(s: seq<int>, key: int -> K, less: (K, K) -> bool, lo: int, hi: int)
    requires forall k :: 0 <= k < |s| ==> lo <= s[k] < hi
    ensures forall k :: 0 <= k < |SortBy(s, key, less)| ==> lo <= SortBy(s, key, less)[k] < hi
  {
    var r := SortBy(s, key, less);
    forall k | 0 <= k < |r|
      ensures lo <= r[k] < hi
    {
      assert r[k] in s;
    }
  }

  lemma {:induction false} InsertBySorted<K(!new)>(x: int, s: seq<int>, key: int -> K, less: (K, K) -> bool)
    requires StrictOrder(less) && SortedBy(s, key, less)
    ensures SortedBy(InsertBy(x, s, key, less), key, less)
    decreases |s|
  {
    if s != [] {
      var r := InsertBy(x, s, key, less);
      if !less(key(x), key(s[0])) {
        InsertBySorted(x, s[1..], key, less);
        var tail := InsertBy(x, s[1..], key, less);
        forall i, j | 0 <= i < j < |r|
          ensures !less(key(r[j]), key(r[i]))
        {
          if i == 0 {
            assert r[j] in multiset(tail);
            assert r[j] == x || r[j] in s[1..];
          }
        }
      }
    }
  }

  /** Under a strict order the outcome is sorted. */
  lemma {:induction false} SortBySorted<K(!new)>(s: seq<int>, key: int -> K, less: (K, K) -> bool)
    requires StrictOrder(less)
    ensures SortedBy(SortBy(s, key, less), key, less)
    decreases |s|
  {
    if s != [] {
      SortBySorted(s[1..], key, less);
      InsertBySorted(s[0], SortBy(s[1..], key, less), key, less);
    }
  }

  /** The decimal digits of n, most significant first. */
  function NatToString(n: nat): (r: string)
    ensures r != [] && forall i :: 0 <= i < |r| ==> '0' <= r[i] <= '9'
  {
    var d := ['0' + (n % 10) as char];
    if n < 10 then d else NatToString(n / 10) + d
  }

  /** QString::number(i) */
  function IntToString(i: int): string {
    if i < 0 then "-" + NatToString(-i) else NatToString(i)
  }

  predicate AllDigits(s: string) {
    forall i :: 0 <= i < |s| ==> '0' <= s[i] <= '9'
  }

  /** The value of a string of decimal digits. */
  function DigitsValue(s: string): nat
    requires AllDigits(s)
  {
    if s == [] then 0 else DigitsValue(s[..|s| - 1]) * 10 + (s[|s| - 1] - '0') as nat
  }

  /** Printing a number and reading it back gives the number. */
  lemma {:induction false} DigitsOfNat(n: nat)
    ensures AllDigits(NatToString(n)) && DigitsValue(NatToString(n)) == n
  {
    var s := NatToString(n);
    if n >= 10 {
      DigitsOfNat(n / 10);
      assert s[..|s| - 1] == NatToString(n / 10);
    }
  }
}
