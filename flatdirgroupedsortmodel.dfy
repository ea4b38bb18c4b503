/**
  FlatDirGroupedSortModel: a proxy over the list model that presents its
  rows in another order. Two vectors hold the order, proxy row to source
  row and source row to proxy row, and a table counts the rows of each
  group. New rows are ordered by their group key as they arrive; a group
  can be sorted on request by one column.

  The values the list model gives for a source row are parameters: its
  group as text (`groupOf`, data(row, groupby).toString()), its value in the
  sort column (`cellOf`) and its name (`nameOf`).
 */
module FlatDirGroupedSortModel {
  import Wrappers
  import opened Ordering
  import opened DirListModel

  /** QVariant::toString() */
  function ToText(v: Variant): string {
    match v
    case Invalid => ""
    case Str(s) => s
    case Bool(b) => if b then "true" else "false"
    case Int(i) => IntToString(i)
  }

  /** QString::toInt(): an optionally signed run of decimal digits, 0 for anything else. */
  function ParseInt(s: string): int {
    if s != [] && AllDigits(s) then DigitsValue(s)
    else if |s| > 1 && s[0] == '-' && AllDigits(s[1..]) then -(DigitsValue(s[1..]) as int)
    else if |s| > 1 && s[0] == '+' && AllDigits(s[1..]) then DigitsValue(s[1..])
    else 0
  }

  /** An integer printed as text reads back as itself. */
  lemma ParseIntToString(i: int)
    ensures ParseInt(IntToString(i)) == i
  {
    if i < 0 {
      DigitsOfNat(-i);
      var s := IntToString(i);
      assert s[1..] == NatToString(-i);
      assert !AllDigits(s) by {
        assert s[0] == '-';
      }
    } else {
      DigitsOfNat(i);
    }
  }

  /** QVariant::toInt() */
  function ToInt(v: Variant): int {
    match v
    case Invalid => 0
    case Str(s) => ParseInt(s)
    case Bool(b) => if b then 1 else 0
    case Int(i) => i
  }

  /**
    variantLessThan(l, r) as written, on the value kinds of the model: an
    invalid left value is less than any valid right one, an integer left
    value compares with the right value read as an integer, and anything
    else compares as text.
   */
  function VariantLessThanAsWritten(l: Variant, r: Variant): (b: bool)
    ensures l == Invalid ==> (b <==> r != Invalid)
    ensures l.Int? && r.Int? ==> (b <==> l.i < r.i)
    ensures l.Int? && r == Invalid ==> (b <==> l.i < 0)
    ensures l.Str? && r.Str? ==> (b <==> StrLess(l.s, r.s))
  {
    match l
    case Invalid => r != Invalid
    case Int(i) => i < ToInt(r)
    case _ => StrLess(ToText(l), ToText(r))
  }

  /**
    The discrepancy: an invalid value and a negative integer are each less
    than the other, so the comparison is not a strict order and std::sort
    may not be given it.
   */
  lemma VariantLessThanNotAsymmetric()
    ensures VariantLessThanAsWritten(Invalid, Int(-1)) && VariantLessThanAsWritten(Int(-1), Invalid)
  {
  }

  /** variantLessThan with the invalid value kept below every valid one: a valid value is never less than an invalid one. */
  function VariantLess(l: Variant, r: Variant): (b: bool)
    ensures r == Invalid ==> !b
    ensures l == Invalid ==> (b <==> r != Invalid)
  {
    if r == Invalid then false else VariantLessThanAsWritten(l, r)
  }

  /** The values of an integer column: integers and the empty value. */
  predicate IntCell(v: Variant) {
    v.Int? || v.Invalid?
  }

  /** The values of a text column: strings and the empty value. */
  predicate TextCell(v: Variant) {
    v.Str? || v.Invalid?
  }

  /** On an integer column VariantLess is a strict total order: the empty value first, then the integers by value. */
  lemma VariantLessOrdersInts(a: Variant, b: Variant, c: Variant)
    requires IntCell(a) && IntCell(b) && IntCell(c)
    ensures !VariantLess(a, a)
    ensures a.Int? && b.Int? ==> (VariantLess(a, b) <==> a.i < b.i)
    ensures VariantLess(a, b) && VariantLess(b, c) ==> VariantLess(a, c)
    ensures a != b ==> VariantLess(a, b) || VariantLess(b, a)
  {
  }

  /** On a text column VariantLess is a strict total order: the empty value first, then the strings as QString::compare orders them. */
  lemma VariantLessOrdersText(a: Variant, b: Variant, c: Variant)
    requires TextCell(a) && TextCell(b) && TextCell(c)
    ensures !VariantLess(a, a)
    ensures a.Str? && b.Str? ==> (VariantLess(a, b) <==> StrLess(a.s, b.s))
    ensures VariantLess(a, b) && VariantLess(b, c) ==> VariantLess(a, c)
    ensures a != b ==> VariantLess(a, b) || VariantLess(b, a)
  {
    StrLessIrreflexive(ToText(a));
    if a.Str? && b.Str? && c.Str? && VariantLess(a, b) && VariantLess(b, c) {
      StrLessTransitive(a.s, b.s, c.s);
    }
    if a.Str? && b.Str? && a != b {
      StrLessTotal(a.s, b.s);
    }
  }

  /**
    The comparison sort(column, group, order) applies to the cached cell
    values: the Name column compares the values as text (the collator's
    order stands in as QString::compare's), any other column by
    VariantLess; descending order swaps the operands.
   */
  function ColumnLess(column: int, ascending: bool): (Variant, Variant) -> bool {
    if column == Name then
      if ascending then (a, b) => StrLess(ToText(a), ToText(b)) else (a, b) => StrLess(ToText(b), ToText(a))
    else if ascending then (a, b) => VariantLess(a, b) else (a, b) => VariantLess(b, a)
  }

  /** Sorting by the Name column, either way round, uses a strict order, so the sorted rows come out in order. */
  lemma NameColumnOrderIsStrict(ascending: bool)
    ensures StrictOrder(ColumnLess(Name, ascending))
  {
    var less := ColumnLess(Name, ascending);
    forall a: Variant
      ensures !less(a, a)
    {
      StrLessIrreflexive(ToText(a));
    }
    forall a: Variant, b: Variant, c: Variant | less(a, b) && less(b, c)
      ensures less(a, c)
    {
      if ascending {
        StrLessTransitive(ToText(a), ToText(b), ToText(c));
      } else {
        StrLessTransitive(ToText(c), ToText(b), ToText(a));
      }
    }
  }

  /** The cache of sort(): the cell value of the source row at each proxy row, the empty value elsewhere. */
  function CellKey(p2s: seq<int>, cellOf: int -> Variant): int -> Variant {
    i => if 0 <= i < |p2s| then cellOf(p2s[i]) else Invalid
  }

  /** The proxy rows among the first n whose source row is in group g, in increasing order. */
  function FilteredRows(p2s: seq<int>, groupOf: int -> string, g: string, n: nat): (r: seq<int>)
    requires n <= |p2s|
    ensures forall i :: 0 <= i < |r| ==> 0 <= r[i] < n && groupOf(p2s[r[i]]) == g
    ensures forall i, j :: 0 <= i < j < |r| ==> r[i] < r[j]
  {
    if n == 0 then []
    else FilteredRows(p2s, groupOf, g, n - 1) + (if groupOf(p2s[n - 1]) == g then [n - 1] else [])
  }

  /** std::minmax_element: the least and the greatest row, none for no rows. */
  function MinMax(rows: seq<int>): (r: Wrappers.Option<(int, int)>)
    ensures r.None? <==> rows == []
    ensures r.Some? ==> r.value.0 in rows && r.value.1 in rows
    ensures r.Some? ==> forall i :: 0 <= i < |rows| ==> r.value.0 <= rows[i] <= r.value.1
  {
    if rows == [] then Wrappers.None
    else
      match MinMax(rows[1..])
      case None => Wrappers.Some((rows[0], rows[0]))
      case Some((lo, hi)) =>
        Wrappers.Some((if rows[0] < lo then rows[0] else lo, if rows[0] > hi then rows[0] else hi))
  }

  /** On increasing rows the least and the greatest are the first and the last. */
  lemma MinMaxOfIncreasing(rows: seq<int>)
    requires rows != [] && forall i, j :: 0 <= i < j < |rows| ==> rows[i] < rows[j]
    ensures MinMax(rows) == Wrappers.Some((rows[0], rows[|rows| - 1]))
  {
  }

  /** Every proxy row of the group is among the filtered rows. */
  lemma {:induction false} FilteredRowsComplete(p2s: seq<int>, groupOf: int -> string, g: string, n: nat)
    requires n <= |p2s|
    ensures forall p :: 0 <= p < n ==> (p in FilteredRows(p2s, groupOf, g, n) <==> groupOf(p2s[p]) == g)
  {
    if n > 0 {
      FilteredRowsComplete(p2s, groupOf, g, n - 1);
    }
  }

  /** A proxy-to-source vector that is a permutation: every source row at most once, all in range. */
  predicate IsPermutation(s: seq<int>) {
    Distinct(s) && forall i :: 0 <= i < |s| ==> 0 <= s[i] < |s|
  }

  /** The number of rows in [lo, hi) whose group is g. */
  function CountGroup(groupOf: int -> string, lo: int, hi: int, g: string): nat
    decreases hi - lo
  {
    if hi <= lo then 0 else CountGroup(groupOf, lo, hi - 1, g) + (if groupOf(hi - 1) == g then 1 else 0)
  }

  /** numOfItemsForGroup on a table: the stored count, 0 for a group never seen. */
  function Items(m: map<string, int>, g: string): (n: int)
    ensures g !in m ==> n == 0
    ensures g in m ==> n == m[g]
  {
    if g in m then m[g] else 0
  }

  /** The table m after counting the group of each row in [lo, hi), one row at a time. */
  function Counted(m: map<string, int>, groupOf: int -> string, lo: int, hi: int): map<string, int>
    decreases hi - lo
  {
    if hi <= lo then m
    else
      var before := Counted(m, groupOf, lo, hi - 1);
      before[groupOf(hi - 1) := Items(before, groupOf(hi - 1)) + 1]
  }

  /** Counting one more row updates the count of its group only. */
  lemma CountedStep(m: map<string, int>, groupOf: int -> string, lo: int, hi: int)
    requires lo <= hi
    ensures var before := Counted(m, groupOf, lo, hi);
      Counted(m, groupOf, lo, hi + 1) == before[groupOf(hi) := Items(before, groupOf(hi)) + 1]
  {
  }

  /** Counting rows one at a time adds each group's number of rows to its count. */
  lemma {:induction false} CountedItems(m: map<string, int>, groupOf: int -> string, lo: int, hi: int, g: string)
    ensures Items(Counted(m, groupOf, lo, hi), g) == Items(m, g) + CountGroup(groupOf, lo, hi, g)
    decreases hi - lo
  {
    if hi > lo {
      CountedItems(m, groupOf, lo, hi - 1, g);
    }
  }

  lemma CountedAll(m0: map<string, int>, groupOf: int -> string, lo: int, hi: int, m: map<string, int>)
    requires m == Counted(m0, groupOf, lo, hi)
    ensures forall g :: Items(m, g) == Items(m0, g) + CountGroup(groupOf, lo, hi, g)
  {
    forall g
      ensures Items(m, g) == Items(m0, g) + CountGroup(groupOf, lo, hi, g)
    {
      CountedItems(m0, groupOf, lo, hi, g);
    }
  }

  function SumCounts(groupOf: int -> string, lo: int, hi: int, gs: seq<string>): nat {
    if gs == [] then 0 else SumCounts(groupOf, lo, hi, gs[..|gs| - 1]) + CountGroup(groupOf, lo, hi, gs[|gs| - 1])
  }

  /** How many entries of gs are v. */
  function Occurrences(gs: seq<string>, v: string): nat {
    if gs == [] then 0 else Occurrences(gs[..|gs| - 1], v) + (if gs[|gs| - 1] == v then 1 else 0)
  }

  lemma {:induction false} OccursOnce(gs: seq<string>, v: string)
    requires Distinct(gs) && v in gs
    ensures Occurrences(gs, v) == 1
  {
    var init := gs[..|gs| - 1];
    if gs[|gs| - 1] == v {
      OccursNever(init, v);
    } else {
      assert v in init;
      OccursOnce(init, v);
    }
  }

  lemma {:induction false} OccursNever(gs: seq<string>, v: string)
    requires v !in gs
    ensures Occurrences(gs, v) == 0
  {
    if gs != [] {
      OccursNever(gs[..|gs| - 1], v);
    }
  }

  /** One more row adds one to the group counts of gs for each entry of gs equal to its group. */
  lemma {:induction false} SumCountsStep(groupOf: int -> string, lo: int, hi: int, gs: seq<string>)
    requires lo < hi
    ensures SumCounts(groupOf, lo, hi, gs) == SumCounts(groupOf, lo, hi - 1, gs) + Occurrences(gs, groupOf(hi - 1))
  {
    if gs != [] {
      SumCountsStep(groupOf, lo, hi, gs[..|gs| - 1]);
    }
  }

  /**
    Over any list of distinct groups that holds every new row's group, the
    group counts of the rows in [lo, hi) add up to the number of rows.
   */
  lemma {:induction false} CountsAddUp(groupOf: int -> string, lo: int, hi: int, gs: seq<string>)
    requires lo <= hi && Distinct(gs)
    requires forall r :: lo <= r < hi ==> groupOf(r) in gs
    ensures SumCounts(groupOf, lo, hi, gs) == hi - lo
    decreases hi - lo
  {
    if lo == hi {
      SumCountsZero(groupOf, lo, gs);
    } else {
      CountsAddUp(groupOf, lo, hi - 1, gs);
      SumCountsStep(groupOf, lo, hi, gs);
      OccursOnce(gs, groupOf(hi - 1));
    }
  }

  lemma {:induction false} SumCountsZero(groupOf: int -> string, lo: int, gs: seq<string>)
    ensures SumCounts(groupOf, lo, lo, gs) == 0
  {
    if gs != [] {
      SumCountsZero(groupOf, lo, gs[..|gs| - 1]);
    }
  }

  /**
    The window requestSortForItems sorts: the request widened by 50 rows each
    way and clamped to [0, rowCount]. Any ids are clamped; a request inside
    the rows lies inside its window.
   */
  function Window(startId: int, endId: int, rowCount: int): (w: (int, int))
    ensures 0 <= w.0 && w.1 <= rowCount
    ensures startId - 50 <= w.0 && (w.0 == 0 || w.0 == startId - 50)
    ensures w.1 <= endId + 50 && (w.1 == rowCount || w.1 == endId + 50)
    ensures 0 <= startId <= endId <= rowCount ==> w.0 <= startId && endId <= w.1
  {
    var lo := if startId - 50 > 0 then startId - 50 else 0;
    var hi := if endId + 50 < rowCount then endId + 50 else rowCount;
    (lo, hi)
  }

  /** mapFromSource as written: it looks the source row up in the proxy-to-source vector. */
  function MapFromSourceAsWritten(p2s: seq<int>, sourceRow: int): (r: int)
    requires 0 <= sourceRow < |p2s|
    ensures r in p2s
    ensures IsPermutation(p2s) ==> 0 <= r < |p2s|
  {
    p2s[sourceRow]
  }

  /**
    The discrepancy: with proxy rows 0, 1, 2 showing source rows 1, 2, 0,
    proxy row 0 maps to source row 1, and source row 1 maps back to proxy
    row 2 instead of 0.
   */
  lemma MapFromSourceNotInverse()
    ensures MapFromSourceAsWritten([1, 2, 0], [1, 2, 0][0]) == 2
  {
  }

  /**
    The two vectors of the sort proxy agree: the proxy-to-source vector is a
    permutation of the rows and the source-to-proxy vector points every
    source row back at the proxy row that shows it.
   */
  ghost predicate Inverse(p2s: seq<int>, s2p: seq<int>) {
    && |s2p| == |p2s| && IsPermutation(p2s)
    && forall p :: 0 <= p < |p2s| ==> s2p[p2s[p]] == p
  }

  /** A duplicate-free sequence has as many distinct values as elements. */
  lemma {:induction false} DistinctValues(s: seq<int>)
    requires Distinct(s)
    ensures |set x | x in s| == |s|
  {
    if s != [] {
      var init := s[..|s| - 1];
      DistinctValues(init);
      assert (set x | x in s) == (set x | x in init) + {s[|s| - 1]};
      assert s[|s| - 1] !in init;
    }
  }

  /** A subset has at most as many elements. */
  lemma SubsetCount(a: set<int>, b: set<int>)
    requires a <= b
    ensures |a| <= |b|
  {
    assert b == a + (b - a);
    assert a * (b - a) == {};
  }

  /** A permutation of the rows shows every row. */
  lemma PermutationCovers(s: seq<int>, v: int)
    requires IsPermutation(s) && 0 <= v < |s|
    ensures v in s
  {
    var shown := set x | x in s;
    var rows := set x | x in Range(0, |s|);
    DistinctValues(s);
    DistinctValues(Range(0, |s|));
    forall x | x in shown
      ensures x in rows
    {
      assert Range(0, |s|)[x] == x;
    }
    assert Range(0, |s|)[v] == v;
    if v !in s {
      SubsetCount(shown, rows - {v});
    }
  }

  /**
    On inverse vectors, mapToSource and mapFromSource are inverse both ways:
    proxy to source to proxy, and source to proxy to source.
   */
  lemma MapRoundTrip(p2s: seq<int>, s2p: seq<int>)
    requires Inverse(p2s, s2p)
    ensures forall p :: 0 <= p < |p2s| ==> 0 <= p2s[p] < |s2p| && s2p[p2s[p]] == p
    ensures forall x :: 0 <= x < |s2p| ==> 0 <= s2p[x] < |p2s| && p2s[s2p[x]] == x
  {
    forall x | 0 <= x < |s2p|
      ensures 0 <= s2p[x] < |p2s| && p2s[s2p[x]] == x
    {
      PermutationCovers(p2s, x);
      var p :| 0 <= p < |p2s| && p2s[p] == x;
    }
  }

  /** Rows appended at the end, pointing at themselves both ways, keep the vectors inverse. */
  lemma AppendKeepsInverse(p2s: seq<int>, s2p: seq<int>, start: int, end: int)
    requires Inverse(p2s, s2p) && start == |p2s| <= end + 1
    ensures Inverse(p2s + Range(start, end + 1), s2p + Range(start, end + 1))
  {
    var rg := Range(start, end + 1);
    AppendKeepsPermutation(p2s, rg);
    var p, s := p2s + rg, s2p + rg;
    forall q | 0 <= q < |p|
      ensures s[p[q]] == q
    {
      if q < |p2s| {
        assert p[q] == p2s[q] && 0 <= p2s[q] < |p2s|;
      }
    }
  }

  /** In a permutation whose block start..end shows rows start..end, a row outside the block shows none of them. */
  lemma OutsideBlock(p0: seq<int>, start: int, end: int, q: int, w: int)
    requires IsPermutation(p0) && 0 <= start <= end + 1 <= |p0|
    requires p0[start..end + 1] == Range(start, end + 1)
    requires 0 <= q < |p0| && !(start <= q <= end)
    ensures start <= w <= end ==> p0[q] != w
  {
    if start <= w <= end {
      assert p0[w] == p0[start..end + 1][w - start] == w;
    }
  }

  /**
    A block of proxy rows that shows exactly the source rows start..end,
    rearranged within itself with the new rows pointing back, keeps the
    vectors inverse: the rows outside the block show rows outside it.
   */
  lemma OrderKeepsInverse(p0: seq<int>, s0: seq<int>, p: seq<int>, s: seq<int>, start: int, end: int)
    requires Inverse(p0, s0) && 0 <= start <= end + 1 <= |p0|
    requires p0[start..end + 1] == Range(start, end + 1)
    requires |p| == |p0| && |s| == |s0|
    requires p == p0[..start] + p[start..end + 1] + p0[end + 1..]
    requires multiset(p[start..end + 1]) == multiset(Range(start, end + 1))
    requires forall q :: start <= q <= end ==> 0 <= p[q] < |s| && s[p[q]] == q
    requires forall x :: 0 <= x < |s0| && !(start <= x <= end) ==> s[x] == s0[x]
    ensures Inverse(p, s)
  {
    var block := p[start..end + 1];
    PermutationKeepsDistinct(block, Range(start, end + 1));
    forall q | start <= q <= end
      ensures start <= p[q] <= end
    {
      assert p[q] == block[q - start] && block[q - start] in multiset(Range(start, end + 1));
    }
    forall v | start <= v <= end
      ensures p0[v] == v
    {
      assert p0[v] == p0[start..end + 1][v - start];
    }
    forall q | 0 <= q < |p0| && !(start <= q <= end)
      ensures p[q] == p0[q] && !(start <= p0[q] <= end)
    {
      OutsideBlock(p0, start, end, q, p0[q]);
      if q < start {
        assert p[q] == (p0[..start])[q];
      } else {
        assert p[q] == (p0[end + 1..])[q - end - 1];
      }
    }
    forall a, b | 0 <= a < b < |p|
      ensures p[a] != p[b]
    {
      if start <= a <= end && start <= b <= end {
        assert p[a] == block[a - start] && p[b] == block[b - start];
      }
    }
  }

  /** The proxy row whose old source row the rearranged vector shows at p: p itself outside the group, sorted[k] at orig[k]. */
  lemma Preimage(p2s: seq<int>, r: seq<int>, orig: seq<int>, sorted: seq<int>, p: int) returns (q: int)
    requires |r| == |p2s| && 0 <= p < |r|
    requires |sorted| == |orig| && multiset(sorted) == multiset(orig)
    requires forall k :: 0 <= k < |orig| ==> 0 <= orig[k] < |p2s|
    requires forall k :: 0 <= k < |sorted| ==> 0 <= sorted[k] < |p2s|
    requires forall x :: 0 <= x < |p2s| && x !in orig ==> r[x] == p2s[x]
    requires forall k :: 0 <= k < |orig| ==> r[orig[k]] == p2s[sorted[k]]
    ensures 0 <= q < |p2s| && r[p] == p2s[q]
    ensures p !in orig ==> q == p
    ensures p in orig ==> q in orig && exists k :: 0 <= k < |orig| && orig[k] == p && sorted[k] == q
  {
    if p in orig {
      var k :| 0 <= k < |orig| && orig[k] == p;
      assert sorted[k] in multiset(orig);
      q := sorted[k];
    } else {
      q := p;
    }
  }

  /**
    The old vector with the group's rows rearranged among themselves: no two
    rows of the result show the same source row when none of the old
    vector's did.
   */
  lemma ReorderKeepsPermutation(p2s: seq<int>, r: seq<int>, orig: seq<int>, sorted: seq<int>)
    requires IsPermutation(p2s) && |r| == |p2s|
    requires Distinct(orig) && |sorted| == |orig| && multiset(sorted) == multiset(orig)
    requires forall k :: 0 <= k < |orig| ==> 0 <= orig[k] < |p2s|
    requires forall k :: 0 <= k < |sorted| ==> 0 <= sorted[k] < |p2s|
    requires forall x :: 0 <= x < |p2s| && x !in orig ==> r[x] == p2s[x]
    requires forall k :: 0 <= k < |orig| ==> r[orig[k]] == p2s[sorted[k]]
    ensures IsPermutation(r)
  {
    PermutationKeepsDistinct(sorted, orig);
    forall a, b | 0 <= a < b < |r|
      ensures r[a] != r[b]
    {
      var qa := Preimage(p2s, r, orig, sorted, a);
      var qb := Preimage(p2s, r, orig, sorted, b);
      if a in orig && b in orig {
        var ka :| 0 <= ka < |orig| && orig[ka] == a && sorted[ka] == qa;
        var kb :| 0 <= kb < |orig| && orig[kb] == b && sorted[kb] == qb;
        assert ka != kb;
      }
      assert qa != qb;
    }
    forall a | 0 <= a < |r|
      ensures 0 <= r[a] < |r|
    {
      var qa := Preimage(p2s, r, orig, sorted, a);
    }
  }

  /** A vector that shows ne from position start on and p0 elsewhere is p0 with that block replaced. */
  lemma Spliced(r: seq<int>, p0: seq<int>, ne: seq<int>, start: int)
    requires 0 <= start && start + |ne| <= |p0| == |r|
    requires forall p :: 0 <= p < |p0| && !(start <= p < start + |ne|) ==> r[p] == p0[p]
    requires forall k :: 0 <= k < |ne| ==> r[start + k] == ne[k]
    ensures r == p0[..start] + ne + p0[start + |ne|..]
  {
    var expected := p0[..start] + ne + p0[start + |ne|..];
    forall p | 0 <= p < |r|
      ensures r[p] == expected[p]
    {
      if start <= p < start + |ne| {
        assert r[start + (p - start)] == ne[p - start];
      }
    }
  }

  /** The source rows at the proxy rows `rows`, in order. */
  function SourceKeys(p2s: seq<int>, rows: seq<int>): (r: seq<int>)
    requires forall k :: 0 <= k < |rows| ==> 0 <= rows[k] < |p2s|
    ensures |r| == |rows| && forall k :: 0 <= k < |rows| ==> r[k] == p2s[rows[k]]
  {
    seq(|rows|, k requires 0 <= k < |rows| => p2s[rows[k]])
  }

  /** Appending the rows after the last one, in any order, keeps a proxy-to-source vector a permutation. */
  lemma AppendKeepsPermutation(p2s: seq<int>, block: seq<int>)
    requires IsPermutation(p2s)
    requires multiset(block) == multiset(Range(|p2s|, |p2s| + |block|))
    ensures IsPermutation(p2s + block)
  {
    var rg := Range(|p2s|, |p2s| + |block|);
    PermutationKeepsDistinct(block, rg);
    forall k | 0 <= k < |block|
      ensures |p2s| <= block[k] < |p2s| + |block|
    {
      assert block[k] in multiset(rg);
      var j :| 0 <= j < |rg| && rg[j] == block[k];
    }
    var r := p2s + block;
    forall a, b | 0 <= a < b < |r|
      ensures r[a] != r[b]
    {
      if b >= |p2s| && a < |p2s| {
        assert r[b] == block[b - |p2s|];
      } else if a >= |p2s| {
        assert r[a] == block[a - |p2s|] && r[b] == block[b - |p2s|];
      }
    }
  }

  /**
    The vector after modelRowsInserted appended rows at its end: the new
    rows, in their own order or ordered by group, keep it a permutation.
   */
  lemma InsertedKeepsPermutation(p0: seq<int>, p: seq<int>, start: int, end: int, grouped: bool, groupOf: int -> string)
    requires IsPermutation(p0) && start == |p0| <= end + 1
    requires !grouped ==> p == p0 + Range(start, end + 1)
    requires grouped ==> p == (p0 + Range(start, end + 1))[..start] + SortBy(Range(start, end + 1), groupOf, StrLess) + (p0 + Range(start, end + 1))[end + 1..]
    ensures IsPermutation(p)
  {
    var rg := Range(start, end + 1);
    if grouped {
      var block := SortBy(rg, groupOf, StrLess);
      assert (p0 + rg)[..start] == p0 && (p0 + rg)[end + 1..] == [];
      assert p == p0 + block;
      AppendKeepsPermutation(p0, block);
    } else {
      AppendKeepsPermutation(p0, rg);
    }
  }

  /** The block of new rows ordered by group: a duplicate-free rearrangement of the block, sorted by group. */
  lemma GroupOrderOfBlock(start: int, end: int, groupOf: int -> string)
    requires start <= end + 1
    ensures var ne := SortBy(Range(start, end + 1), groupOf, StrLess);
      && Distinct(ne) && SortedBy(ne, groupOf, StrLess)
      && forall k :: 0 <= k < |ne| ==> start <= ne[k] <= end
  {
    var block := Range(start, end + 1);
    var ne := SortBy(block, groupOf, StrLess);
    StrLessIsStrict();
    SortBySorted(block, groupOf, StrLess);
    PermutationKeepsDistinct(ne, block);
    forall k | 0 <= k < |ne|
      ensures start <= ne[k] <= end
    {
      assert ne[k] in block;
    }
  }

  /**
    After i steps of the write loop of orderNewEntries, started from the
    vectors p0, s0 and the table m0: proxy rows start.. start + i - 1 show
    ne[..i] and the rows written point back at them, every other entry is
    as it was, and the groups of the proxy rows written are counted.
   */
  ghost predicate Written(p0: seq<int>, s0: seq<int>, m0: map<string, int>, start: int, ne: seq<int>, groupOf: int -> string,
                          i: int, p: seq<int>, s: seq<int>, m: map<string, int>)
  {
    && 0 <= start && 0 <= i <= |ne| && start + |ne| <= |p0| && |s0| == |p0| == |p| == |s|
    && (forall k :: 0 <= k < |ne| ==> start <= ne[k] < start + |ne|)
    && (forall q :: 0 <= q < |p0| && !(start <= q < start + i) ==> p[q] == p0[q])
    && (forall k :: 0 <= k < i ==> p[start + k] == ne[k])
    && (forall k :: 0 <= k < i ==> s[ne[k]] == start + k)
    && (forall x :: 0 <= x < |s0| && !(start <= x < start + |ne|) ==> s[x] == s0[x])
    && m == Counted(m0, groupOf, start, start + i)
    && (forall q :: 0 <= q < |p| ==> 0 <= p[q] < |p|)
    && (forall x :: 0 <= x < |s| ==> 0 <= s[x] < |p|)
  }

  lemma WrittenStep(p0: seq<int>, s0: seq<int>, m0: map<string, int>, start: int, ne: seq<int>, groupOf: int -> string,
                    i: int, p: seq<int>, s: seq<int>, m: map<string, int>)
    requires Written(p0, s0, m0, start, ne, groupOf, i, p, s, m) && i < |ne| && Distinct(ne)
    ensures var g := groupOf(i + start);
      Written(p0, s0, m0, start, ne, groupOf, i + 1, p[i + start := ne[i]], s[ne[i] := i + start], m[g := Items(m, g) + 1])
  {
    CountedStep(m0, groupOf, start, start + i);
  }

  /** After all the steps, the block is spliced in, points back, and is counted. */
  lemma WrittenDone(p0: seq<int>, s0: seq<int>, m0: map<string, int>, start: int, ne: seq<int>, groupOf: int -> string,
                    p: seq<int>, s: seq<int>, m: map<string, int>)
    requires Written(p0, s0, m0, start, ne, groupOf, |ne|, p, s, m)
    ensures p == p0[..start] + ne + p0[start + |ne|..]
    ensures forall k :: 0 <= k < |ne| ==> s[ne[k]] == start + k
    ensures forall x :: 0 <= x < |s| && !(start <= x < start + |ne|) ==> s[x] == s0[x]
    ensures forall g :: Items(m, g) == Items(m0, g) + CountGroup(groupOf, start, start + |ne|, g)
  {
    CountedAll(m0, groupOf, start, start + |ne|, m);
    Spliced(p, p0, ne, start);
  }

  /**
    After i steps of the bookkeeping loop of sort(), started from the
    vectors p0 and s0: proxy rows orig[..i] show the old source rows of
    sorted[..i], the old source rows of orig[..i] point at sorted[..i], and
    every other entry is as it was.
   */
  ghost predicate Applied(p0: seq<int>, s0: seq<int>, orig: seq<int>, sorted: seq<int>, i: int, p: seq<int>, s: seq<int>)
  {
    && 0 <= i <= |orig| == |sorted| && |s0| == |p0| == |p| == |s|
    && (forall k :: 0 <= k < |orig| ==> 0 <= orig[k] < |p0|)
    && (forall k :: 0 <= k < |sorted| ==> 0 <= sorted[k] < |p0|)
    && (forall q :: 0 <= q < |p0| ==> 0 <= p0[q] < |p0|)
    && (forall q :: 0 <= q < |p0| && q !in orig[..i] ==> p[q] == p0[q])
    && (forall k :: 0 <= k < i ==> p[orig[k]] == p0[sorted[k]])
    && (forall x :: 0 <= x < |p0| && x !in SourceKeys(p0, orig[..i]) ==> s[x] == s0[x])
    && (Distinct(p0) ==> forall k :: 0 <= k < i ==> s[p0[orig[k]]] == sorted[k])
  }

  lemma AppliedStep(p0: seq<int>, s0: seq<int>, orig: seq<int>, sorted: seq<int>, i: int, p: seq<int>, s: seq<int>)
    requires Applied(p0, s0, orig, sorted, i, p, s) && i < |orig| && Distinct(orig)
    ensures Applied(p0, s0, orig, sorted, i + 1, p[orig[i] := p0[sorted[i]]], s[p0[orig[i]] := sorted[i]])
  {
    assert orig[..i + 1] == orig[..i] + [orig[i]];
    assert SourceKeys(p0, orig[..i + 1]) == SourceKeys(p0, orig[..i]) + [p0[orig[i]]];
  }

  /**
    After the write loop of requestSortForItems reaches proxy row i, started
    from the vectors p0 and s0: proxy rows lo..i - 1 show temp's rows there,
    each row written points back, and every other entry is as it was.
   */
  ghost predicate Windowed(p0: seq<int>, s0: seq<int>, temp: seq<int>, lo: int, i: int, p: seq<int>, s: seq<int>)
  {
    && 0 <= lo <= i <= |temp| == |p0| && |s0| == |p0| == |p| == |s|
    && (forall k :: 0 <= k < |temp| ==> 0 <= temp[k] < |p0|)
    && p == p0[..lo] + temp[lo..i] + p0[i..]
    && (forall x :: 0 <= x < |s0| && x !in temp[lo..i] ==> s[x] == s0[x])
    && (Distinct(temp) ==> forall j :: lo <= j < i && p0[j] != temp[j] ==> s[temp[j]] == j)
  }

  lemma WindowedStep(p0: seq<int>, s0: seq<int>, temp: seq<int>, lo: int, i: int, p: seq<int>, s: seq<int>)
    requires Windowed(p0, s0, temp, lo, i, p, s) && i < |temp|
    ensures p[i] != temp[i] ==> Windowed(p0, s0, temp, lo, i + 1, p[i := temp[i]], s[temp[i] := i])
    ensures p[i] == temp[i] ==> Windowed(p0, s0, temp, lo, i + 1, p, s)
  {
    assert temp[lo..i + 1] == temp[lo..i] + [temp[i]];
    assert p[i] == p0[i];
  }

  class SortModel {
    var groupby: int
    var fromProxyToSource: seq<int>
    var fromSourceToProxy: seq<int>
    var allSourceIndexes: seq<int>
    var itemsPerGroup: map<string, int>

    /** The vectors have one entry per row and every stored row number is a row. */
    ghost predicate Valid()
      reads this
    {
      && |fromSourceToProxy| == |fromProxyToSource|
      && |allSourceIndexes| == |fromProxyToSource|
      && (forall i :: 0 <= i < |fromProxyToSource| ==> 0 <= fromProxyToSource[i] < |fromProxyToSource|)
      && (forall i :: 0 <= i < |fromSourceToProxy| ==> 0 <= fromSourceToProxy[i] < |fromProxyToSource|)
      && (forall i :: 0 <= i < |allSourceIndexes| ==> 0 <= allSourceIndexes[i] < |fromProxyToSource|)
    }

    /** FlatDirGroupedSortModel(): no grouping (None), no rows. */
    constructor ()
      ensures Valid() && groupby == None && Inverse(fromProxyToSource, fromSourceToProxy)
      ensures fromProxyToSource == [] && fromSourceToProxy == [] && allSourceIndexes == [] && itemsPerGroup == map[]
    {
      groupby := None;
      fromProxyToSource := [];
      fromSourceToProxy := [];
      allSourceIndexes := [];
      itemsPerGroup := map[];
    }

    /** setGroupby(role): a different role is stored (`changed`, groupbyChanged); the same role changes nothing. */
    method SetGroupby(role: int) returns (changed: bool)
      modifies this
      ensures changed <==> old(groupby) != role
      ensures groupby == role
      ensures fromProxyToSource == old(fromProxyToSource) && fromSourceToProxy == old(fromSourceToProxy)
      ensures allSourceIndexes == old(allSourceIndexes) && itemsPerGroup == old(itemsPerGroup)
    {
      changed := groupby != role;
      if changed {
        groupby := role;
      }
    }

    /** rowCount(): one proxy row per source row. */
    function RowCount(): (n: nat)
      reads this
      ensures Valid() ==> n == |fromSourceToProxy| == |allSourceIndexes|
      ensures n == |fromProxyToSource|
    {
      |fromProxyToSource|
    }

    /** numOfItemsForGroup(group): the rows counted for the group, 0 for a group never seen. */
    function NumOfItemsForGroup(g: string): (n: int)
      reads this
      ensures n == Items(itemsPerGroup, g)
      ensures g !in itemsPerGroup ==> n == 0
    {
      if g in itemsPerGroup then itemsPerGroup[g] else 0
    }

    /** mapToSource(index): the source row shown at a proxy row; an invalid index maps to the invalid index (None). */
    function MapToSource(valid: bool, row: int): (r: Wrappers.Option<int>)
      reads this
      requires valid ==> 0 <= row < |fromProxyToSource|
      ensures !valid ==> r.None?
      ensures valid ==> r == Wrappers.Some(fromProxyToSource[row])
      ensures valid && Valid() ==> 0 <= r.value < |fromSourceToProxy|
    {
      if valid then Wrappers.Some(fromProxyToSource[row]) else Wrappers.None
    }

    /**
      mapFromSource(index), reading the source-to-proxy vector (see
      MapFromSourceAsWritten for the code as written, which reads the
      proxy-to-source one).
     */
    function MapFromSource(valid: bool, row: int): (r: Wrappers.Option<int>)
      reads this
      requires valid ==> 0 <= row < |fromSourceToProxy|
      ensures !valid ==> r.None?
      ensures valid ==> r == Wrappers.Some(fromSourceToProxy[row])
      ensures valid && Valid() ==> 0 <= r.value < |fromProxyToSource|
    {
      if valid then Wrappers.Some(fromSourceToProxy[row]) else Wrappers.None
    }

    /**
      While the vectors are inverse (from construction or modelRowsRemoved,
      through modelRowsInserted), mapFromSource undoes mapToSource and
      mapToSource undoes mapFromSource.
     */
    lemma MapsRoundTrip(row: int)
      requires Valid() && Inverse(fromProxyToSource, fromSourceToProxy) && 0 <= row < |fromProxyToSource|
      ensures MapFromSource(true, MapToSource(true, row).value) == Wrappers.Some(row)
      ensures MapToSource(true, MapFromSource(true, row).value) == Wrappers.Some(row)
    {
      MapRoundTrip(fromProxyToSource, fromSourceToProxy);
    }

    /** modelRowsRemoved(parent, start, end): all bookkeeping is cleared, whatever was removed. */
    method ModelRowsRemoved(start: int, end: int)
      modifies this
      ensures Valid() && groupby == old(groupby) && Inverse(fromProxyToSource, fromSourceToProxy)
      ensures fromProxyToSource == [] && fromSourceToProxy == [] && allSourceIndexes == [] && itemsPerGroup == map[]
    {
      fromProxyToSource := [];
      fromSourceToProxy := [];
      allSourceIndexes := [];
      itemsPerGroup := map[];
    }

    /**
      The write loop of orderNewEntries: proxy rows start.. show the rows
      `ne`, each of them points back at its proxy row, and the group of each
      proxy row written is counted.
     */
    method WriteNewEntries(start: int, ne: seq<int>, groupOf: int -> string)
      requires Valid() && Distinct(ne)
      requires 0 <= start && start + |ne| <= |fromProxyToSource|
      requires forall k :: 0 <= k < |ne| ==> start <= ne[k] < start + |ne|
      modifies this
      ensures Valid() && |fromProxyToSource| == |old(fromProxyToSource)|
      ensures fromProxyToSource == old(fromProxyToSource)[..start] + ne + old(fromProxyToSource)[start + |ne|..]
      ensures forall k :: 0 <= k < |ne| ==> fromSourceToProxy[ne[k]] == start + k
      ensures forall x :: 0 <= x < |fromSourceToProxy| && !(start <= x < start + |ne|) ==> fromSourceToProxy[x] == old(fromSourceToProxy)[x]
      ensures forall g :: Items(itemsPerGroup, g) == Items(old(itemsPerGroup), g) + CountGroup(groupOf, start, start + |ne|, g)
      ensures allSourceIndexes == old(allSourceIndexes) && groupby == old(groupby)
    {
      ghost var p0, s0, m0 := fromProxyToSource, fromSourceToProxy, itemsPerGroup;
      var newSize := |ne|;
      var i := 0;
      while i < newSize
        invariant 0 <= i <= newSize
        invariant allSourceIndexes == old(allSourceIndexes) && groupby == old(groupby)
        invariant Written(p0, s0, m0, start, ne, groupOf, i, fromProxyToSource, fromSourceToProxy, itemsPerGroup)
      {
        WrittenStep(p0, s0, m0, start, ne, groupOf, i, fromProxyToSource, fromSourceToProxy, itemsPerGroup);
        fromProxyToSource := fromProxyToSource[i + start := ne[i]];
        fromSourceToProxy := fromSourceToProxy[ne[i] := i + start];
        var groupVal := groupOf(i + start);
        if groupVal in itemsPerGroup {
          var curCount := itemsPerGroup[groupVal] + 1;
          itemsPerGroup := itemsPerGroup[groupVal := curCount];
        } else {
          itemsPerGroup := itemsPerGroup[groupVal := 1];
        }
        i := i + 1;
      }
      WrittenDone(p0, s0, m0, start, ne, groupOf, fromProxyToSource, fromSourceToProxy, itemsPerGroup);
    }

    /** The first loop of orderNewEntries: the source rows start..end, in order. */
    static method NewEntries(start: int, end: int) returns (newEntries: seq<int>)
      requires start <= end + 1
      ensures |newEntries| == end + 1 - start
      ensures forall k :: 0 <= k < |newEntries| ==> newEntries[k] == start + k
    {
      newEntries := [];
      var i := start;
      while i <= end
        invariant start <= i <= end + 1
        invariant |newEntries| == i - start
        invariant forall k :: 0 <= k < |newEntries| ==> newEntries[k] == start + k
      {
        newEntries := newEntries + [i];
        i := i + 1;
      }
    }

    /**
      orderNewEntries(start, end): proxy rows start..end show source rows
      start..end sorted by group, the source-to-proxy vector points back at
      them, and each group's count grows by its number of rows in the block.
     */
    method OrderNewEntries(start: int, end: int, groupOf: int -> string)
      requires Valid()
      requires 0 <= start <= end + 1 && end < |fromProxyToSource|
      modifies this
      ensures Valid() && |fromProxyToSource| == |old(fromProxyToSource)|
      ensures var ne := SortBy(Range(start, end + 1), groupOf, StrLess);
        fromProxyToSource == old(fromProxyToSource)[..start] + ne + old(fromProxyToSource)[end + 1..]
      ensures multiset(fromProxyToSource[start..end + 1]) == multiset(Range(start, end + 1))
      ensures SortedBy(fromProxyToSource[start..end + 1], groupOf, StrLess)
      ensures forall p :: start <= p <= end ==> fromSourceToProxy[fromProxyToSource[p]] == p
      ensures forall x :: 0 <= x < |fromSourceToProxy| && !(start <= x <= end) ==> fromSourceToProxy[x] == old(fromSourceToProxy)[x]
      ensures forall g :: Items(itemsPerGroup, g) == Items(old(itemsPerGroup), g) + CountGroup(groupOf, start, end + 1, g)
      ensures allSourceIndexes == old(allSourceIndexes) && groupby == old(groupby)
      ensures Inverse(old(fromProxyToSource), old(fromSourceToProxy)) && old(fromProxyToSource)[start..end + 1] == Range(start, end + 1) ==>
        Inverse(fromProxyToSource, fromSourceToProxy)
    {
      var newEntries := NewEntries(start, end);
      assert newEntries == Range(start, end + 1);
      newEntries := SortBy(newEntries, groupOf, StrLess);
      GroupOrderOfBlock(start, end, groupOf);
      WriteNewEntries(start, newEntries, groupOf);
      assert fromProxyToSource[start..end + 1] == newEntries;
      forall p | start <= p <= end
        ensures fromSourceToProxy[fromProxyToSource[p]] == p
      {
        assert fromProxyToSource[p] == newEntries[p - start];
      }
      if Inverse(old(fromProxyToSource), old(fromSourceToProxy)) && old(fromProxyToSource)[start..end + 1] == Range(start, end + 1) {
        OrderKeepsInverse(old(fromProxyToSource), old(fromSourceToProxy), fromProxyToSource, fromSourceToProxy, start, end);
      }
    }

    /** The first loop of modelRowsInserted: source rows start..end are appended to all three vectors. */
    method AppendRows(start: int, end: int)
      requires Valid()
      requires 0 <= start <= |fromProxyToSource| && start <= end + 1
      modifies this
      ensures Valid() && groupby == old(groupby) && itemsPerGroup == old(itemsPerGroup)
      ensures allSourceIndexes == old(allSourceIndexes) + Range(start, end + 1)
      ensures fromProxyToSource == old(fromProxyToSource) + Range(start, end + 1)
      ensures fromSourceToProxy == old(fromSourceToProxy) + Range(start, end + 1)
      ensures start == |old(fromProxyToSource)| && Inverse(old(fromProxyToSource), old(fromSourceToProxy)) ==>
        Inverse(fromProxyToSource, fromSourceToProxy)
    {
      var i := start;
      while i <= end
        invariant start <= i <= end + 1
        invariant Valid() && groupby == old(groupby) && itemsPerGroup == old(itemsPerGroup)
        invariant allSourceIndexes == old(allSourceIndexes) + Range(start, i)
        invariant fromProxyToSource == old(fromProxyToSource) + Range(start, i)
        invariant fromSourceToProxy == old(fromSourceToProxy) + Range(start, i)
      {
        allSourceIndexes := allSourceIndexes + [i];
        fromProxyToSource := fromProxyToSource + [i];
        fromSourceToProxy := fromSourceToProxy + [i];
        assert Range(start, i + 1) == Range(start, i) + [i];
        i := i + 1;
      }
      if start == |old(fromProxyToSource)| && Inverse(old(fromProxyToSource), old(fromSourceToProxy)) {
        AppendKeepsInverse(old(fromProxyToSource), old(fromSourceToProxy), start, end);
      }
    }

    /**
      modelRowsInserted(parent, start, end): source rows start..end are
      appended to the three vectors; under a grouping they are then ordered
      by orderNewEntries. Rows appended after the last row keep the
      proxy-to-source vector a permutation.
     */
    method ModelRowsInserted(start: int, end: int, groupOf: int -> string)
      requires Valid()
      requires 0 <= start <= |fromProxyToSource| && start <= end + 1
      modifies this
      ensures Valid() && groupby == old(groupby)
      ensures allSourceIndexes == old(allSourceIndexes) + Range(start, end + 1)
      ensures groupby == None ==>
        && fromProxyToSource == old(fromProxyToSource) + Range(start, end + 1)
        && fromSourceToProxy == old(fromSourceToProxy) + Range(start, end + 1)
        && itemsPerGroup == old(itemsPerGroup)
      ensures groupby != None ==>
        var appended := old(fromProxyToSource) + Range(start, end + 1);
        && fromProxyToSource == appended[..start] + SortBy(Range(start, end + 1), groupOf, StrLess) + appended[end + 1..]
        && (forall p :: start <= p <= end ==> fromSourceToProxy[fromProxyToSource[p]] == p)
        && (forall g :: Items(itemsPerGroup, g) == Items(old(itemsPerGroup), g) + CountGroup(groupOf, start, end + 1, g))
      ensures start == |old(fromProxyToSource)| && IsPermutation(old(fromProxyToSource)) ==> IsPermutation(fromProxyToSource)
      ensures start == |old(fromProxyToSource)| && Inverse(old(fromProxyToSource), old(fromSourceToProxy)) ==>
        Inverse(fromProxyToSource, fromSourceToProxy)
    {
      AppendRows(start, end);
      if groupby != None {
        if start == |old(fromProxyToSource)| {
          assert fromProxyToSource[start..end + 1] == Range(start, end + 1);
        }
        OrderNewEntries(start, end, groupOf);
      }
      if start == |old(fromProxyToSource)| && IsPermutation(old(fromProxyToSource)) {
        InsertedKeepsPermutation(old(fromProxyToSource), fromProxyToSource, start, end, groupby != None, groupOf);
      }
    }

    /** The filter loop of sort(): the proxy rows whose source row is in the group, in increasing order. */
    method GroupRows(groupOf: int -> string, groupValue: string) returns (rows: seq<int>)
      ensures rows == FilteredRows(fromProxyToSource, groupOf, groupValue, |fromProxyToSource|)
      ensures forall p :: 0 <= p < |fromProxyToSource| ==> (p in rows <==> groupOf(fromProxyToSource[p]) == groupValue)
    {
      var allRows := |fromProxyToSource|;
      rows := [];
      var i := 0;
      while i < allRows
        invariant 0 <= i <= allRows
        invariant rows == FilteredRows(fromProxyToSource, groupOf, groupValue, i)
      {
        var groupByValue := groupOf(fromProxyToSource[i]);
        if groupByValue == groupValue {
          rows := rows + [i];
        }
        i := i + 1;
      }
      FilteredRowsComplete(fromProxyToSource, groupOf, groupValue, allRows);
    }

    /**
      The vectors are p0 and s0 after the bookkeeping loop of sort() with
      the group's proxy rows orig and their new order sorted: proxy row
      orig[k] shows the old source row of sorted[k], every other proxy row
      is unchanged, and (when p0 has no repeated row) the old source row of
      orig[k] points at sorted[k] while the other source rows are unchanged.
     */
    ghost predicate Reordered(p0: seq<int>, s0: seq<int>, orig: seq<int>, sorted: seq<int>)
      reads this
    {
      && |orig| == |sorted| && |fromProxyToSource| == |p0| && |fromSourceToProxy| == |s0| == |p0|
      && (forall k :: 0 <= k < |orig| ==> 0 <= orig[k] < |p0|)
      && (forall k :: 0 <= k < |sorted| ==> 0 <= sorted[k] < |p0|)
      && (forall q :: 0 <= q < |p0| ==> 0 <= p0[q] < |p0|)
      && (forall p :: 0 <= p < |p0| && p !in orig ==> fromProxyToSource[p] == p0[p])
      && (forall k :: 0 <= k < |orig| ==> fromProxyToSource[orig[k]] == p0[sorted[k]])
      && (forall x :: 0 <= x < |s0| && x !in SourceKeys(p0, orig) ==> fromSourceToProxy[x] == s0[x])
      && (Distinct(p0) ==> forall k :: 0 <= k < |orig| ==> fromSourceToProxy[p0[orig[k]]] == sorted[k])
    }

    /**
      The bookkeeping loop of sort(): proxy row orig[k] gets the source row
      of sorted[k], and the old source row of orig[k] points at sorted[k].
      When sorted rearranges orig, the proxy-to-source vector stays a
      permutation.
     */
    method ApplyOrder(orig: seq<int>, sorted: seq<int>)
      requires Valid() && |sorted| == |orig|
      requires Distinct(orig) && multiset(sorted) == multiset(orig)
      requires forall k :: 0 <= k < |orig| ==> 0 <= orig[k] < |fromProxyToSource|
      requires forall k :: 0 <= k < |sorted| ==> 0 <= sorted[k] < |fromProxyToSource|
      modifies this
      ensures Valid() && |fromProxyToSource| == |old(fromProxyToSource)|
      ensures Reordered(old(fromProxyToSource), old(fromSourceToProxy), orig, sorted)
      ensures IsPermutation(old(fromProxyToSource)) ==> IsPermutation(fromProxyToSource)
      ensures allSourceIndexes == old(allSourceIndexes) && itemsPerGroup == old(itemsPerGroup) && groupby == old(groupby)
    {
      var tempPtS := fromProxyToSource;
      ghost var s0 := fromSourceToProxy;
      var numOfChangedItems := |sorted|;
      var i := 0;
      while i < numOfChangedItems
        invariant 0 <= i <= numOfChangedItems
        invariant Valid() && allSourceIndexes == old(allSourceIndexes) && itemsPerGroup == old(itemsPerGroup) && groupby == old(groupby)
        invariant Applied(tempPtS, s0, orig, sorted, i, fromProxyToSource, fromSourceToProxy)
      {
        AppliedStep(tempPtS, s0, orig, sorted, i, fromProxyToSource, fromSourceToProxy);
        var origProxyKey := orig[i];
        var destProxyKey := sorted[i];
        var origSourceKey := tempPtS[origProxyKey];
        var destSourceKey := tempPtS[destProxyKey];
        fromProxyToSource := fromProxyToSource[origProxyKey := destSourceKey];
        fromSourceToProxy := fromSourceToProxy[origSourceKey := destProxyKey];
        i := i + 1;
      }
      assert orig[..i] == orig;
      if IsPermutation(tempPtS) {
        ReorderKeepsPermutation(tempPtS, fromProxyToSource, orig, sorted);
      }
    }

    /**
      sort(column, groupValue, order): the proxy rows whose source row is in
      the group are found in increasing order, sorted by the cached cell
      values, and the proxy rows of the group are refilled in that order;
      every other proxy row keeps its source row. The source-to-proxy
      vector is written at the group's old source rows and is not made the
      inverse of the new order. `changed` is the range of proxy rows that
      may have moved, none when the group has no rows.
     */
    method Sort(column: int, groupValue: string, ascending: bool, groupOf: int -> string, cellOf: int -> Variant)
      returns (changed: Wrappers.Option<(int, int)>)
      requires Valid()
      modifies this
      ensures Valid() && |fromProxyToSource| == |old(fromProxyToSource)|
      ensures var orig := FilteredRows(old(fromProxyToSource), groupOf, groupValue, |old(fromProxyToSource)|);
        var sorted := SortBy(orig, CellKey(old(fromProxyToSource), cellOf), ColumnLess(column, ascending));
        && multiset(sorted) == multiset(orig)
        && Reordered(old(fromProxyToSource), old(fromSourceToProxy), orig, sorted)
        && changed == MinMax(orig)
      ensures forall p :: 0 <= p < |fromProxyToSource| && groupOf(old(fromProxyToSource)[p]) != groupValue ==>
        fromProxyToSource[p] == old(fromProxyToSource)[p]
      ensures IsPermutation(old(fromProxyToSource)) ==> IsPermutation(fromProxyToSource)
      ensures allSourceIndexes == old(allSourceIndexes) && itemsPerGroup == old(itemsPerGroup) && groupby == old(groupby)
    {
      var tempPtS := fromProxyToSource;
      var origFilteredRows := GroupRows(groupOf, groupValue);
      var filteredRows := SortBy(origFilteredRows, CellKey(tempPtS, cellOf), ColumnLess(column, ascending));
      SortByBounds(origFilteredRows, CellKey(tempPtS, cellOf), ColumnLess(column, ascending), 0, |tempPtS|);
      ApplyOrder(origFilteredRows, filteredRows);
      changed := MinMax(origFilteredRows);
    }

    /** The write loop of requestSortForItems: proxy rows lo..hi - 1 show temp's rows there, and each row written points back. */
    method WriteWindow(lo: int, hi: int, temp: seq<int>)
      requires Valid() && 0 <= lo <= hi <= |temp| == |fromProxyToSource|
      requires forall k :: 0 <= k < |temp| ==> 0 <= temp[k] < |fromProxyToSource|
      modifies this
      ensures Valid() && |fromProxyToSource| == |old(fromProxyToSource)|
      ensures fromProxyToSource == old(fromProxyToSource)[..lo] + temp[lo..hi] + old(fromProxyToSource)[hi..]
      ensures forall x :: 0 <= x < |fromSourceToProxy| && x !in temp[lo..hi] ==> fromSourceToProxy[x] == old(fromSourceToProxy)[x]
      ensures Distinct(temp) ==> forall i :: lo <= i < hi && old(fromProxyToSource)[i] != temp[i] ==> fromSourceToProxy[temp[i]] == i
      ensures allSourceIndexes == old(allSourceIndexes) && itemsPerGroup == old(itemsPerGroup) && groupby == old(groupby)
    {
      ghost var p0, s0 := fromProxyToSource, fromSourceToProxy;
      var numOfItems := hi - lo;
      var i := lo;
      while i < lo + numOfItems
        invariant lo <= i <= hi
        invariant Valid() && allSourceIndexes == old(allSourceIndexes) && itemsPerGroup == old(itemsPerGroup) && groupby == old(groupby)
        invariant Windowed(p0, s0, temp, lo, i, fromProxyToSource, fromSourceToProxy)
      {
        WindowedStep(p0, s0, temp, lo, i, fromProxyToSource, fromSourceToProxy);
        if fromProxyToSource[i] != temp[i] {
          fromProxyToSource := fromProxyToSource[i := temp[i]];
          fromSourceToProxy := fromSourceToProxy[temp[i] := i];
        }
        i := i + 1;
      }
    }

    /**
      requestSortForItems(startId, endId): the window around the requested
      rows is filled with the source rows that rank there by name; any ids
      are clamped, and only a window whose clamped ends cross is excluded. The
      ranking (std::nth_element and std::partial_sort) is represented by its
      fully sorted outcome. Rows outside the window keep their source row.
     */
    method RequestSortForItems(startId: int, endId: int, rowCount: int, nameOf: int -> string)
      requires Valid() && rowCount <= |allSourceIndexes|
      requires Window(startId, endId, rowCount).0 <= Window(startId, endId, rowCount).1
      modifies this
      ensures Valid() && |fromProxyToSource| == |old(fromProxyToSource)|
      ensures var w := Window(startId, endId, rowCount);
        var temp := SortBy(old(allSourceIndexes), nameOf, StrLess);
        && (forall k :: 0 <= k < |temp| ==> 0 <= temp[k] < |fromProxyToSource|)
        && fromProxyToSource == old(fromProxyToSource)[..w.0] + temp[w.0..w.1] + old(fromProxyToSource)[w.1..]
        && SortedBy(fromProxyToSource[w.0..w.1], nameOf, StrLess)
        && (forall x :: 0 <= x < |fromSourceToProxy| && x !in temp[w.0..w.1] ==> fromSourceToProxy[x] == old(fromSourceToProxy)[x])
        && (Distinct(old(allSourceIndexes)) ==> forall i :: w.0 <= i < w.1 && old(fromProxyToSource)[i] != temp[i] ==> fromSourceToProxy[temp[i]] == i)
      ensures allSourceIndexes == old(allSourceIndexes) && itemsPerGroup == old(itemsPerGroup) && groupby == old(groupby)
    {
      var w := Window(startId, endId, rowCount);
      var tempPtS := SortBy(allSourceIndexes, nameOf, StrLess);
      StrLessIsStrict();
      SortBySorted(allSourceIndexes, nameOf, StrLess);
      if Distinct(allSourceIndexes) {
        PermutationKeepsDistinct(tempPtS, allSourceIndexes);
      }
      forall k | 0 <= k < |tempPtS|
        ensures 0 <= tempPtS[k] < |fromProxyToSource|
      {
        assert tempPtS[k] in multiset(allSourceIndexes);
      }
      WriteWindow(w.0, w.1, tempPtS);
      assert fromProxyToSource[w.0..w.1] == tempPtS[w.0..w.1];
      SortedSlice(tempPtS, w.0, w.1, nameOf, StrLess);
    }
  }
}
