/**
  The NUL-terminated UTF-16 code-unit buffer (KStringUnicode) that the radix
  trie stores its labels in. A buffer holds the code units of a string followed
  by a 0 terminator; `length()` and `toString()` only see the code units before
  the first 0.
 */
module KStringUnicode {

  /** One UTF-16 code unit, as returned by QChar::unicode() (a ushort). */
  newtype CodeUnit = x: int | 0 <= x < 0x1_0000

  /** The terminator, QChar('\0').unicode(). */
  const Nul: CodeUnit := 0

  predicate NulFree(s: seq<CodeUnit>) {
    forall i :: 0 <= i < |s| ==> s[i] != Nul
  }

  /** The code units before the first terminator of `s` (all of `s` if it has none). */
  function Visible(s: seq<CodeUnit>): (r: seq<CodeUnit>)
    ensures NulFree(r) && r <= s
    ensures |r| < |s| ==> s[|r|] == Nul
  {
    if s == [] || s[0] == Nul then [] else [s[0]] + Visible(s[1..])
  }

  /**
    Reading position `i` of the buffer that holds `s` followed by its
    terminator (operator[] on a buffer built from `s`).
   */
  function At(s: seq<CodeUnit>, i: nat): (c: CodeUnit)
    requires i <= |s|
    ensures c == Nul <==> i == |s| || s[i] == Nul
  {
    if i < |s| then s[i] else Nul
  }

  /** A NUL-free string is seen whole: what the constructor stores, length() and toString() give back. */
  lemma {:induction false} VisibleOfNulFree(s: seq<CodeUnit>, tail: seq<CodeUnit>)
    requires NulFree(s)
    ensures Visible(s + [Nul] + tail) == s
  {
    if s != [] {
      assert (s + [Nul] + tail)[1..] == s[1..] + [Nul] + tail;
      VisibleOfNulFree(s[1..], tail);
    } else {
      assert (s + [Nul] + tail)[0] == Nul;
    }
  }

  /** Text without a terminator in front of more text is seen whole, then what follows. */
  lemma {:induction false} VisibleAppend(a: seq<CodeUnit>, b: seq<CodeUnit>)
    requires NulFree(a)
    ensures Visible(a + b) == a + Visible(b)
  {
    if a != [] {
      assert (a + b)[0] == a[0] && (a + b)[1..] == a[1..] + b;
      assert a[0] != Nul;
      VisibleAppend(a[1..], b);
      assert Visible(a + b) == [a[0]] + Visible(a[1..] + b);
      assert a == [a[0]] + a[1..];
    } else {
      assert a + b == b;
    }
  }

  /** A terminator-free prefix is part of what is visible. */
  lemma VisibleSplit(s: seq<CodeUnit>, n: nat)
    requires n <= |s| && NulFree(s[..n])
    ensures Visible(s) == s[..n] + Visible(s[n..])
  {
    assert s == s[..n] + s[n..];
    VisibleAppend(s[..n], s[n..]);
  }

  /** The visible text of a suffix is the suffix of the visible text. */
  lemma {:induction false} VisibleSuffix(s: seq<CodeUnit>, p: nat)
    requires p <= |Visible(s)|
    ensures Visible(s[p..]) == Visible(s)[p..]
  {
    if p > 0 {
      assert s[0] != Nul && s != [];
      assert s[1..][p - 1..] == s[p..];
      VisibleSuffix(s[1..], p - 1);
    }
  }

  /**
    The code units mid(position, n) copies out of buffer `buf`: the `n` code
    units from `position`, or, for the default n = -1, everything from
    `position` up to and including the terminator.
   */
  function MidUnits(buf: seq<CodeUnit>, position: nat, n: int): seq<CodeUnit>
    requires n >= -1
    requires n == -1 ==> position <= |Visible(buf)| + 1 <= |buf|
    requires n >= 0 ==> position + n <= |buf|
  {
    var till := if n == -1 then |Visible(buf)| + 1 else position + n;
    buf[position..till]
  }

  /** mid(position) of a terminated buffer: the suffix, whose length() is length() - position. */
  lemma MidSuffixVisible(buf: seq<CodeUnit>, position: nat)
    requires |Visible(buf)| < |buf|
    requires position <= |Visible(buf)|
    ensures Visible(MidUnits(buf, position, -1) + [Nul]) == Visible(buf)[position..]
    ensures |Visible(MidUnits(buf, position, -1) + [Nul])| == |Visible(buf)| - position
  {
    var v := Visible(buf);
    assert buf[..|v|] == v;
    assert MidUnits(buf, position, -1) == v[position..] + [Nul];
    VisibleOfNulFree(v[position..], [Nul]);
    assert v[position..] + [Nul] + [Nul] == MidUnits(buf, position, -1) + [Nul];
  }

  /** mid(position, n) inside the visible text: exactly those n code units. */
  lemma MidRangeVisible(buf: seq<CodeUnit>, position: nat, n: nat)
    requires position + n <= |Visible(buf)|
    ensures Visible(MidUnits(buf, position, n) + [Nul]) == Visible(buf)[position..position + n]
  {
    var v := Visible(buf);
    assert buf[..|v|] == v;
    assert MidUnits(buf, position, n) == v[position..position + n];
    VisibleOfNulFree(v[position..position + n], []);
    assert v[position..position + n] + [Nul] + [] == MidUnits(buf, position, n) + [Nul];
  }

  /** A KStringUnicode object: a heap buffer owned through a unique_ptr (null once moved from). */
  class KString {
    var data: array?<CodeUnit>

    /** Every buffer built by this class ends in a terminator. */
    ghost predicate Valid()
      reads this, data
    {
      data != null && data.Length > 0 && data[data.Length - 1] == Nul
    }

    /** The string as the trie sees it: the code units before the first terminator. */
    ghost function Text(): seq<CodeUnit>
      reads this, data
      requires data != null
    {
      Visible(data[..])
    }

    /** KStringUnicode(const QString&): copy the code units, then the terminator. */
    constructor (s: seq<CodeUnit>)
      ensures Valid() && fresh(data)
      ensures data[..] == s + [Nul]
    {
      var buf := new CodeUnit[|s| + 1];
      var i := 0;
      while i < |s|
        invariant 0 <= i <= |s|
        invariant buf[..i] == s[..i]
      {
        buf[i] := s[i];
        i := i + 1;
      }
      buf[|s|] := Nul;
      data := buf;
      assert buf[..] == buf[..|s|] + [buf[|s|]];
    }

    /** The move constructor takes over the other object's buffer and leaves it empty. */
    constructor Move(other: KString)
      modifies other
      ensures data == old(other.data) && other.data == null
    {
      data := other.data;
      new;
      other.data := null;
    }

    /** Move assignment: a no-op when both already share a buffer (self-assignment). */
    method MoveAssign(other: KString)
      modifies this, other
      ensures old(data) != old(other.data) ==> data == old(other.data) && other.data == null
      ensures old(data) == old(other.data) ==> data == old(data) && other.data == old(other.data)
    {
      if data != other.data {
        var moved := other.data;
        other.data := null;
        data := moved;
      }
    }

    /** length(): the number of code units before the first terminator. */
    method Length() returns (n: nat)
      requires Valid()
      ensures n == |Text()| && n < data.Length
    {
      n := 0;
      while data[n] != Nul
        invariant 0 <= n < data.Length
        invariant NulFree(data[..n])
        decreases data.Length - n
      {
        assert data[..n + 1] == data[..n] + [data[n]];
        n := n + 1;
      }
      VisibleSplit(data[..], n);
      assert data[..][n..][0] == Nul;
      assert data[..][..n] == data[..n];
    }

    /** toString(): a QString of the visible code units. */
    method ToString() returns (s: seq<CodeUnit>)
      requires Valid()
      ensures s == Text()
    {
      var len := Length();
      s := [];
      var i := 0;
      while i < len
        invariant 0 <= i <= len
        invariant s == data[..i]
      {
        s := s + [data[i]];
        i := i + 1;
      }
      VisibleSplit(data[..], 0);
      assert Text() <= data[..];
      assert s == data[..len];
    }

    /** mid(position, n): a new object holding the selected code units (and its own terminator). */
    method Mid(position: nat, n: int) returns (r: KString)
      requires Valid()
      requires n >= -1
      requires n == -1 ==> position <= |Text()| + 1
      requires n >= 0 ==> position + n <= data.Length
      ensures r.Valid() && fresh(r) && fresh(r.data)
      ensures r.data[..] == MidUnits(data[..], position, n) + [Nul]
    {
      var len := Length();
      var till := if n == -1 then len + 1 else position + n;
      var size := till - position;
      var units: seq<CodeUnit> := [];
      var i := 0;
      while i < size
        invariant 0 <= i <= size
        invariant units == data[position..position + i]
      {
        units := units + [data[i + position]];
        i := i + 1;
      }
      r := new KString(units);
    }
  }
}
