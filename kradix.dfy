/**
  KRadix: the earlier revision of the prefix trie. The tree is a vector of
  root nodes; every node holds a key (a QString), a value and a vector of
  child nodes. Insertion edits the vectors in place; lookup is a recursion
  over copies of them.
 */
module KRadix {
  import opened Wrappers
  import opened KStringUnicode
  import KRadix2

  /** A QString, as the UTF-16 code units `at(i)` reads. */
  type Str = seq<CodeUnit>

  /** Node (the member `data` is never used by the trie). */
  datatype Node = Node(key: Str, value: int, children: seq<Node>)

  /** n.key.startsWith(c) */
  predicate StartsWith(s: Str, c: CodeUnit) {
    |s| > 0 && s[0] == c
  }

  /** The first node whose key starts with `c`, or |nodes|: the node both insert loops act on. */
  function StartIndex(nodes: seq<Node>, c: CodeUnit): (i: nat)
    ensures i <= |nodes|
    ensures forall k :: 0 <= k < i ==> !StartsWith(nodes[k].key, c)
    ensures i < |nodes| ==> StartsWith(nodes[i].key, c)
  {
    if |nodes| == 0 then 0
    else if StartsWith(nodes[0].key, c) then 0
    else 1 + StartIndex(nodes[1..], c)
  }

  /**
    removeTextMatchFromBegin(one, two): the part both start with, then what
    is left of `one`, then what is left of `two`.
   */
  function RemoveTextMatchFromBegin(one: Str, two: Str): (r: seq<Str>)
    ensures |r| == 3
    ensures r[0] + r[1] == one && r[0] + r[2] == two
    ensures r[1] == [] || r[2] == [] || r[1][0] != r[2][0]
  {
    var p := KRadix2.Lcp(one, two);
    assert one == one[..p] + one[p..] && two == two[..p] + two[p..];
    [one[..p], one[p..], two[p..]]
  }

  // ---------------------------------------------------------------------
  // Insertion, as a function of the vectors it edits.

  /**
    insert(nodes, key, value): the vector after the call, or None where the
    source calls key.at(0) on an empty key. A node starting like the key is
    left alone if its key equals the key; otherwise, at the first difference
    it becomes the common part with value 0 over the old tail and a new leaf;
    when one string ends first, a childless node gets one child holding the
    rest of the key, and a node with children passes the rest on. A key that
    starts no node is dropped.
   */
  function InsertNodes(nodes: seq<Node>, key: Str, v: int): Option<seq<Node>>
    decreases nodes
  {
    if |nodes| == 0 then Some(nodes)
    else if key == [] then None
    else
      var i := StartIndex(nodes, key[0]);
      if i == |nodes| then Some(nodes)
      else
        var n := nodes[i];
        if n.key == key then Some(nodes)
        else
          var p := KRadix2.Lcp(n.key, key);
          var maxLength := if |n.key| < |key| then |n.key| else |key|;
          if p < maxLength then
            Some(nodes[i := Node(n.key[..p], 0, [n.(key := n.key[p..]), Node(key[p..], v, [])])])
          else if n.children == [] then
            Some(nodes[i := n.(children := [Node(key[maxLength..], v, [])])])
          else
            match InsertNodes(n.children, key[maxLength..], v)
            case None => None
            case Some(ch) => Some(nodes[i := n.(children := ch)])
  }

  /** insert(key, value): a new root node when none starts like the key, else the recursive insert. */
  function Inserted(nodes: seq<Node>, key: Str, v: int): Option<seq<Node>>
    requires |key| > 0
  {
    if StartIndex(nodes, key[0]) == |nodes| then Some(nodes + [Node(key, v, [])])
    else InsertNodes(nodes, key, v)
  }

  /** The for loop of insert(nodes, key, value), recursing into the children vector. */
  method InsertInto(nodes: seq<Node>, key: Str, v: int) returns (r: Option<seq<Node>>)
    ensures r == InsertNodes(nodes, key, v)
    decreases nodes, 1
  {
    var nodeCount := |nodes|;
    var i := 0;
    while i < nodeCount
      invariant 0 <= i <= nodeCount
      invariant i > 0 ==> key != [] && i <= StartIndex(nodes, key[0])
    {
      if key == [] {
        // key.at(0) on an empty QString
        return None;
      }
      if StartsWith(nodes[i].key, key[0]) {
        r := InsertAt(nodes, key, v, i);
        return;
      }
      i := i + 1;
    }
    return Some(nodes);
  }

  /** The body of insert's for loop at the first node that starts like the key. */
  method InsertAt(nodes: seq<Node>, key: Str, v: int, i: nat) returns (r: Option<seq<Node>>)
    requires key != [] && i == StartIndex(nodes, key[0]) < |nodes|
    ensures r == InsertNodes(nodes, key, v)
    decreases nodes, 0
  {
    var n := nodes[i];
    if n.key == key {
      return Some(nodes);
    }
    var maxLength := if |n.key| < |key| then |n.key| else |key|;
    var pos := 0;
    // for (; pos < maxLength; pos++): every round up to maxLength - 1 returns
    while true
      invariant 0 <= pos < maxLength
      invariant n.key[..pos] == key[..pos]
      decreases maxLength - pos
    {
      if n.key[pos] != key[pos] {
        LcpAt(n.key, key, pos);
        var one := n.(key := n.key[pos..]);
        var two := Node(key[pos..], v, []);
        return Some(nodes[i := Node(n.key[..pos], 0, [one, two])]);
      } else if pos == maxLength - 1 {
        LcpAt(n.key, key, maxLength);
        var newKeys := RemoveTextMatchFromBegin(n.key, key);
        assert newKeys[2] == key[maxLength..];
        if n.children == [] {
          return Some(nodes[i := n.(children := [Node(newKeys[2], v, [])])]);
        } else {
          assert n in nodes;
          var ch := InsertInto(n.children, newKeys[2], v);
          match ch
          case None => return None;
          case Some(c) => return Some(nodes[i := n.(children := c)]);
        }
      }
      pos := pos + 1;
    }
  }

  /** Where the comparison loops stop is the longest common prefix. */
  lemma LcpAt(a: Str, b: Str, p: nat)
    requires p <= |a| && p <= |b| && a[..p] == b[..p]
    requires p < |a| && p < |b| ==> a[p] != b[p]
    ensures KRadix2.Lcp(a, b) == p
  {
    KRadix2.LcpIs(a, b, p);
  }

  /** What the trie keeps at the root: non-empty keys with pairwise different first characters. */
  predicate RootsOk(nodes: seq<Node>) {
    && (forall i :: 0 <= i < |nodes| ==> |nodes[i].key| > 0)
    && (forall i, j :: 0 <= i < j < |nodes| ==> nodes[i].key[0] != nodes[j].key[0])
  }

  /** A KRadix object: the vector of root nodes. */
  class Radix {
    var nodes: seq<Node>

    ghost predicate Valid()
      reads this
    {
      RootsOk(nodes)
    }

    constructor ()
      ensures Valid() && nodes == []
    {
      nodes := [];
    }

    /** insertRootNodeIfNeeded: append a root node unless one equals the key or starts like it. */
    method InsertRootNodeIfNeeded(key: Str, value: int) returns (inserted: bool)
      requires |key| > 0
      modifies this
      ensures inserted <==> StartIndex(old(nodes), key[0]) == |old(nodes)|
      ensures nodes == if inserted then old(nodes) + [Node(key, value, [])] else old(nodes)
    {
      var firstChar := key[0];
      var i := 0;
      while i < |nodes|
        invariant 0 <= i <= |nodes|
        invariant forall k :: 0 <= k < i ==> !StartsWith(nodes[k].key, firstChar)
      {
        if nodes[i].key == key || StartsWith(nodes[i].key, firstChar) {
          return false;
        }
        i := i + 1;
      }
      nodes := nodes + [Node(key, value, [])];
      return true;
    }

    /**
      insert(key, value); `ok` is false where the source reads at(0) of an
      empty remainder, and the model then leaves the tree as it was.
     */
    method Insert(key: Str, value: int) returns (ok: bool)
      requires Valid() && |key| > 0
      modifies this
      ensures Valid()
      ensures ok <==> Inserted(old(nodes), key, value).Some?
      ensures nodes == Inserted(old(nodes), key, value).GetOr(old(nodes))
    {
      InsertKeepsRoots(nodes, key, value);
      var inserted := InsertRootNodeIfNeeded(key, value);
      if inserted {
        return true;
      }
      var r := InsertInto(nodes, key, value);
      if r.Some? {
        nodes := r.value;
      }
      return r.Some?;
    }
  }

  // ---------------------------------------------------------------------
  // Lookup.

  /** Every value held by nodes[i..] or by a node below them. */
  function ValuesFrom(nodes: seq<Node>, i: nat): set<int>
    requires i <= |nodes|
    decreases nodes, |nodes| - i
  {
    if i == |nodes| then {} else {nodes[i].value} + ValuesFrom(nodes[i].children, 0) + ValuesFrom(nodes, i + 1)
  }

  /** value(nodes, key): 0, or a value some node of the trie holds. */
  function Value(nodes: seq<Node>, key: Str): (r: int)
    ensures r == 0 || r in ValuesFrom(nodes, 0)
  {
    ValueFrom(nodes, key, 0)
  }

  /**
    The loop of value(nodes, key) from node i on: a node whose key equals the
    key gives its value; the first node sharing a non-empty prefix with the
    key passes what is left of the key to its children (whatever is left of
    its own key); nothing found gives 0.
   */
  function ValueFrom(nodes: seq<Node>, key: Str, i: nat): (r: int)
    requires i <= |nodes|
    decreases nodes, |nodes| - i
    ensures r == 0 || r in ValuesFrom(nodes, i)
  {
    if i == |nodes| then 0
    else
      var n := nodes[i];
      if n.key == key then n.value
      else
        var keys := RemoveTextMatchFromBegin(n.key, key);
        if keys[0] != [] then ValueFrom(n.children, keys[2], 0) else ValueFrom(nodes, key, i + 1)
  }

  /** The value of the node the insertion path reaches exactly, None when it reaches none. */
  function Reach(nodes: seq<Node>, key: Str): Option<int>
    decreases nodes
  {
    if key == [] then None
    else
      var i := StartIndex(nodes, key[0]);
      if i == |nodes| then None
      else
        var n := nodes[i];
        if n.key == key then Some(n.value)
        else if n.key < key && n.children != [] then Reach(n.children, key[|n.key|..])
        else None
  }

  /** Some node path below `nodes` spells `key` (keys concatenated) and ends at a node holding `v`. */
  predicate Holds(nodes: seq<Node>, key: Str, v: int)
    decreases nodes
  {
    exists i :: 0 <= i < |nodes| &&
      ((nodes[i].key == key && nodes[i].value == v) ||
       (nodes[i].key <= key && Holds(nodes[i].children, key[|nodes[i].key|..], v)))
  }

  /**
    value(nodes, key) as evidently intended: a node sharing a prefix with the
    key is followed only when its whole key is a prefix of the key.
   */
  function ValueFixedFrom(nodes: seq<Node>, key: Str, i: nat): int
    requires i <= |nodes|
    decreases nodes, |nodes| - i
  {
    if i == |nodes| then 0
    else
      var n := nodes[i];
      if n.key == key then n.value
      else
        var keys := RemoveTextMatchFromBegin(n.key, key);
        if keys[0] != [] then
          (if keys[1] == [] then ValueFixedFrom(n.children, keys[2], 0) else 0)
        else ValueFixedFrom(nodes, key, i + 1)
  }

  function ValueFixed(nodes: seq<Node>, key: Str): int {
    ValueFixedFrom(nodes, key, 0)
  }

  // ---------------------------------------------------------------------
  // Properties.

  /** The nodes before the first one starting like a non-empty key are passed over by value. */
  lemma {:induction false} ValueSkips(nodes: seq<Node>, key: Str, i: nat)
    requires |key| > 0 && i <= StartIndex(nodes, key[0])
    ensures ValueFrom(nodes, key, i) == ValueFrom(nodes, key, StartIndex(nodes, key[0]))
    ensures ValueFixedFrom(nodes, key, i) == ValueFixedFrom(nodes, key, StartIndex(nodes, key[0]))
    decreases |nodes| - i
  {
    if i < StartIndex(nodes, key[0]) {
      var keys := RemoveTextMatchFromBegin(nodes[i].key, key);
      assert keys[0] == [];
      ValueSkips(nodes, key, i + 1);
    }
  }

  /** A key the insertion path reaches exactly is what value (as written and corrected) returns. */
  lemma {:induction false} ReachedIsValue(nodes: seq<Node>, key: Str)
    requires Reach(nodes, key).Some?
    ensures Value(nodes, key) == Reach(nodes, key).value
    ensures ValueFixed(nodes, key) == Reach(nodes, key).value
    ensures Holds(nodes, key, Reach(nodes, key).value)
    decreases nodes
  {
    var i := StartIndex(nodes, key[0]);
    ValueSkips(nodes, key, 0);
    var n := nodes[i];
    if n.key != key {
      var rest := key[|n.key|..];
      var keys := RemoveTextMatchFromBegin(n.key, key);
      LcpAt(n.key, key, |n.key|);
      assert keys[0] == n.key && keys[1] == [] && keys[2] == rest;
      ReachedIsValue(n.children, rest);
      assert n.key <= key && Holds(n.children, rest, Reach(nodes, key).value);
    }
  }

  /** Inserting a key the insertion path already reaches exactly changes nothing: the old value stays. */
  lemma {:induction false} DuplicateIgnored(nodes: seq<Node>, key: Str, v: int)
    requires Reach(nodes, key).Some?
    ensures InsertNodes(nodes, key, v) == Some(nodes)
    ensures Inserted(nodes, key, v) == Some(nodes)
    decreases nodes
  {
    var i := StartIndex(nodes, key[0]);
    var n := nodes[i];
    if n.key != key {
      var rest := key[|n.key|..];
      LcpAt(n.key, key, |n.key|);
      DuplicateIgnored(n.children, rest, v);
      assert nodes[i := n.(children := n.children)] == nodes;
    }
  }

  /** Every insertion step keeps the first character of the node it rewrites. */
  lemma InsertNodesKeepsFirsts(nodes: seq<Node>, key: Str, v: int)
    requires InsertNodes(nodes, key, v).Some?
    ensures var r := InsertNodes(nodes, key, v).value;
      |r| == |nodes| &&
      forall k :: 0 <= k < |nodes| && |nodes[k].key| > 0 ==> |r[k].key| > 0 && r[k].key[0] == nodes[k].key[0]
  {
    if |nodes| > 0 && key != [] {
      var i := StartIndex(nodes, key[0]);
      if i < |nodes| && nodes[i].key != key {
        var n := nodes[i];
        var p := KRadix2.Lcp(n.key, key);
        assert p > 0;
      }
    }
  }

  /** insert keeps the roots non-empty and starting with pairwise different characters. */
  lemma InsertKeepsRoots(nodes: seq<Node>, key: Str, v: int)
    requires RootsOk(nodes) && |key| > 0
    ensures Inserted(nodes, key, v).Some? ==> RootsOk(Inserted(nodes, key, v).value)
  {
    if StartIndex(nodes, key[0]) == |nodes| {
      var r := nodes + [Node(key, v, [])];
      forall i, j | 0 <= i < j < |r| ensures r[i].key[0] != r[j].key[0] {
        if j == |nodes| {
          assert !StartsWith(nodes[i].key, key[0]);
        }
      }
    } else if InsertNodes(nodes, key, v).Some? {
      InsertNodesKeepsFirsts(nodes, key, v);
    }
  }

  /** A key starting no root node becomes the last root node, and value finds it. */
  lemma NewRootThenValue(nodes: seq<Node>, key: Str, v: int)
    requires RootsOk(nodes) && |key| > 0 && StartIndex(nodes, key[0]) == |nodes|
    ensures Inserted(nodes, key, v) == Some(nodes + [Node(key, v, [])])
    ensures Value(nodes + [Node(key, v, [])], key) == v
  {
    var r := nodes + [Node(key, v, [])];
    StartIndexAppend(nodes, Node(key, v, []), key[0]);
    assert Reach(r, key) == Some(v);
    ReachedIsValue(r, key);
  }

  /** Appending a node only matters to a scan that found nothing before. */
  lemma StartIndexAppend(nodes: seq<Node>, x: Node, c: CodeUnit)
    requires StartIndex(nodes, c) == |nodes| && StartsWith(x.key, c)
    ensures StartIndex(nodes + [x], c) == |nodes|
  {
    var r := nodes + [x];
    assert forall k :: 0 <= k < |nodes| ==> r[k] == nodes[k];
    StartIndexIs(r, c, |nodes|);
  }

  /** StartIndex is the first index whose key starts with `c`. */
  lemma StartIndexIs(nodes: seq<Node>, c: CodeUnit, i: nat)
    requires i < |nodes| && StartsWith(nodes[i].key, c)
    requires forall k :: 0 <= k < i ==> !StartsWith(nodes[k].key, c)
    ensures StartIndex(nodes, c) == i
  {
  }

  /** A corrected value that is not 0 is the value at the end of a path spelling the key. */
  lemma {:induction false} ValueFixedSound(nodes: seq<Node>, key: Str, i: nat)
    requires i <= |nodes| && ValueFixedFrom(nodes, key, i) != 0
    ensures Holds(nodes, key, ValueFixedFrom(nodes, key, i))
    decreases nodes, |nodes| - i
  {
    var n := nodes[i];
    var x := ValueFixedFrom(nodes, key, i);
    if n.key == key {
      assert nodes[i].key == key && nodes[i].value == x;
    } else {
      var keys := RemoveTextMatchFromBegin(n.key, key);
      if keys[0] != [] {
        assert keys[1] == [] && keys[0] == n.key && keys[2] == key[|n.key|..];
        ValueFixedSound(n.children, keys[2], 0);
        assert n.key <= key && Holds(nodes[i].children, key[|nodes[i].key|..], x);
      } else {
        ValueFixedSound(nodes, key, i + 1);
      }
    }
  }

  // ---------------------------------------------------------------------
  // Scenarios (t=116 e=101 s=115 a=97 m=109 i=105 n=110 g=103).

  const Team: Str := [116, 101, 97, 109]
  const Test: Str := [116, 101, 115, 116]
  const Tam: Str := [116, 97, 109]
  /** The roots after insert("team", 1) and insert("test", 2). */
  const TeTree: seq<Node> := [Node([116, 101], 0, [Node([97, 109], 1, []), Node([115, 116], 2, [])])]

  /** Divergence at position 2: "te" with value 0 over the old tail "am" and the new leaf "st". */
  lemma DivergenceScenario()
    ensures Inserted([], Team, 1) == Some([Node(Team, 1, [])])
    ensures Inserted([Node(Team, 1, [])], Test, 2) == Some(TeTree)
  {
    assert [] + [Node(Team, 1, [])] == [Node(Team, 1, [])];
    var n := Node(Team, 1, []);
    assert StartIndex([n], 116) == 0;
    assert Team != Test by { assert Team[2] != Test[2]; }
    LcpAt(Team, Test, 2);
    assert Team[..2] == [116, 101] && Team[2..] == [97, 109] && Test[2..] == [115, 116];
    assert InsertNodes([n], Test, 2) == Some([n][0 := Node(Team[..2], 0, [n.(key := Team[2..]), Node(Test[2..], 2, [])])]);
    assert [n][0 := Node(Team[..2], 0, [n.(key := Team[2..]), Node(Test[2..], 2, [])])] == TeTree;
    assert Inserted([n], Test, 2) == InsertNodes([n], Test, 2);
  }

  /**
    value ignores the unmatched rest of a node's key: "tam" was never
    inserted, yet value finds 1, and no path spells it; the corrected lookup
    answers 0.
   */
  lemma ValueIgnoresLabelRest()
    ensures Value(TeTree, Tam) == 1
    ensures !Holds(TeTree, Tam, 1)
    ensures ValueFixed(TeTree, Tam) == 0
  {
    var te := TeTree[0];
    var keys := RemoveTextMatchFromBegin(te.key, Tam);
    LcpAt(te.key, Tam, 1);
    assert te.key[..1] == [116] && te.key[1..] == [101] && Tam[1..] == [97, 109];
    assert keys == [[116], [101], [97, 109]];
    var am := te.children[0];
    assert am.key == [97, 109];
    assert ValueFrom(te.children, [97, 109], 0) == 1;
    assert !(te.key <= Tam) by { assert te.key[1] != Tam[1]; }
  }

  /** A key that is a proper prefix of a childless node's key becomes an empty-key child. */
  lemma PrefixBecomesEmptyChild()
    ensures Inserted([Node(Test, 1, [])], [116, 101], 2) == Some([Node(Test, 1, [Node([], 2, [])])])
    ensures Value([Node(Test, 1, [Node([], 2, [])])], [116, 101]) == 2
  {
    var te: Str := [116, 101];
    var n := Node(Test, 1, []);
    assert StartIndex([n], 116) == 0;
    assert Test != te;
    LcpAt(Test, te, 2);
    assert te[2..] == [];
    assert InsertNodes([n], te, 2) == Some([n][0 := n.(children := [Node([], 2, [])])]);
    assert [n][0 := n.(children := [Node([], 2, [])])] == [Node(Test, 1, [Node([], 2, [])])];
    assert Inserted([n], te, 2) == InsertNodes([n], te, 2);
    var keys := RemoveTextMatchFromBegin(Test, te);
    assert keys[0] == te && keys[2] == [];
    assert ValueFrom([Node([], 2, [])], [], 0) == 2;
    assert ValueFrom([Node(Test, 1, [Node([], 2, [])])], te, 0) == 2;
  }

  /** A remainder that starts no child is dropped: "tex" under "te" with the children "st" and "a". */
  lemma RemainderDropped()
    ensures var t := [Node([116, 101], 0, [Node([115, 116], 1, []), Node([97], 2, [])])];
      Inserted(t, [116, 101, 120], 3) == Some(t)
  {
    var t := [Node([116, 101], 0, [Node([115, 116], 1, []), Node([97], 2, [])])];
    var key: Str := [116, 101, 120];
    assert StartIndex(t, 116) == 0;
    LcpAt([116, 101], key, 2);
    assert key[2..] == [120];
    assert StartIndex(t[0].children, 120) == 2;
    assert t[0 := t[0].(children := t[0].children)] == t;
  }

  /** key.at(0) of an empty remainder: "te" after "test" and "testing" (whose node has children). */
  lemma EmptyRemainderRead()
    ensures Inserted([Node(Test, 1, [Node([105, 110, 103], 2, [])])], [116, 101], 3) == None
  {
    var te: Str := [116, 101];
    assert StartIndex([Node(Test, 1, [Node([105, 110, 103], 2, [])])], 116) == 0;
    assert Test != te;
    LcpAt(Test, te, 2);
    assert te[2..] == [];
    assert InsertNodes([Node([105, 110, 103], 2, [])], [], 3) == None;
  }
}
