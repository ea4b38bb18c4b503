/**
  KRadix2: the compressed prefix trie (radix tree) from string keys to int
  values. Every node carries a label (the code units consumed between its
  parent and itself), a value (0 doubles as "unset" and as "not found") and
  its children. The root has an empty label.
 */
module KRadix2 {
  import opened Wrappers
  import opened KStringUnicode

  /** The code units of a key or label as the trie sees them (its visible text). */
  type Key = seq<CodeUnit>

  /** Node2 */
  datatype Node = Node(text: Key, value: int, children: seq<Node>)

  /** The root of a new KRadix2: empty label, value 0, no children. */
  const EmptyTrie: Node := Node([], 0, [])

  /** The first code unit of a label, as `n.key[0]` reads it (the terminator for an empty label). */
  function Head(n: Node): CodeUnit {
    At(n.text, 0)
  }

  /** Every label below `node` is non-empty and, being a visible text, free of terminators. */
  predicate LabelsOk(node: Node) {
    forall c :: c in node.children ==> |c.text| > 0 && NulFree(c.text) && LabelsOk(c)
  }

  /** Sibling labels start with pairwise different code units, at every level. */
  predicate Distinct(node: Node) {
    && (forall i, j :: 0 <= i < j < |node.children| ==> Head(node.children[i]) != Head(node.children[j]))
    && (forall c :: c in node.children ==> Distinct(c))
  }

  /** What every insertion of a non-empty key keeps. */
  predicate Invariant(node: Node) {
    LabelsOk(node) && Distinct(node)
  }

  /**
    The child scan of createNode and both lookups: the index of the first
    child whose label starts with `c`, or |children| when there is none.
   */
  function FirstMatch(children: seq<Node>, c: CodeUnit): (i: nat)
    ensures i <= |children|
    ensures forall k :: 0 <= k < i ==> Head(children[k]) != c
    ensures i < |children| ==> Head(children[i]) == c
  {
    if |children| == 0 then 0
    else if Head(children[0]) == c then 0
    else 1 + FirstMatch(children[1..], c)
  }

  /**
    Where the character comparison of createNode and of the lookups stops:
    the length of the longest common prefix of two terminator-free strings.
   */
  function Lcp(a: Key, b: Key): (p: nat)
    ensures p <= |a| && p <= |b|
    ensures a[..p] == b[..p]
    ensures p < |a| && p < |b| ==> a[p] != b[p]
  {
    if |a| == 0 || |b| == 0 || a[0] != b[0] then 0 else 1 + Lcp(a[1..], b[1..])
  }

  /** splitNode(node, pos): keep label[0..pos) with value 0; one child carries the rest, the old value and the old children. */
  function SplitNode(node: Node, pos: nat): (r: Node)
    requires 0 < pos < |node.text|
    ensures |r.children| == 1 && r.text + r.children[0].text == node.text
    ensures r.text != [] && r.children[0].text != []
    ensures r.value == 0 && r.children[0].value == node.value && r.children[0].children == node.children
  {
    Node(node.text[..pos], 0, [Node(node.text[pos..], node.value, node.children)])
  }

  /** addNode(node, key): append a leaf labelled `key` with value 0. */
  function AddNode(node: Node, key: Key): (r: Node)
    ensures r.text == node.text && r.value == node.value
    ensures |r.children| == |node.children| + 1 && r.children[..|node.children|] == node.children
    ensures r.children[|node.children|] == Node(key, 0, [])
  {
    node.(children := node.children + [Node(key, 0, [])])
  }

  /** Writing `v` into the leaf addNode returned (childNodes.back()). */
  function WithLastValue(node: Node, v: int): Node
    requires |node.children| > 0
  {
    var last := |node.children| - 1;
    node.(children := node.children[last := node.children[last].(value := v)])
  }

  /**
    insert(key, v) below `node`: createNode followed by writing `v` into the
    node it returns. The first child whose label starts like `key` is
    compared with it up to the first difference `j`; then the key matches
    exactly, ends inside the label (split), runs past the label (descend) or
    diverges from it (split, then add a leaf). Without such a child a leaf is
    appended.
   */
  function CreateNode(node: Node, key: Key, v: int): (r: Node)
    requires |key| > 0 && NulFree(key)
    ensures r.text == node.text && r.value == node.value
    ensures |r.children| == |node.children| || |r.children| == |node.children| + 1
    ensures |r.children| > 0
    decreases node
  {
    var i := FirstMatch(node.children, key[0]);
    if i == |node.children| then
      WithLastValue(AddNode(node, key), v)
    else
      var n := node.children[i];
      var j := Lcp(n.text, key);
      var n' :=
        if j == |key| && j == |n.text| then n.(value := v)
        else if j == |key| then SplitNode(n, j).(value := v)
        else if j == |n.text| then CreateNode(n, key[j..], v)
        else WithLastValue(AddNode(SplitNode(n, j), key[j..]), v);
      node.(children := node.children[i := n'])
  }

  // ---------------------------------------------------------------------
  // The partner specification: what a key maps to.

  /**
    The value stored for `key` below `node`: Some(value) of the node whose
    labels along the path spell `key` exactly, None when no node spells it.
   */
  function Stored(node: Node, key: Key): Option<int>
    requires NulFree(key)
    decreases node, 0
  {
    if key == [] then Some(node.value)
    else
      var i := FirstMatch(node.children, key[0]);
      if i == |node.children| then None else StoredFrom(node.children[i], key)
  }

  /** As Stored, for a key that must first run through the label of `c`. */
  function StoredFrom(c: Node, key: Key): Option<int>
    requires NulFree(key)
    decreases c, 1
  {
    if c.text <= key then Stored(c, key[|c.text|..]) else None
  }

  /**
    How one insertion changes what a key maps to: the inserted key gets `v`,
    every key that was stored keeps its value, and a key that was not stored
    is at most turned into an unset (0) branch point.
   */
  predicate Updated(before: Option<int>, after: Option<int>, hit: bool, v: int) {
    if hit then after == Some(v)
    else if before.Some? then after == before
    else after == None || after == Some(0)
  }

  // ---------------------------------------------------------------------
  // The two lookups.

  /** `r` is `node` itself or a node somewhere below it. */
  predicate Within(node: Node, r: Node)
    decreases node
  {
    r == node || exists c :: c in node.children && Within(c, r)
  }

  /** findNodeMatch: the recursive lookup; the returned node's value is the answer. It is the start node or a node below it. */
  function FindNodeMatch(node: Node, key: Key): (r: Node)
    ensures Within(node, r)
  {
    var i := FirstMatch(node.children, At(key, 0));
    if i == |node.children| then node
    else
      var n := node.children[i];
      var p := Lcp(n.text, key);
      if p < |n.text| then node
      else if |n.children| > 0 then FindNodeMatch(n, key[p..])
      else assert Within(n, n); n
  }

  /**
    The outcome of findNodeMatchIterative: the node it returns, or the node
    whose children it scanned to the end; the source then reads
    `childNodes[size]`, past the end of the vector.
   */
  datatype Match = Found(node: Node) | RanPastChildren(node: Node)

  /** What findNodeMatchIterative computes, stated without its loop. */
  function FindIter(node: Node, key: Key): Match
  {
    var i := FirstMatch(node.children, At(key, 0));
    if i == |node.children| then RanPastChildren(node)
    else
      var n := node.children[i];
      var p := Lcp(n.text, key);
      if p < |n.text| then Found(node)
      else if p < |key| && |n.children| > 0 then FindIter(n, key[p..])
      else Found(n)
  }

  /**
    findNodeMatchIterative has reached `current` at `offset` on its way from
    `root` to the answer for `key`.
   */
  ghost predicate Walking(root: Node, key: Key, current: Node, offset: int) {
    && NulFree(key) && LabelsOk(root) && 0 <= offset <= |key| && LabelsOk(current)
    && FindIter(root, key) == FindIter(current, key[offset..])
  }

  /** Descending into child i keeps the walk on its way. */
  lemma WalkDown(root: Node, key: Key, current: Node, offset: int, next: Node, nextOffset: int)
    requires Walking(root, key, current, offset) && next in current.children
    requires nextOffset <= |key| && offset <= nextOffset && LabelsOk(next)
    requires FindIter(current, key[offset..]) == FindIter(next, key[nextOffset..])
    ensures Walking(root, key, next, nextOffset) && next < current
  {
  }

  /** findNodeMatchIterative: the while(true) loop over (i, offset, currentNode). */
  method FindNodeMatchIterative(root: Node, key: Key) returns (r: Match)
    requires NulFree(key) && LabelsOk(root)
    ensures r == FindIter(root, key)
  {
    var i := 0;
    var offset := 0;
    var current := root;
    assert key[offset..] == key;
    while true
      invariant Walking(root, key, current, offset)
      invariant 0 <= i <= FirstMatch(current.children, At(key, offset))
      decreases current, |current.children| - i
    {
      if i == |current.children| {
        // childNodes[i] would be read out of range here
        FindIterNoMatch(current, key, offset);
        return RanPastChildren(current);
      }
      if At(current.children[i].text, 0) != At(key, offset) {
        FirstMatchPast(current.children, At(key, offset), i);
        i := i + 1;
      } else {
        var descend, m, next, nextOffset := MatchChild(root, key, current, offset, i);
        if !descend {
          return m;
        }
        offset, current, i := nextOffset, next, 0;
      }
    }
  }

  /**
    The body of findNodeMatchIterative's loop once child i of `node` starts
    like the rest of the key: the comparison runs to the first difference,
    then the lookup ends at `node`, descends into the child, or ends at it.
   */
  method MatchChild(root: Node, key: Key, node: Node, offset: nat, i: nat)
      returns (descend: bool, m: Match, next: Node, nextOffset: nat)
    requires Walking(root, key, node, offset)
    requires i < |node.children| && Head(node.children[i]) == At(key, offset)
    requires i <= FirstMatch(node.children, At(key, offset))
    ensures !descend ==> m == FindIter(root, key)
    ensures descend ==> Walking(root, key, next, nextOffset) && next < node
  {
    var n := node.children[i];
    assert n in node.children;
    var curPos := CommonLength(n.text, key, offset);
    FindIterStep(node, key, offset, i, curPos);
    descend, next, nextOffset := false, n, offset + curPos;
    if At(n.text, curPos) != Nul {
      m := Found(node);
    } else if At(key, curPos + offset) != Nul && |n.children| > 0 {
      assert LabelsOk(next);
      assert nextOffset <= |key|;
      assert FindIter(node, key[offset..]) == FindIter(next, key[nextOffset..]);
      WalkDown(root, key, node, offset, next, nextOffset);
      descend, m := true, Found(n);
    } else {
      m := Found(n);
    }
  }

  /** The inner comparison loop of findNodeMatchIterative, once the first code units agree. */
  method CommonLength(text: Key, key: Key, offset: nat) returns (curPos: nat)
    requires NulFree(text) && NulFree(key) && offset <= |key|
    requires |text| > 0 && At(text, 0) == At(key, offset)
    ensures curPos == Lcp(text, key[offset..])
    ensures curPos <= |text| && offset + curPos <= |key|
  {
    curPos := 1;
    while At(key, curPos + offset) != Nul && At(text, curPos) == At(key, curPos + offset)
      invariant 1 <= curPos <= |text| && curPos + offset <= |key|
      invariant text[..curPos] == key[offset..offset + curPos]
      decreases |text| - curPos
    {
      curPos := curPos + 1;
    }
    LcpIs(text, key[offset..], curPos);
  }

  /** A scan that found no child: the iterative lookup ends at `node`. */
  lemma FindIterNoMatch(node: Node, key: Key, offset: nat)
    requires NulFree(key) && LabelsOk(node) && offset <= |key|
    requires FirstMatch(node.children, At(key, offset)) == |node.children|
    ensures FindIter(node, key[offset..]) == RanPastChildren(node)
  {
    assert At(key[offset..], 0) == At(key, offset);
  }

  /** One round of the outer loop of findNodeMatchIterative, stated on FindIter. */
  lemma FindIterStep(node: Node, key: Key, offset: nat, i: nat, p: nat)
    requires NulFree(key) && LabelsOk(node) && offset <= |key|
    requires i < |node.children| && Head(node.children[i]) == At(key, offset)
    requires i <= FirstMatch(node.children, At(key, offset))
    requires p == Lcp(node.children[i].text, key[offset..])
    ensures p <= |node.children[i].text| && offset + p <= |key|
    ensures At(node.children[i].text, p) != Nul ==> FindIter(node, key[offset..]) == Found(node)
    ensures At(node.children[i].text, p) == Nul && At(key, p + offset) != Nul && |node.children[i].children| > 0 ==>
      FindIter(node, key[offset..]) == FindIter(node.children[i], key[offset + p..])
    ensures At(node.children[i].text, p) == Nul && !(At(key, p + offset) != Nul && |node.children[i].children| > 0) ==>
      FindIter(node, key[offset..]) == Found(node.children[i])
  {
    var n := node.children[i];
    assert n in node.children;
    assert At(key[offset..], 0) == At(key, offset);
    FirstMatchIs(node.children, At(key[offset..], 0), i);
    assert key[offset..][p..] == key[offset + p..];
  }

  /** A child whose head does not match is passed over. */
  lemma FirstMatchPast(children: seq<Node>, c: CodeUnit, i: nat)
    requires i < |children| && i <= FirstMatch(children, c) && At(children[i].text, 0) != c
    ensures i + 1 <= FirstMatch(children, c)
  {
  }

  /** FirstMatch is the first index whose head matches. */
  lemma FirstMatchIs(children: seq<Node>, c: CodeUnit, i: nat)
    requires i < |children| && Head(children[i]) == c
    requires forall k :: 0 <= k < i ==> Head(children[k]) != c
    ensures FirstMatch(children, c) == i
  {
  }

  /** Lcp is where the comparison loop stops. */
  lemma LcpIs(a: Key, b: Key, p: nat)
    requires p <= |a| && p <= |b| && a[..p] == b[..p]
    requires p < |a| && p < |b| ==> a[p] != b[p]
    ensures Lcp(a, b) == p
  {
  }

  /** A KRadix2 object: its root node, updated in place by insert. */
  class Radix2 {
    var root: Node

    ghost predicate Valid()
      reads this
    {
      Invariant(root) && root.text == [] && root.value == 0
    }

    constructor ()
      ensures Valid() && root == EmptyTrie
    {
      root := EmptyTrie;
    }

    /** insert(key, value); the key is taken as KStringUnicode(key) sees it. */
    method Insert(key: seq<CodeUnit>, value: int)
      requires Valid() && |Visible(key)| > 0
      modifies this
      ensures Valid()
      ensures root == CreateNode(old(root), Visible(key), value)
      ensures Stored(root, Visible(key)) == Some(value)
    {
      InsertKeepsInvariant(root, Visible(key), value);
      InsertStored(root, Visible(key), value, Visible(key));
      root := CreateNode(root, Visible(key), value);
    }

    /**
      value(key): the value of the node findNodeMatchIterative returns; None
      where the source reads past the children of a node.
     */
    method Value(key: seq<CodeUnit>) returns (r: Option<int>)
      requires Valid()
      ensures r == (match FindIter(root, Visible(key))
                    case Found(n) => Some(n.value)
                    case RanPastChildren(_) => None)
    {
      var m := FindNodeMatchIterative(root, Visible(key));
      match m
      case Found(n) => r := Some(n.value);
      case RanPastChildren(_) => r := None;
    }
  }

  // ---------------------------------------------------------------------
  // Properties.

  /** Both lookups arrive at the same node for every key; the iterative one in range exactly when it reports Found. */
  lemma {:induction false} LookupsAgree(node: Node, key: Key)
    requires NulFree(key) && LabelsOk(node)
    ensures FindNodeMatch(node, key) == FindIter(node, key).node
  {
    var i := FirstMatch(node.children, At(key, 0));
    if i < |node.children| {
      var n := node.children[i];
      assert n in node.children;
      var p := Lcp(n.text, key);
      if p == |n.text| && |n.children| > 0 {
        if p < |key| {
          LookupsAgree(n, key[p..]);
        } else {
          NoChildMatchesNul(n.children);
          assert key[p..] == [];
        }
      }
    }
  }

  /** No non-empty, terminator-free label starts with the terminator. */
  lemma NoChildMatchesNul(children: seq<Node>)
    requires forall c :: c in children ==> |c.text| > 0 && NulFree(c.text)
    ensures FirstMatch(children, Nul) == |children|
  {
  }

  /** Replacing a child by one with the same first code unit leaves every child scan as it was. */
  lemma {:induction false} FirstMatchReplace(s: seq<Node>, i: nat, x: Node, c: CodeUnit)
    requires i < |s| && Head(x) == Head(s[i])
    ensures FirstMatch(s[i := x], c) == FirstMatch(s, c)
  {
    var t := s[i := x];
    var f := FirstMatch(s, c);
    forall k | 0 <= k < |s| ensures Head(t[k]) == Head(s[k]) { }
    if f < |s| {
      FirstMatchIs(t, c, f);
    }
  }

  /** Appending a child only matters to a scan that found nothing before. */
  lemma {:induction false} FirstMatchAppend(s: seq<Node>, x: Node, c: CodeUnit)
    ensures FirstMatch(s + [x], c) ==
      if FirstMatch(s, c) < |s| then FirstMatch(s, c)
      else if Head(x) == c then |s| else |s| + 1
  {
    var f := FirstMatch(s, c);
    var t := s + [x];
    if f < |s| {
      FirstMatchIs(t, c, f);
    } else if Head(x) == c {
      FirstMatchIs(t, c, |s|);
    }
  }

  /** What a key maps to depends on a node's value and children, not on its own label. */
  lemma StoredIgnoresLabel(a: Node, b: Node, key: Key)
    requires NulFree(key)
    requires a.value == b.value && a.children == b.children
    ensures Stored(a, key) == Stored(b, key)
  {
  }

  /** Writing a node's value changes only the key that ends at that node. */
  lemma SetValueStored(m: Node, v: int, key: Key)
    requires NulFree(key)
    ensures StoredFrom(m.(value := v), key) == if key == m.text then Some(v) else StoredFrom(m, key)
  {
    if m.text <= key {
      var rest := key[|m.text|..];
      if rest != [] {
        assert key != m.text;
        StoredIgnoresLabel(m.(value := v, text := m.text), m.(value := v), rest);
      } else {
        assert key == m.text;
      }
    }
  }

  /** Splitting a node keeps what every key maps to; only the split point appears, unset. */
  lemma SplitNodeStored(n: Node, pos: nat, key: Key)
    requires 0 < pos < |n.text| && NulFree(key)
    ensures StoredFrom(SplitNode(n, pos), key) ==
      if key == n.text[..pos] then Some(0) else StoredFrom(n, key)
  {
    var L := n.text;
    var s := SplitNode(n, pos);
    var t := s.children[0];
    if L[..pos] <= key {
      var rest := key[pos..];
      if rest == [] {
        assert key == L[..pos];
      } else {
        assert key != L[..pos];
        assert Head(t) == L[pos];
        if Head(t) == rest[0] {
          FirstMatchIs(s.children, rest[0], 0);
          assert StoredFrom(s, key) == StoredFrom(t, rest);
          if L <= key {
            assert t.text <= rest;
            assert rest[|t.text|..] == key[|L|..];
            StoredIgnoresLabel(t, n, key[|L|..]);
          }
        } else {
          assert FirstMatch(s.children, rest[0]) == 1;
        }
      }
    }
  }

  /** A new leaf under `m` makes exactly its own key map to `v`. */
  lemma AddLeafStored(m: Node, s: Key, v: int, key: Key)
    requires |s| > 0 && NulFree(s) && NulFree(key)
    requires FirstMatch(m.children, s[0]) == |m.children|
    ensures Stored(WithLastValue(AddNode(m, s), v), key) == if key == s then Some(v) else Stored(m, key)
  {
    var leaf := Node(s, v, []);
    var m' := WithLastValue(AddNode(m, s), v);
    assert m'.children == m.children + [leaf];
    if key != [] {
      FirstMatchAppend(m.children, leaf, key[0]);
      var f := FirstMatch(m.children, key[0]);
      if f < |m.children| {
        assert key[0] != s[0];
        assert m'.children[f] == m.children[f];
        assert Stored(m', key) == StoredFrom(m.children[f], key) == Stored(m, key);
      } else if key[0] == s[0] {
        assert Stored(m', key) == StoredFrom(leaf, key);
        LeafStored(leaf, key);
      } else {
        assert Stored(m', key) == None == Stored(m, key);
      }
    }
  }

  /** A leaf holds exactly its own key. */
  lemma LeafStored(leaf: Node, key: Key)
    requires leaf.children == [] && NulFree(key)
    ensures StoredFrom(leaf, key) == if key == leaf.text then Some(leaf.value) else None
  {
    if leaf.text <= key && key != leaf.text {
      assert key[|leaf.text|..] != [];
    }
  }


  /** The heart of the insertion proof, at the level of one child and its replacement. */
  lemma {:induction false} InsertChildStored(n: Node, key: Key, v: int, k2: Key)
    requires |key| > 0 && NulFree(key) && NulFree(k2)
    requires Head(n) == key[0]
    ensures var j := Lcp(n.text, key);
      var n' :=
        if j == |key| && j == |n.text| then n.(value := v)
        else if j == |key| then SplitNode(n, j).(value := v)
        else if j == |n.text| then CreateNode(n, key[j..], v)
        else WithLastValue(AddNode(SplitNode(n, j), key[j..]), v);
      Head(n') == Head(n) && Updated(StoredFrom(n, k2), StoredFrom(n', k2), k2 == key, v)
    decreases n, 2
  {
    var L := n.text;
    assert |L| > 0 && L[0] == key[0];
    var j := Lcp(L, key);
    assert j >= 1;
    if j == |key| && j == |L| {
      assert L == key;
      SetValueStored(n, v, k2);
    } else if j == |key| {
      SplitChildStored(n, key, v, k2, j);
    } else if j == |L| {
      assert L <= key;
      DescendChildStored(n, key, v, k2, j);
    } else {
      DivergeChildStored(n, key, v, k2, j);
    }
  }

  /** The key runs past the child's label: the insertion continues below the child. */
  lemma {:induction false} DescendChildStored(n: Node, key: Key, v: int, k2: Key, j: nat)
    requires NulFree(key) && NulFree(k2)
    requires 0 < j == |n.text| < |key| && n.text <= key
    ensures var n' := CreateNode(n, key[j..], v);
      Head(n') == Head(n) && Updated(StoredFrom(n, k2), StoredFrom(n', k2), k2 == key, v)
    decreases n, 1
  {
    var L := n.text;
    if L <= k2 {
      InsertStored(n, key[j..], v, k2[|L|..]);
      assert k2 == key <==> k2[|L|..] == key[j..] by {
        if k2[|L|..] == key[j..] {
          assert k2 == k2[..|L|] + k2[|L|..] && key == key[..j] + key[j..];
        }
      }
    } else {
      assert k2 != key;
    }
  }

  /** The key ends inside the child's label: the split point takes the value. */
  lemma SplitChildStored(n: Node, key: Key, v: int, k2: Key, j: nat)
    requires NulFree(key) && NulFree(k2)
    requires 0 < j == |key| < |n.text| && j == Lcp(n.text, key)
    ensures var n' := SplitNode(n, j).(value := v);
      Head(n') == Head(n) && Updated(StoredFrom(n, k2), StoredFrom(n', k2), k2 == key, v)
  {
    assert key == n.text[..j];
    SetValueStored(SplitNode(n, j), v, k2);
    SplitNodeStored(n, j, k2);
  }

  /** Two keys that share their first j code units are equal exactly when what follows is. */
  lemma SameAfterCommonPrefix(a: Key, b: Key, j: nat)
    requires j <= |a| && j <= |b| && a[..j] == b[..j]
    ensures a == b <==> a[j..] == b[j..]
  {
    if a[j..] == b[j..] {
      assert a == a[..j] + a[j..] && b == b[..j] + b[j..];
    }
  }

  /** The key leaves the child's label inside it: a split, then a new leaf for the rest of the key. */
  lemma DivergeChildStored(n: Node, key: Key, v: int, k2: Key, j: nat)
    requires NulFree(key) && NulFree(k2)
    requires 0 < j < |key| && j < |n.text| && j == Lcp(n.text, key)
    ensures var n' := WithLastValue(AddNode(SplitNode(n, j), key[j..]), v);
      Head(n') == Head(n) && Updated(StoredFrom(n, k2), StoredFrom(n', k2), k2 == key, v)
  {
    var L := n.text;
    var s := SplitNode(n, j);
    var n' := WithLastValue(AddNode(s, key[j..]), v);
    assert L[j] != key[j];
    assert FirstMatch(s.children, key[j..][0]) == 1;
    assert n'.text == L[..j] == key[..j];
    if L[..j] <= k2 {
      var rest := k2[j..];
      AddLeafStored(s, key[j..], v, rest);
      SplitNodeStored(n, j, k2);
      assert StoredFrom(n', k2) == Stored(n', rest);
      assert StoredFrom(s, k2) == Stored(s, rest);
      SameAfterCommonPrefix(k2, key, j);
      if k2 == L[..j] {
        assert !(L <= k2);
      }
    } else {
      assert k2 != key;
    }
  }

  /**
    Insertion is a map update: the key gets `v`, other stored keys keep
    their values, and at most one new (unset) branch point appears.
   */
  lemma {:induction false} InsertStored(t: Node, key: Key, v: int, k2: Key)
    requires |key| > 0 && NulFree(key) && NulFree(k2)
    ensures Updated(Stored(t, k2), Stored(CreateNode(t, key, v), k2), k2 == key, v)
    decreases t, 0
  {
    var r := CreateNode(t, key, v);
    var i := FirstMatch(t.children, key[0]);
    if i == |t.children| {
      AddLeafStored(t, key, v, k2);
    } else if k2 != [] {
      var n := t.children[i];
      InsertChildStored(n, key, v, k2);
      var n' := r.children[i];
      assert r.children == t.children[i := n'];
      FirstMatchReplace(t.children, i, n', k2[0]);
      var i2 := FirstMatch(t.children, k2[0]);
      if i2 != i {
        assert k2 != key;
        if i2 < |t.children| {
          assert r.children[i2] == t.children[i2];
        }
      }
    }
  }

  /** Insertion of a non-empty key keeps the trie invariant. */
  lemma {:induction false} InsertKeepsInvariant(t: Node, key: Key, v: int)
    requires Invariant(t) && |key| > 0 && NulFree(key)
    ensures Invariant(CreateNode(t, key, v))
    decreases t
  {
    var i := FirstMatch(t.children, key[0]);
    if i == |t.children| {
      AddLeafKeepsInvariant(t, key, v);
    } else {
      var n := t.children[i];
      assert n in t.children;
      var L := n.text;
      var j := Lcp(L, key);
      var n' := CreateNode(t, key, v).children[i];
      InsertChildStored(n, key, v, key);
      if j == |key| && j == |L| {
        SameChildrenKeepInvariant(n, n');
      } else if j == |key| {
        SplitKeepsInvariant(n, j);
        SameChildrenKeepInvariant(SplitNode(n, j), n');
      } else if j == |L| {
        InsertKeepsInvariant(n, key[j..], v);
      } else {
        SplitKeepsInvariant(n, j);
        assert FirstMatch(SplitNode(n, j).children, key[j..][0]) == 1;
        AddLeafKeepsInvariant(SplitNode(n, j), key[j..], v);
      }
      assert |n'.text| > 0 && NulFree(n'.text);
      ReplaceChildKeepsInvariant(t, i, n');
    }
  }

  /** The invariant only looks below a node. */
  lemma SameChildrenKeepInvariant(a: Node, b: Node)
    requires Invariant(a) && a.children == b.children
    ensures Invariant(b)
  {
  }

  /** splitNode keeps the invariant and the first code unit of the label. */
  lemma SplitKeepsInvariant(n: Node, pos: nat)
    requires Invariant(n) && 0 < pos < |n.text| && NulFree(n.text)
    ensures Invariant(SplitNode(n, pos)) && Head(SplitNode(n, pos)) == Head(n)
  {
    var tail := SplitNode(n, pos).children[0];
    SameChildrenKeepInvariant(n, tail);
  }

  /** A leaf whose key starts unlike every sibling keeps the invariant. */
  lemma AddLeafKeepsInvariant(m: Node, s: Key, v: int)
    requires Invariant(m) && |s| > 0 && NulFree(s)
    requires FirstMatch(m.children, s[0]) == |m.children|
    ensures Invariant(WithLastValue(AddNode(m, s), v))
  {
    var leaf := Node(s, v, []);
    var r := WithLastValue(AddNode(m, s), v);
    assert r.children == m.children + [leaf];
    forall c | c in r.children ensures |c.text| > 0 && NulFree(c.text) && LabelsOk(c) && Distinct(c) {
      if c != leaf { assert c in m.children; }
    }
    forall a, b | 0 <= a < b < |r.children| ensures Head(r.children[a]) != Head(r.children[b]) {
      if b == |m.children| { assert Head(r.children[a]) != s[0]; }
    }
  }

  /** Replacing a child by one with the same first code unit that keeps the invariant. */
  lemma ReplaceChildKeepsInvariant(t: Node, i: nat, x: Node)
    requires Invariant(t) && i < |t.children|
    requires Invariant(x) && |x.text| > 0 && NulFree(x.text) && Head(x) == Head(t.children[i])
    ensures Invariant(t.(children := t.children[i := x]))
  {
    var r := t.(children := t.children[i := x]);
    forall c | c in r.children ensures |c.text| > 0 && NulFree(c.text) && LabelsOk(c) && Distinct(c) {
      var k :| 0 <= k < |r.children| && r.children[k] == c;
      if k != i { assert c in t.children; }
    }
    forall a, b | 0 <= a < b < |r.children| ensures Head(r.children[a]) != Head(r.children[b]) {
      assert Head(r.children[a]) == Head(t.children[a]);
      assert Head(r.children[b]) == Head(t.children[b]);
    }
  }

  /** A stored non-empty key leads both lookups to the node that stores it. */
  lemma {:induction false} StoredIsFound(t: Node, key: Key)
    requires LabelsOk(t) && NulFree(key) && |key| > 0 && Stored(t, key).Some?
    ensures FindIter(t, key).Found?
    ensures FindIter(t, key).node.value == Stored(t, key).value
    ensures FindNodeMatch(t, key).value == Stored(t, key).value
  {
    var i := FirstMatch(t.children, key[0]);
    assert i < |t.children|;
    var n := t.children[i];
    assert n in t.children;
    var L := n.text;
    assert Stored(t, key) == StoredFrom(n, key);
    assert L <= key;
    var rest := key[|L|..];
    assert Stored(t, key) == Stored(n, rest);
    LcpIs(L, key, |L|);
    assert At(key, 0) == key[0];
    if |L| < |key| {
      assert FirstMatch(n.children, rest[0]) < |n.children|;
      StoredIsFound(n, rest);
      assert FindIter(t, key) == FindIter(n, rest);
    } else {
      assert rest == [];
      assert FindIter(t, key) == Found(n);
    }
    LookupsAgree(t, key);
  }

  /** Round trip: after insert(k, v), value(k) is v, by either lookup. */
  lemma InsertThenValue(t: Node, key: Key, v: int)
    requires Invariant(t) && |key| > 0 && NulFree(key)
    ensures Invariant(CreateNode(t, key, v))
    ensures FindIter(CreateNode(t, key, v), key).Found?
    ensures FindIter(CreateNode(t, key, v), key).node.value == v
    ensures FindNodeMatch(CreateNode(t, key, v), key).value == v
  {
    InsertKeepsInvariant(t, key, v);
    InsertStored(t, key, v, key);
    StoredIsFound(CreateNode(t, key, v), key);
  }

  /** insert applied to a sequence of (key, value) pairs in order. */
  function InsertAll(t: Node, entries: seq<(Key, int)>): Node
    requires forall e :: e in entries ==> |e.0| > 0 && NulFree(e.0)
    decreases |entries|
  {
    if entries == [] then t else InsertAll(CreateNode(t, entries[0].0, entries[0].1), entries[1..])
  }

  /** Later inserts of other keys leave a stored key's value alone, so value(k) still finds it. */
  lemma {:induction false} OtherInsertsKeepValue(t: Node, key: Key, v: int, entries: seq<(Key, int)>)
    requires Invariant(t) && |key| > 0 && NulFree(key) && Stored(t, key) == Some(v)
    requires forall e :: e in entries ==> |e.0| > 0 && NulFree(e.0) && e.0 != key
    ensures Invariant(InsertAll(t, entries)) && Stored(InsertAll(t, entries), key) == Some(v)
    ensures FindIter(InsertAll(t, entries), key).Found?
    ensures FindIter(InsertAll(t, entries), key).node.value == v
    decreases |entries|
  {
    if entries == [] {
      StoredIsFound(t, key);
    } else {
      var e := entries[0];
      assert e in entries;
      InsertStored(t, e.0, e.1, key);
      InsertKeepsInvariant(t, e.0, e.1);
      assert forall x :: x in entries[1..] ==> x in entries;
      OtherInsertsKeepValue(CreateNode(t, e.0, e.1), key, v, entries[1..]);
    }
  }

  /** Two tries with the same labels in the same places: only values may differ. */
  predicate SameShape(a: Node, b: Node) {
    && a.text == b.text
    && |a.children| == |b.children|
    && forall i :: 0 <= i < |a.children| ==> SameShape(a.children[i], b.children[i])
  }

  lemma {:induction false} SameShapeRefl(a: Node)
    ensures SameShape(a, a)
  {
    forall i | 0 <= i < |a.children| ensures SameShape(a.children[i], a.children[i]) {
      SameShapeRefl(a.children[i]);
    }
  }

  /** Re-inserting a stored key only overwrites its value: no node is added or split. */
  lemma {:induction false} ReinsertKeepsShape(t: Node, key: Key, v: int)
    requires |key| > 0 && NulFree(key) && Stored(t, key).Some?
    ensures SameShape(CreateNode(t, key, v), t)
  {
    var r := CreateNode(t, key, v);
    var i := FirstMatch(t.children, key[0]);
    assert i < |t.children|;
    var n := t.children[i];
    var L := n.text;
    assert Stored(t, key) == StoredFrom(n, key);
    assert L <= key;
    assert Stored(t, key) == Stored(n, key[|L|..]);
    LcpIs(L, key, |L|);
    var n' := r.children[i];
    if |L| == |key| {
      SameShapeRefl(n);
      assert SameShape(n', n) by {
        forall k | 0 <= k < |n.children| ensures SameShape(n'.children[k], n.children[k]) { }
      }
    } else {
      var rest := key[|L|..];
      assert FirstMatch(n.children, rest[0]) < |n.children|;
      ReinsertKeepsShape(n, rest, v);
    }
    forall k | 0 <= k < |t.children| ensures SameShape(r.children[k], t.children[k]) {
      if k != i { SameShapeRefl(t.children[k]); }
    }
  }

  // ---------------------------------------------------------------------
  // Scenarios. Keys spelled as UTF-16 code units: t=116 e=101 s=115 i=105
  // n=110 g=103 a=97 m=109 b=98 c=99 d=100 x=120 y=121 1=49 2=50 3=51 4=52 5=53.

  const Testing: Key := [116, 101, 115, 116, 105, 110, 103]
  const Test: Key := [116, 101, 115, 116]
  const Team: Key := [116, 101, 97, 109]

  const Ing: Key := [105, 110, 103]
  /** The trie after "testing"->1 and then "test"->2. */
  const PrefixTrie: Node := Node([], 0, [Node(Test, 2, [Node(Ing, 1, [])])])

  /** "testing"->1 then "test"->2: the split node holds 2, its tail "ing" keeps 1. */
  lemma PrefixScenario()
    ensures CreateNode(CreateNode(EmptyTrie, Testing, 1), Test, 2) == PrefixTrie
  {
    var t1 := CreateNode(EmptyTrie, Testing, 1);
    assert t1 == Node([], 0, [Node(Testing, 1, [])]);
    PrefixSecondInsert();
  }

  lemma PrefixSecondInsert()
    ensures CreateNode(Node([], 0, [Node(Testing, 1, [])]), Test, 2) == PrefixTrie
  {
    var n := Node(Testing, 1, []);
    assert FirstMatch([n], 116) == 0;
    LcpIs(Testing, Test, 4);
    assert Testing[..4] == Test && Testing[4..] == Ing;
    assert SplitNode(n, 4) == Node(Test, 0, [Node(Ing, 1, [])]);
  }

  lemma PrefixTrieOk()
    ensures LabelsOk(PrefixTrie)
  {
    var top := PrefixTrie.children[0];
    assert top.children == [Node(Ing, 1, [])];
    assert NulFree(Ing) && NulFree(Test);
    assert LabelsOk(top);
  }

  /** Both keys of the prefix scenario are found with their own values, by either lookup. */
  lemma PrefixLookups()
    ensures FindIter(PrefixTrie, Testing) == Found(Node(Ing, 1, []))
    ensures FindIter(PrefixTrie, Test) == Found(PrefixTrie.children[0])
    ensures FindNodeMatch(PrefixTrie, Testing).value == 1 && FindNodeMatch(PrefixTrie, Test).value == 2
  {
    var top := PrefixTrie.children[0];
    assert FirstMatch(PrefixTrie.children, 116) == 0;
    LcpIs(Test, Testing, 4);
    LcpIs(Test, Test, 4);
    assert Testing[4..] == Ing;
    assert FirstMatch(top.children, 105) == 0;
    LcpIs(Ing, Ing, 3);
    assert Ing[3..] == [];
    assert FindIter(top, Ing) == Found(Node(Ing, 1, []));
    PrefixTrieOk();
    LookupsAgree(PrefixTrie, Testing);
    LookupsAgree(PrefixTrie, Test);
  }

  /** "team"->1 then "test"->2: a branch "te" with value 0 over the old tail "am" and the new leaf "st". */
  lemma DivergenceScenario()
    ensures CreateNode(CreateNode(EmptyTrie, Team, 1), Test, 2) ==
      Node([], 0, [Node([116, 101], 0, [Node([97, 109], 1, []), Node([115, 116], 2, [])])])
  {
    var n := Node(Team, 1, []);
    assert CreateNode(EmptyTrie, Team, 1) == Node([], 0, [n]);
    assert FirstMatch([n], 116) == 0;
    LcpIs(Team, Test, 2);
    assert Team[..2] == [116, 101] && Team[2..] == [97, 109] && Test[2..] == [115, 116];
    var split := SplitNode(n, 2);
    assert split == Node([116, 101], 0, [Node([97, 109], 1, [])]);
    assert FirstMatch(split.children, 115) == 1;
    assert WithLastValue(AddNode(split, [115, 116]), 2) ==
      Node([116, 101], 0, [Node([97, 109], 1, []), Node([115, 116], 2, [])]);
    assert CreateNode(Node([], 0, [n]), Test, 2) ==
      Node([], 0, [Node([116, 101], 0, [Node([97, 109], 1, []), Node([115, 116], 2, [])])]);
  }

  const Test123: Key := [116, 101, 115, 116, 49, 50, 51]
  const Test345: Key := [116, 101, 115, 116, 51, 52, 53]
  /** The trie after "test123"->1 and "test345"->2. */
  const BranchTrie: Node := Node([], 0, [Node(Test, 0, [Node([49, 50, 51], 1, []), Node([51, 52, 53], 2, [])])])

  /** "test123"->1 then "test345"->2: a branch "test" with value 0 over the tails "123" and "345". */
  lemma BranchScenario()
    ensures CreateNode(CreateNode(EmptyTrie, Test123, 1), Test345, 2) == BranchTrie
  {
    var n := Node(Test123, 1, []);
    assert CreateNode(EmptyTrie, Test123, 1) == Node([], 0, [n]);
    BranchSecondInsert();
  }

  lemma BranchSecondInsert()
    ensures CreateNode(Node([], 0, [Node(Test123, 1, [])]), Test345, 2) == BranchTrie
  {
    var n := Node(Test123, 1, []);
    assert FirstMatch([n], 116) == 0;
    LcpIs(Test123, Test345, 4);
    assert Test123[..4] == Test && Test123[4..] == [49, 50, 51] && Test345[4..] == [51, 52, 53];
    BranchSplit();
  }

  /** The split of "test123" at 4 gains the leaf "345" after its tail "123". */
  lemma BranchSplit()
    ensures WithLastValue(AddNode(SplitNode(Node(Test123, 1, []), 4), [51, 52, 53]), 2) == BranchTrie.children[0]
  {
    var n := Node(Test123, 1, []);
    assert Test123[..4] == Test && Test123[4..] == [49, 50, 51];
    var split := SplitNode(n, 4);
    assert split == Node(Test, 0, [Node([49, 50, 51], 1, [])]);
    assert FirstMatch(split.children, 51) == 1;
  }

  lemma BranchTrieOk()
    ensures LabelsOk(BranchTrie)
  {
    var top := BranchTrie.children[0];
    assert NulFree([49, 50, 51]) && NulFree([51, 52, 53]) && NulFree(Test);
    assert LabelsOk(top);
  }

  /** A key ending at a branch node finds that node's 0: "test" after "test123"->1 and "test345"->2. */
  lemma BranchNodeReadsZero()
    ensures FindIter(BranchTrie, Test) == Found(BranchTrie.children[0])
    ensures FindNodeMatch(BranchTrie, Test).value == 0
  {
    assert FirstMatch(BranchTrie.children, 116) == 0;
    LcpIs(Test, Test, 4);
    assert Test[4..] == [];
    BranchTrieOk();
    LookupsAgree(BranchTrie, Test);
  }

  /** A key running past a leaf finds the leaf: "abc" after "ab"->5 reads 5. */
  lemma PastLeafScenario()
    ensures CreateNode(EmptyTrie, [97, 98], 5) == Node([], 0, [Node([97, 98], 5, [])])
    ensures FindIter(Node([], 0, [Node([97, 98], 5, [])]), [97, 98, 99]) == Found(Node([97, 98], 5, []))
    ensures FindNodeMatch(Node([], 0, [Node([97, 98], 5, [])]), [97, 98, 99]).value == 5
  {
    assert FirstMatch([Node([97, 98], 5, [])], 97) == 0;
    LcpIs([97, 98], [97, 98, 99], 2);
  }

  /** The trie after "ab"->5, "abcd"->7, "abxy"->9. */
  const AbNode: Node := Node([97, 98], 5, [Node([99, 100], 7, []), Node([120, 121], 9, [])])

  lemma AbScenario()
    ensures CreateNode(CreateNode(CreateNode(EmptyTrie, [97, 98], 5), [97, 98, 99, 100], 7), [97, 98, 120, 121], 9)
      == Node([], 0, [AbNode])
  {
    var ab := Node([97, 98], 5, []);
    assert CreateNode(EmptyTrie, [97, 98], 5) == Node([], 0, [ab]);
    AbSecondInsert();
    AbThirdInsert();
  }

  lemma AbSecondInsert()
    ensures CreateNode(Node([], 0, [Node([97, 98], 5, [])]), [97, 98, 99, 100], 7)
      == Node([], 0, [Node([97, 98], 5, [Node([99, 100], 7, [])])])
  {
    var key: Key := [97, 98, 99, 100];
    assert FirstMatch([Node([97, 98], 5, [])], 97) == 0;
    LcpIs([97, 98], key, 2);
    assert key[2..] == [99, 100];
    assert CreateNode(Node([97, 98], 5, []), [99, 100], 7) == Node([97, 98], 5, [Node([99, 100], 7, [])]);
  }

  lemma AbThirdInsert()
    ensures CreateNode(Node([], 0, [Node([97, 98], 5, [Node([99, 100], 7, [])])]), [97, 98, 120, 121], 9)
      == Node([], 0, [AbNode])
  {
    var key: Key := [97, 98, 120, 121];
    var ab := Node([97, 98], 5, [Node([99, 100], 7, [])]);
    assert FirstMatch([ab], 97) == 0;
    LcpIs([97, 98], key, 2);
    assert key[2..] == [120, 121];
    assert FirstMatch(ab.children, 120) == 1;
    assert CreateNode(ab, [120, 121], 9) == AbNode;
  }

  lemma AbTrieOk()
    ensures LabelsOk(Node([], 0, [AbNode]))
  {
    assert NulFree([99, 100]) && NulFree([120, 121]) && NulFree([97, 98]);
    assert LabelsOk(AbNode);
  }

  /**
    A key diverging inside a child's label finds the parent: in the trie of
    "ab"->5, "abcd"->7, "abxy"->9 the key "abce" leaves "cd" after one code
    unit and reads the 5 of "ab".
   */
  lemma DivergeInsideLabelScenario()
    ensures FindIter(Node([], 0, [AbNode]), [97, 98, 99, 101]) == Found(AbNode)
    ensures FindNodeMatch(Node([], 0, [AbNode]), [97, 98, 99, 101]).value == 5
  {
    var key: Key := [97, 98, 99, 101];
    assert FirstMatch([AbNode], 97) == 0;
    LcpIs([97, 98], key, 2);
    assert key[2..] == [99, 101];
    assert FirstMatch(AbNode.children, 99) == 0;
    LcpIs([99, 100], [99, 101], 1);
    assert FindIter(AbNode, [99, 101]) == Found(AbNode);
    AbTrieOk();
    LookupsAgree(Node([], 0, [AbNode]), key);
  }

  /** The scans that run off the end of childNodes: any key on an empty trie, and a first code unit no child has. */
  lemma RanPastScenario()
    ensures FindIter(EmptyTrie, [97]) == RanPastChildren(EmptyTrie)
    ensures FindIter(EmptyTrie, []) == RanPastChildren(EmptyTrie)
    ensures FindIter(CreateNode(EmptyTrie, [97, 98], 5), [98]).RanPastChildren?
  {
  }
}
