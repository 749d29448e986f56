/** One B-tree node (`BTreeNode`): its sorted key list, its child list and
    the node-level operations insert, add_node, split and the inorder walk.

    A node is exclusively owned by its parent and has no back reference, so
    the model treats it as a value: each operation that updates a node in
    place returns the updated node. Every node carries the tree's fanout `m`;
    here the key capacity `k = m - 1` is passed where an operation needs it. */
module Nodes {
  import opened Keys

  datatype Node = Node(values: seq<int>, children: seq<Node>)
  {
    /** A node without children: no key of its subtree lies below it. */
    predicate IsLeaf(): (b: bool)
      ensures b ==> KeysOf(children) == multiset{}
    {
      |children| == 0
    }

    /** The node holds exactly `k` keys: it does not need rebalancing yet,
        and would with one key fewer allowed. */
    predicate IsFull(k: int): (b: bool)
      ensures b <==> !NeedsRebalancing(k) && NeedsRebalancing(k - 1)
    {
      |values| == k
    }

    /** The node holds more than `k` keys and has to be split; for a
        capacity of at least zero there is then a median to split at. */
    predicate NeedsRebalancing(k: int): (b: bool)
      ensures b && k >= 0 ==> |values| / 2 < |values|
    {
      |values| > k
    }
  }

  function Last(s: seq<int>): int
    requires s != []
  {
    s[|s| - 1]
  }

  function Min(a: int, b: int): int
  {
    if a <= b then a else b
  }

  // ---------------------------------------------------------------------
  // The keys held by a subtree

  /** Every key stored in the subtree, in every node, including children
      that the inorder walk never reaches. */
  function AllKeys(n: Node): multiset<int>
  {
    multiset(n.values) + KeysOf(n.children)
  }

  function KeysOf(cs: seq<Node>): multiset<int>
  {
    if cs == [] then multiset{} else AllKeys(cs[0]) + KeysOf(cs[1..])
  }

  /** Bookkeeping for a split: the child `c` is replaced by `left`, and the
      median `med` and the sibling's keys `right` are added back. */
  lemma MoveKeys(after: multiset<int>, before: multiset<int>, c: multiset<int>,
                 replaced: multiset<int>, left: multiset<int>, right: multiset<int>, med: multiset<int>)
    requires after == replaced + med + right
    requires replaced + c == before + left
    requires left + med + right == c
    ensures after == before
  {
    forall x ensures after[x] == before[x] {
      assert (replaced + c)[x] == (before + left)[x];
      assert (left + med + right)[x] == c[x];
    }
  }

  lemma {:induction false} KeysOfAppend(a: seq<Node>, b: seq<Node>)
    ensures KeysOf(a + b) == KeysOf(a) + KeysOf(b)
  {
    if a == [] {
      assert a + b == b;
    } else {
      assert (a + b)[1..] == a[1..] + b;
      KeysOfAppend(a[1..], b);
    }
  }

  lemma KeysOfSingle(c: Node)
    ensures KeysOf([c]) == AllKeys(c)
  {
    assert [c][1..] == [];
  }

  /** Every child's keys are among the keys of the list. */
  lemma {:induction false} KeysOfElement(cs: seq<Node>, i: nat)
    requires i < |cs|
    ensures AllKeys(cs[i]) <= KeysOf(cs)
  {
    if i > 0 {
      KeysOfElement(cs[1..], i - 1);
    }
  }

  /** Replacing one child changes the keys of the list by that child's keys. */
  lemma KeysOfUpdate(cs: seq<Node>, i: nat, c: Node)
    requires i < |cs|
    ensures KeysOf(cs[i := c]) + AllKeys(cs[i]) == KeysOf(cs) + AllKeys(c)
  {
    assert cs == cs[..i] + [cs[i]] + cs[i + 1..];
    assert cs[i := c] == cs[..i] + [c] + cs[i + 1..];
    KeysOfAppend(cs[..i] + [cs[i]], cs[i + 1..]);
    KeysOfAppend(cs[..i], [cs[i]]);
    KeysOfAppend(cs[..i] + [c], cs[i + 1..]);
    KeysOfAppend(cs[..i], [c]);
    KeysOfSingle(c);
    KeysOfSingle(cs[i]);
  }

  /** The same for a node whose child `i` is replaced. */
  lemma ReplaceChildKeys(n: Node, i: nat, c: Node)
    requires i < |n.children|
    ensures AllKeys(n.(children := n.children[i := c])) + AllKeys(n.children[i]) == AllKeys(n) + AllKeys(c)
  {
    var v, x, y := multiset(n.values), KeysOf(n.children[i := c]), KeysOf(n.children);
    KeysOfUpdate(n.children, i, c);
    forall e ensures (v + x + AllKeys(n.children[i]))[e] == (v + y + AllKeys(c))[e] {
      assert (x + AllKeys(n.children[i]))[e] == (y + AllKeys(c))[e];
    }
  }

  /** Inserting one child adds exactly that child's keys. */
  lemma KeysOfInsertAt(cs: seq<Node>, p: nat, c: Node)
    requires p <= |cs|
    ensures KeysOf(cs[..p] + [c] + cs[p..]) == KeysOf(cs) + AllKeys(c)
  {
    assert cs == cs[..p] + cs[p..];
    KeysOfAppend(cs[..p], cs[p..]);
    KeysOfAppend(cs[..p] + [c], cs[p..]);
    KeysOfAppend(cs[..p], [c]);
    KeysOfSingle(c);
  }

  // ---------------------------------------------------------------------
  // BTreeNode.insert

  /** `insert`: append the key, then sort the key list in place. */
  function InsertKey(n: Node, x: int): (r: Node)
    ensures Sorted(r.values)
    ensures multiset(r.values) == multiset(n.values) + multiset{x}
    ensures |r.values| == |n.values| + 1
    ensures r.children == n.children
  {
    n.(values := Sort(n.values + [x]))
  }

  /** `insert` adds exactly one key to the subtree. */
  lemma InsertKeyKeys(n: Node, x: int)
    ensures AllKeys(InsertKey(n, x)) == AllKeys(n) + multiset{x}
  {
    var r := InsertKey(n, x);
    forall e ensures AllKeys(r)[e] == (AllKeys(n) + multiset{x})[e] {
      assert multiset(r.values)[e] == (multiset(n.values) + multiset{x})[e];
    }
  }

  /** On an already sorted node, `insert` places the key before the first
      larger key and moves nothing else. */
  lemma InsertKeyPlacement(n: Node, x: int)
    requires Sorted(n.values)
    ensures InsertKey(n, x).values == Insort(n.values, x)
  {
    SortedPermutationUnique(InsertKey(n, x).values, Insort(n.values, x));
  }

  /** A full node that gains a key needs rebalancing; one below capacity
      does not. */
  lemma InsertKeyRebalancing(n: Node, x: int, k: int)
    ensures InsertKey(n, x).NeedsRebalancing(k) <==> |n.values| >= k
    ensures n.IsFull(k) ==> InsertKey(n, x).NeedsRebalancing(k)
  {
    assert |InsertKey(n, x).values| == |multiset(n.values) + multiset{x}| == |n.values| + 1;
  }

  // ---------------------------------------------------------------------
  // BTreeNode.add_node

  /** The index at which `add_node` puts `c`: at the end of a leaf's (empty)
      child list; otherwise the first key position whose key is not less than
      the last key of `c`, or `len(values)` if none is. Python's
      `list.insert` clamps an index past the end to the end. */
  function AddPosition(n: Node, c: Node): (p: nat)
    requires n.IsLeaf() || c.values != []
    ensures p <= |n.children|
    ensures n.IsLeaf() ==> p == 0
    ensures !n.IsLeaf() ==> p <= |n.values|
    ensures !n.IsLeaf() ==> forall j :: 0 <= j < p ==> j < |n.values| && n.values[j] < Last(c.values)
    ensures !n.IsLeaf() && p < |n.children| ==> p == |n.values| || Last(c.values) <= n.values[p]
  {
    if n.IsLeaf() then |n.children|
    else Min(FirstNotLess(n.values, Last(c.values)), |n.children|)
  }

  /** `add_node`: the child list grows by exactly `c`, at the scanned
      position; the other children keep their relative order. */
  function AddNode(n: Node, c: Node): (r: Node)
    requires n.IsLeaf() || c.values != []
    ensures r.values == n.values
    ensures |r.children| == |n.children| + 1
    ensures var p := AddPosition(n, c);
      forall j :: 0 <= j < |r.children| ==>
        r.children[j] == if j < p then n.children[j] else if j == p then c else n.children[j - 1]
    ensures AllKeys(r) == AllKeys(n) + AllKeys(c)
  {
    var p := AddPosition(n, c);
    var cs := n.children[..p] + [c] + n.children[p..];
    assert cs[..p] == n.children[..p] && cs[p + 1..] == n.children[p..];
    KeysOfInsertAt(n.children, p, c);
    n.(children := cs)
  }

  // ---------------------------------------------------------------------
  // BTreeNode.split

  /** The key-list cut of `split`: `mid = len(values) // 2`; the node keeps
      the keys before `mid` and all of its children, the median is
      `values[mid]`, and a new childless sibling takes the keys after `mid`. */
  function SplitHalves(n: Node): (h: (Node, int, Node))
    requires |n.values| >= 3
    ensures |h.0.values| == |n.values| / 2
    ensures h.0.values + [h.1] + h.2.values == n.values
    ensures h.0.values != [] && h.2.values != []
    ensures h.0.children == n.children && h.2.children == []
    ensures AllKeys(h.0) + multiset{h.1} + AllKeys(h.2) == AllKeys(n)
  {
    var mid := |n.values| / 2;
    var left := n.(values := n.values[..mid]);
    var sibling := Node(n.values[mid + 1..], []);
    assert n.values == n.values[..mid] + [n.values[mid]] + n.values[mid + 1..];
    (left, n.values[mid], sibling)
  }

  /** Neither half holds more than `len(values) // 2` keys, so splitting a
      node with at most `k + 1` keys leaves two halves of at most `k`. */
  lemma SplitHalvesBound(n: Node, k: int)
    requires |n.values| >= 3 && |n.values| <= k + 1
    ensures |SplitHalves(n).0.values| <= k && |SplitHalves(n).2.values| <= k
  {
    var h := SplitHalves(n);
    assert |h.0.values| + 1 + |h.2.values| == |n.values|;
  }

  /** `split(None)`: a new parent holding only the median, with the shortened
      node and the new sibling attached through `add_node`. The sibling goes
      first only when the median is not less than the sibling's last key. */
  function SplitRoot(n: Node): (r: Node)
    requires |n.values| >= 3
    ensures r.values == [n.values[|n.values| / 2]]
    ensures var h := SplitHalves(n);
      r.children == if h.1 < Last(h.2.values) then [h.0, h.2] else [h.2, h.0]
    ensures AllKeys(r) == AllKeys(n)
  {
    var h := SplitHalves(n);
    var parent := Node([h.1], []);
    var withLeft := AddNode(parent, h.0);
    assert withLeft.children == [h.0];
    KeysOfSingle(h.0);
    AddNode(withLeft, h.2)
  }

  /** On a node whose keys are strictly increasing, `split(None)` yields
      `[median]` over the two halves in order. */
  lemma SplitRootDistinct(n: Node)
    requires |n.values| >= 3
    requires forall i, j :: 0 <= i < j < |n.values| ==> n.values[i] < n.values[j]
    ensures var h := SplitHalves(n);
      SplitRoot(n) == Node([h.1], [h.0, h.2])
  {
    var h := SplitHalves(n);
    var mid := |n.values| / 2;
    assert h.1 == n.values[mid] && Last(h.2.values) == n.values[|n.values| - 1];
  }

  /** `split(parent)` where the node is `parent.children[idx]`: the child
      keeps its lower keys, the median is inserted into the parent's keys in
      sorted order, and the sibling is attached through `add_node`. */
  function SplitChild(p: Node, idx: nat): (r: Node)
    requires idx < |p.children|
    requires |p.children[idx].values| >= 3
    ensures var h := SplitHalves(p.children[idx]);
      Sorted(r.values) && multiset(r.values) == multiset(p.values) + multiset{h.1}
    ensures |r.children| == |p.children| + 1
  {
    var h := SplitHalves(p.children[idx]);
    var p1 := p.(children := p.children[idx := h.0]);
    var p2 := InsertKey(p1, h.1);
    assert p2.children == p1.children;
    AddNode(p2, h.2)
  }

  /** `split(parent)` leaves the parent's other children in place, replaces
      the split child by its lower half and adds the sibling at the position
      `add_node` scans for. */
  lemma SplitChildChildren(p: Node, idx: nat)
    requires idx < |p.children|
    requires |p.children[idx].values| >= 3
    ensures var h := SplitHalves(p.children[idx]);
      var q := AddPosition(InsertKey(p.(children := p.children[idx := h.0]), h.1), h.2);
      var kept := p.children[idx := h.0];
      var r := SplitChild(p, idx);
      q < |r.children| && r.children[..q] == kept[..q] && r.children[q] == h.2 && r.children[q + 1..] == kept[q..]
  {
    var h := SplitHalves(p.children[idx]);
    var kept := p.children[idx := h.0];
    var p2 := InsertKey(p.(children := kept), h.1);
    var q := AddPosition(p2, h.2);
    SplitChildShape(p, idx);
    var r := SplitChild(p, idx);
    assert r.children == kept[..q] + [h.2] + kept[q..];
  }

  /** Splicing `x` into `s` at `q`, element by element. */
  lemma SpliceAt<T>(s: seq<T>, q: nat, x: T)
    requires q <= |s|
    ensures var t := s[..q] + [x] + s[q..];
      |t| == |s| + 1 &&
      forall j :: 0 <= j < |t| ==> t[j] == if j < q then s[j] else if j == q then x else s[j - 1]
  {
  }

  /** `split(parent)` written out: the parent's keys with the median
      inserted, and the sibling spliced into the updated child list at the
      position `add_node` scans for. */
  lemma SplitChildShape(p: Node, idx: nat)
    requires idx < |p.children|
    requires |p.children[idx].values| >= 3
    ensures var h := SplitHalves(p.children[idx]);
      var p2 := InsertKey(p.(children := p.children[idx := h.0]), h.1);
      var q := AddPosition(p2, h.2);
      SplitChild(p, idx) == p2.(children := p2.children[..q] + [h.2] + p2.children[q..])
  {
  }

  /** `split(parent)` moves keys between the child, the parent and the new
      sibling but neither loses nor invents one. */
  lemma SplitChildKeys(p: Node, idx: nat)
    requires idx < |p.children|
    requires |p.children[idx].values| >= 3
    ensures AllKeys(SplitChild(p, idx)) == AllKeys(p)
  {
    var c := p.children[idx];
    var h := SplitHalves(c);
    var p1 := p.(children := p.children[idx := h.0]);
    var p2 := InsertKey(p1, h.1);
    var r := AddNode(p2, h.2);
    ReplaceChildKeys(p, idx, h.0);
    InsertKeyKeys(p1, h.1);
    MoveKeys(AllKeys(r), AllKeys(p), AllKeys(c), AllKeys(p1), AllKeys(h.0), AllKeys(h.2), multiset{h.1});
  }

  // ---------------------------------------------------------------------
  // BTreeNode.inorder

  /** The walk reaches `children[i]` for every key index `i` and, after the
      last key, `children[len(values)]` if it exists; it fails on an internal
      node with fewer children than keys. */
  predicate Traversable(n: Node)
  {
    n.IsLeaf() ||
    (|n.values| <= |n.children| &&
     forall i :: 0 <= i <= |n.values| && i < |n.children| ==> Traversable(n.children[i]))
  }

  /** `inorder(depth)`: the `(key, depth)` pairs, each key preceded by the
      walk of the child to its left, the walk of `children[len(values)]`
      (if present) last. Children past that index are never visited. */
  function Inorder(n: Node, depth: int): (r: seq<(int, int)>)
    requires Traversable(n)
    ensures |r| >= |n.values|
    ensures n.IsLeaf() ==> |r| == |n.values|
    decreases n, |n.values| + 1
  {
    InorderUpTo(n, depth, |n.values|) +
    (if !n.IsLeaf() && |n.values| < |n.children| then Inorder(n.children[|n.values|], depth + 1) else [])
  }

  /** The pairs the loop of `inorder` yields for key indices below `i`. */
  function InorderUpTo(n: Node, depth: int, i: nat): (r: seq<(int, int)>)
    requires Traversable(n) && i <= |n.values|
    ensures |r| >= i
    ensures n.IsLeaf() ==> |r| == i
    decreases n, i
  {
    if i == 0 then []
    else
      InorderUpTo(n, depth, i - 1) +
      (if n.IsLeaf() then [] else Inorder(n.children[i - 1], depth + 1)) +
      [(n.values[i - 1], depth)]
  }

  /** The keys of a walk, without their depths. */
  function KeysOfPairs(s: seq<(int, int)>): seq<int>
  {
    if s == [] then [] else [s[0].0] + KeysOfPairs(s[1..])
  }
}
