/** The tree (`BTree`): a root that may be absent and the fanout `m`, with
    insertion by recursive descent and bottom-up splitting, search, and
    deletion of keys that sit in a leaf.

    The pure definitions below state what each operation of the tree does;
    the class `BTree` at the end carries them out step by step, with the
    index scans as loops, and its methods are proved to agree with them. */
module BTrees {
  import opened Keys
  import opened Nodes

  datatype Option<T> = None | Some(value: T)

  // ---------------------------------------------------------------------
  // Paths: a node of the tree named by the child indices leading to it.
  // `search` hands back a node object; the model hands back its path.

  predicate ValidPath(n: Node, path: seq<nat>)
    decreases path
  {
    path == [] || (path[0] < |n.children| && ValidPath(n.children[path[0]], path[1..]))
  }

  function NodeAt(n: Node, path: seq<nat>): Node
    requires ValidPath(n, path)
    decreases path
  {
    if path == [] then n else NodeAt(n.children[path[0]], path[1..])
  }

  /** The keys of any node in the tree are keys of the tree. */
  lemma {:induction false} NodeAtKeys(n: Node, path: seq<nat>)
    requires ValidPath(n, path)
    ensures multiset(NodeAt(n, path).values) <= AllKeys(n)
    decreases path
  {
    if path != [] {
      NodeAtKeys(n.children[path[0]], path[1..]);
      KeysOfElement(n.children, path[0]);
    }
  }

  /** The tree with the key list of the node at `path` replaced by `vals`,
      every other node as it was: the effect of updating that node in place. */
  function WithValuesAt(n: Node, path: seq<nat>, vals: seq<int>): Node
    requires ValidPath(n, path)
    decreases path
  {
    if path == [] then n.(values := vals)
    else n.(children := n.children[path[0] := WithValuesAt(n.children[path[0]], path[1..], vals)])
  }

  /** Replacing one node's keys changes no other node and no child list. */
  lemma {:induction false} WithValuesAtEffect(n: Node, path: seq<nat>, vals: seq<int>, q: seq<nat>)
    requires ValidPath(n, path)
    ensures ValidPath(WithValuesAt(n, path, vals), q) <==> ValidPath(n, q)
    ensures ValidPath(n, q) ==>
      NodeAt(WithValuesAt(n, path, vals), q).values == (if q == path then vals else NodeAt(n, q).values) &&
      |NodeAt(WithValuesAt(n, path, vals), q).children| == |NodeAt(n, q).children|
    decreases q
  {
    var r := WithValuesAt(n, path, vals);
    if q != [] && path == [] {
      assert r.children == n.children;
      assert q != path;
    } else if q != [] && q[0] < |n.children| {
      var i := q[0];
      if path[0] == i {
        WithValuesAtEffect(n.children[i], path[1..], vals, q[1..]);
        assert q == path <==> q[1..] == path[1..];
      } else {
        assert r.children[i] == n.children[i];
        assert q != path;
      }
    }
  }

  /** The keys of the tree after one node's keys are replaced. */
  lemma {:induction false} WithValuesAtKeys(n: Node, path: seq<nat>, vals: seq<int>)
    requires ValidPath(n, path)
    ensures AllKeys(WithValuesAt(n, path, vals)) + multiset(NodeAt(n, path).values) == AllKeys(n) + multiset(vals)
    decreases path
  {
    if path == [] {
    } else {
      var i := path[0];
      var c := n.children[i];
      var c' := WithValuesAt(c, path[1..], vals);
      WithValuesAtKeys(c, path[1..], vals);
      ReplaceChildKeys(n, i, c');
      MoveThrough(AllKeys(WithValuesAt(n, path, vals)), AllKeys(n), AllKeys(c), AllKeys(c'),
                  multiset(NodeAt(n, path).values), multiset(vals));
    }
  }

  /** Counting step for `WithValuesAtKeys`. */
  lemma MoveThrough(after: multiset<int>, before: multiset<int>, c: multiset<int>, c': multiset<int>,
                    old': multiset<int>, new': multiset<int>)
    requires after + c == before + c'
    requires c' + old' == c + new'
    ensures after + old' == before + new'
  {
    forall x ensures (after + old')[x] == (before + new')[x] {
      assert (after + c)[x] == (before + c')[x];
      assert (c' + old')[x] == (c + new')[x];
    }
  }

  // ---------------------------------------------------------------------
  // Insertion

  /** `_insert` only reaches existing children: at every internal node on
      the way down, the scanned index names a child. */
  predicate DescentSafe(n: Node, v: int)
  {
    n.IsLeaf() ||
    (FirstNotLess(n.values, v) < |n.children| && DescentSafe(n.children[FirstNotLess(n.values, v)], v))
  }

  /** `_insert(value, node)`: add the key to the leaf the scan leads to;
      on the way back up, split the child just descended into when it holds
      more than `k` keys, which moves its median into this node and attaches
      the sibling here. The tree gains exactly the one key. */
  function InsertDescend(n: Node, v: int, k: int): (r: Node)
    requires k >= 2
    requires DescentSafe(n, v)
    ensures AllKeys(r) == AllKeys(n) + multiset{v}
    ensures r.IsLeaf() <==> n.IsLeaf()
    ensures n.IsLeaf() ==> r == InsertKey(n, v)
  {
    if n.IsLeaf() then
      InsertKeyKeys(n, v);
      InsertKey(n, v)
    else
      var idx := FirstNotLess(n.values, v);
      var c := InsertDescend(n.children[idx], v, k);
      var n1 := n.(children := n.children[idx := c]);
      ReplaceChildKeys(n, idx, c);
      AddOne(AllKeys(n1), AllKeys(n), AllKeys(n.children[idx]), AllKeys(c), v);
      if c.NeedsRebalancing(k) then
        SplitChildKeys(n1, idx);
        SplitChild(n1, idx)
      else
        n1
  }

  /** Counting step for `InsertDescend`. */
  lemma AddOne(after: multiset<int>, before: multiset<int>, c: multiset<int>, c': multiset<int>, v: int)
    requires after + c == before + c'
    requires c' == c + multiset{v}
    ensures after == before + multiset{v}
  {
    forall x ensures after[x] == (before + multiset{v})[x] {
      assert (after + c)[x] == (before + c')[x];
    }
  }

  /** The positional rebuild of an overfull internal root in `insert`: the
      root keeps only its median; a new left node takes the keys before
      `mid` and the first `mid` children, a new right node the keys after
      `mid` and every child from `mid` on (slices clamp at the end). */
  function RootRebuild(n: Node): (r: Node)
    requires n.values != []
    ensures var mid := |n.values| / 2;
      r.values == [n.values[mid]] && |r.children| == 2 &&
      |r.children[0].values| == mid &&
      r.children[0].values + r.values + r.children[1].values == n.values &&
      |r.children[0].children| == Min(mid, |n.children|) &&
      r.children[0].children + r.children[1].children == n.children
  {
    var mid := |n.values| / 2;
    var cut := Min(mid, |n.children|);
    assert n.values == n.values[..mid] + [n.values[mid]] + n.values[mid + 1..];
    assert n.children == n.children[..cut] + n.children[cut..];
    Node([n.values[mid]], [Node(n.values[..mid], n.children[..cut]), Node(n.values[mid + 1..], n.children[cut..])])
  }

  /** The rebuild keeps every key of the tree. */
  lemma RootRebuildKeys(n: Node)
    requires n.values != []
    ensures AllKeys(RootRebuild(n)) == AllKeys(n)
  {
    RegroupedKeys(n, RootRebuild(n));
  }

  /** A node rebuilt as a root over two nodes that share out its keys and
      its children, in order, holds the same keys. */
  lemma RegroupedKeys(n: Node, r: Node)
    requires |r.children| == 2
    requires r.children[0].values + r.values + r.children[1].values == n.values
    requires r.children[0].children + r.children[1].children == n.children
    ensures AllKeys(r) == AllKeys(n)
  {
    var l, g := r.children[0], r.children[1];
    PairKeys(r.values, l, g);
    assert r == Node(r.values, [l, g]);
    KeysOfAppend(l.children, g.children);
    assert multiset(n.values) == multiset(l.values) + multiset(r.values) + multiset(g.values) by {
      assert n.values == l.values + r.values + g.values;
    }
    Regroup(AllKeys(r), AllKeys(n), multiset(r.values), multiset(l.values), multiset(g.values),
            KeysOf(l.children), KeysOf(g.children));
  }

  lemma PairKeys(v: seq<int>, l: Node, g: Node)
    ensures AllKeys(Node(v, [l, g])) == multiset(v) + AllKeys(l) + AllKeys(g)
  {
    KeysOfAppend([l], [g]);
    KeysOfSingle(l);
    KeysOfSingle(g);
    assert [l] + [g] == [l, g];
  }

  /** Counting step for `RootRebuildKeys`. */
  lemma Regroup(after: multiset<int>, before: multiset<int>, med: multiset<int>,
                lv: multiset<int>, gv: multiset<int>, lc: multiset<int>, gc: multiset<int>)
    requires after == med + (lv + lc) + (gv + gc)
    requires before == (lv + med + gv) + (lc + gc)
    ensures after == before
  {
    forall x ensures after[x] == before[x] { }
  }

  /** The keys of a tree whose root may be absent. */
  function TreeKeys(root: Option<Node>): multiset<int>
  {
    if root.None? then multiset{} else AllKeys(root.value)
  }

  /** `BTree.insert` with fanout `m`: an empty tree gets a one-key leaf; a
      leaf root takes the key and, when overfull, is replaced by the parent
      `split(None)` returns; an internal root takes the key through
      `_insert` and, when overfull, is rebuilt positionally. */
  function TreeInsert(root: Option<Node>, v: int, m: int): (r: Node)
    requires m > 2
    requires root.Some? ==> DescentSafe(root.value, v)
    ensures AllKeys(r) == TreeKeys(root) + multiset{v}
  {
    if root.None? then
      assert multiset([v]) == multiset{v};
      Node([v], [])
    else if root.value.IsLeaf() then
      var r := InsertKey(root.value, v);
      InsertKeyKeys(root.value, v);
      if r.NeedsRebalancing(m - 1) then SplitRoot(r) else r
    else
      var r := InsertDescend(root.value, v, m - 1);
      if r.NeedsRebalancing(m - 1) then
        RootRebuildKeys(r);
        RootRebuild(r)
      else r
  }

  // ---------------------------------------------------------------------
  // Search

  /** `_search` only reaches existing children. */
  predicate SearchSafe(n: Node, v: int)
  {
    v in n.values || n.IsLeaf() ||
    (FirstNotLess(n.values, v) < |n.children| && SearchSafe(n.children[FirstNotLess(n.values, v)], v))
  }

  /** The route `_search` takes: at each node passed through, the key is
      absent and the next step is the first index whose key is not less
      than the searched key. */
  predicate ScanRoute(n: Node, path: seq<nat>, v: int)
    decreases path
  {
    path == [] ||
    (v !in n.values && path[0] == FirstNotLess(n.values, v) && path[0] < |n.children| &&
     ScanRoute(n.children[path[0]], path[1..], v))
  }

  /** `_search(value, node)`: the path to the first node on the scan route
      that holds the key, or `None` when the route ends in a leaf without it. */
  function SearchFrom(n: Node, v: int): (r: Option<seq<nat>>)
    requires SearchSafe(n, v)
    ensures r.Some? ==> ValidPath(n, r.value) && v in NodeAt(n, r.value).values && ScanRoute(n, r.value, v)
    ensures r == Some([]) <==> v in n.values
    ensures r.None? <==> !(v in n.values) && (n.IsLeaf() || SearchFrom(n.children[FirstNotLess(n.values, v)], v).None?)
  {
    if v in n.values then Some([])
    else if n.IsLeaf() then None
    else
      var idx := FirstNotLess(n.values, v);
      match SearchFrom(n.children[idx], v)
      case None => None
      case Some(p) => Some([idx] + p)
  }

  /** `search(value)` on a non-empty tree: the root is checked first, a leaf
      root without the key answers `None`, otherwise `_search` descends. It
      always answers what `_search` answers from the root. */
  function SearchRoot(root: Node, v: int): (r: Option<seq<nat>>)
    requires SearchSafe(root, v)
    ensures r == SearchFrom(root, v)
  {
    if v in root.values then Some([])
    else if root.IsLeaf() then None
    else SearchFrom(root, v)
  }

  /** A node that `search` returns holds the key, so the key is in the tree. */
  lemma SearchSound(root: Node, v: int)
    requires SearchSafe(root, v)
    requires SearchRoot(root, v).Some?
    ensures v in AllKeys(root)
  {
    NodeAtKeys(root, SearchRoot(root, v).value);
  }

  // ---------------------------------------------------------------------
  // Deletion

  /** `delete(value)` on a non-empty tree: if `search` finds a leaf, the
      first occurrence of the key is removed from that leaf; if it finds an
      internal node, or nothing, the tree is left as it was. */
  function DeleteKey(root: Node, v: int): (r: Node)
    requires SearchSafe(root, v)
    ensures SearchRoot(root, v).None? ==> r == root
    ensures SearchRoot(root, v).Some? && !NodeAt(root, SearchRoot(root, v).value).IsLeaf() ==> r == root
    ensures AllKeys(r) ==
      if SearchRoot(root, v).Some? && NodeAt(root, SearchRoot(root, v).value).IsLeaf()
      then AllKeys(root) - multiset{v} else AllKeys(root)
  {
    match SearchRoot(root, v)
    case None => root
    case Some(path) =>
      var node := NodeAt(root, path);
      if node.IsLeaf() then
        var r := WithValuesAt(root, path, RemoveFirst(node.values, v));
        WithValuesAtKeys(root, path, RemoveFirst(node.values, v));
        RemoveOne(AllKeys(r), AllKeys(root), multiset(node.values), v);
        r
      else root
  }

  /** Counting step for `DeleteKey`. */
  lemma RemoveOne(after: multiset<int>, before: multiset<int>, vals: multiset<int>, v: int)
    requires v in vals
    requires after + vals == before + (vals - multiset{v})
    ensures after == before - multiset{v}
  {
    forall x ensures after[x] == (before - multiset{v})[x] {
      assert (after + vals)[x] == (before + (vals - multiset{v}))[x];
    }
  }

  /** Deleting a key found in a leaf removes one occurrence from that leaf
      and changes no other node: the same paths exist, every other node keeps
      its keys and every node keeps its number of children. */
  lemma DeleteFromLeaf(root: Node, v: int, q: seq<nat>)
    requires SearchSafe(root, v)
    requires SearchRoot(root, v).Some?
    requires NodeAt(root, SearchRoot(root, v).value).IsLeaf()
    ensures var p := SearchRoot(root, v).value;
      var r := DeleteKey(root, v);
      (ValidPath(r, q) <==> ValidPath(root, q)) &&
      (ValidPath(root, q) ==>
        NodeAt(r, q).values ==
          (if q == p then RemoveFirst(NodeAt(root, p).values, v) else NodeAt(root, q).values) &&
        |NodeAt(r, q).children| == |NodeAt(root, q).children|)
  {
    var p := SearchRoot(root, v).value;
    WithValuesAtEffect(root, p, RemoveFirst(NodeAt(root, p).values, v), q);
  }

  // ---------------------------------------------------------------------
  // Node-count bound

  /** No node holds more than `k` keys. */
  predicate Bounded(n: Node, k: int)
  {
    |n.values| <= k && forall i :: 0 <= i < |n.children| ==> Bounded(n.children[i], k)
  }

  /** Replacing one child of a bounded node by a node whose children are
      bounded leaves every other child bounded. */
  lemma ReplaceChildBounded(n: Node, n1: Node, idx: nat, c: Node, k: int)
    requires idx < |n.children| && Bounded(n, k)
    requires n1 == n.(children := n.children[idx := c])
    requires forall j :: 0 <= j < |c.children| ==> Bounded(c.children[j], k)
    ensures forall j :: 0 <= j < |n1.children| && j != idx ==> Bounded(n1.children[j], k)
    ensures |c.values| <= k ==> Bounded(c, k)
  {
    forall j | 0 <= j < |n1.children| && j != idx ensures Bounded(n1.children[j], k) {
      assert n1.children[j] == n.children[j];
    }
  }

  /** Both halves of a split node with at most `k + 1` keys and bounded
      children are bounded. */
  lemma HalvesBounded(c: Node, k: int)
    requires |c.values| >= 3 && |c.values| <= k + 1
    requires forall j :: 0 <= j < |c.children| ==> Bounded(c.children[j], k)
    ensures Bounded(SplitHalves(c).0, k) && Bounded(SplitHalves(c).2, k)
  {
    SplitHalvesBound(c, k);
  }

  /** Below a node that held at most `k` keys everywhere, `_insert` leaves
      every child within `k` keys (an overfull child is split on the way
      back) and the node itself with at most one key too many. */
  lemma {:induction false} InsertDescendBounded(n: Node, v: int, k: int)
    requires k >= 2 && DescentSafe(n, v) && Bounded(n, k)
    ensures var r := InsertDescend(n, v, k);
      |r.values| <= k + 1 && forall i :: 0 <= i < |r.children| ==> Bounded(r.children[i], k)
    decreases n
  {
    if !n.IsLeaf() {
      var idx := FirstNotLess(n.values, v);
      var c := InsertDescend(n.children[idx], v, k);
      InsertDescendBounded(n.children[idx], v, k);
      var n1 := n.(children := n.children[idx := c]);
      ReplaceChildBounded(n, n1, idx, c, k);
      if c.NeedsRebalancing(k) {
        HalvesBounded(c, k);
        ChildrenBoundedAfterSplit(n1, idx, k);
      }
    }
  }

  /** After `split(parent)` every child of the parent is within `k` keys. */
  lemma ChildrenBoundedAfterSplit(p: Node, idx: nat, k: int)
    requires idx < |p.children| && |p.children[idx].values| >= 3
    requires forall j :: 0 <= j < |p.children| && j != idx ==> Bounded(p.children[j], k)
    requires Bounded(SplitHalves(p.children[idx]).0, k) && Bounded(SplitHalves(p.children[idx]).2, k)
    ensures var r := SplitChild(p, idx);
      |r.values| == |p.values| + 1 && forall j :: 0 <= j < |r.children| ==> Bounded(r.children[j], k)
  {
    var h := SplitHalves(p.children[idx]);
    var kept := p.children[idx := h.0];
    var p2 := InsertKey(p.(children := kept), h.1);
    var q := AddPosition(p2, h.2);
    var r := SplitChild(p, idx);
    SplitChildShape(p, idx);
    assert r.children == kept[..q] + [h.2] + kept[q..];
    forall i | 0 <= i < |kept| ensures Bounded(kept[i], k) {
      KeptBounded(p, idx, h.0, i, k);
    }
    SpliceBounded(kept, q, h.2, k);
    assert |r.values| == |multiset(r.values)|;
  }

  lemma KeptBounded(p: Node, idx: nat, c: Node, i: int, k: int)
    requires idx < |p.children| && 0 <= i < |p.children|
    requires forall j :: 0 <= j < |p.children| && j != idx ==> Bounded(p.children[j], k)
    requires Bounded(c, k)
    ensures Bounded(p.children[idx := c][i], k)
  {
  }

  lemma SpliceBounded(s: seq<Node>, q: nat, x: Node, k: int)
    requires q <= |s| && Bounded(x, k)
    requires forall i :: 0 <= i < |s| ==> Bounded(s[i], k)
    ensures forall j :: 0 <= j < |s| + 1 ==> Bounded((s[..q] + [x] + s[q..])[j], k)
  {
    SpliceAt(s, q, x);
  }

  /** `insert` keeps every node of the tree within `k = m - 1` keys. */
  lemma TreeInsertBounded(root: Option<Node>, v: int, m: int)
    requires m > 2
    requires root.Some? ==> DescentSafe(root.value, v) && Bounded(root.value, m - 1)
    ensures Bounded(TreeInsert(root, v, m), m - 1)
  {
    if root.Some? && root.value.IsLeaf() {
      LeafRootBounded(root.value, v, m - 1);
    } else if root.Some? {
      InsertDescendBounded(root.value, v, m - 1);
      RebuildBounded(InsertDescend(root.value, v, m - 1), m - 1);
    }
  }

  lemma LeafRootBounded(n: Node, v: int, k: int)
    requires k >= 2 && n.IsLeaf() && |n.values| <= k
    ensures var r := InsertKey(n, v);
      Bounded(if r.NeedsRebalancing(k) then SplitRoot(r) else r, k)
  {
    var r := InsertKey(n, v);
    if r.NeedsRebalancing(k) {
      HalvesBounded(r, k);
      SplitRootBounded(r, k);
    } else {
      assert r.children == [];
    }
  }

  /** `split(None)` of a node with at most `k + 1` keys, whose halves are
      bounded, is bounded. */
  lemma SplitRootBounded(r: Node, k: int)
    requires |r.values| >= 3 && k >= 1
    requires Bounded(SplitHalves(r).0, k) && Bounded(SplitHalves(r).2, k)
    ensures Bounded(SplitRoot(r), k)
  {
    var t := SplitRoot(r);
    var h := SplitHalves(r);
    assert forall j :: 0 <= j < |t.children| ==> t.children[j] == h.0 || t.children[j] == h.2;
  }

  lemma RebuildBounded(r: Node, k: int)
    requires k >= 2 && |r.values| <= k + 1
    requires forall j :: 0 <= j < |r.children| ==> Bounded(r.children[j], k)
    ensures Bounded(if r.NeedsRebalancing(k) then RootRebuild(r) else r, k)
  {
    if r.NeedsRebalancing(k) {
      var t := RootRebuild(r);
      var l, g := t.children[0], t.children[1];
      assert |l.values| + 1 + |g.values| == |r.values|;
      forall j | 0 <= j < |l.children| ensures Bounded(l.children[j], k) {
        assert l.children[j] == (l.children + g.children)[j];
      }
      forall j | 0 <= j < |g.children| ensures Bounded(g.children[j], k) {
        assert g.children[j] == (l.children + g.children)[|l.children| + j];
      }
      assert Bounded(l, k) && Bounded(g, k);
      assert forall i :: 0 <= i < |t.children| ==> t.children[i] == l || t.children[i] == g;
    }
  }

  // ---------------------------------------------------------------------
  // The tree object

  class BTree {
    var root: Option<Node>
    const m: int

    /** `BTree(max_children=3)`: an empty tree; the fanout must exceed 2. */
    constructor (maxChildren: int := 3)
      requires maxChildren > 2
      ensures root == None && m == maxChildren
    {
      root := None;
      m := maxChildren;
    }

    /** `insert(value)`: the root is reassigned to the tree `TreeInsert`
        describes, which holds the old keys and the new one. */
    method Insert(value: int)
      requires m > 2
      requires root.Some? ==> DescentSafe(root.value, value)
      modifies this
      ensures root == Some(TreeInsert(old(root), value, m))
      ensures TreeKeys(root) == TreeKeys(old(root)) + multiset{value}
    {
      ghost var want := TreeInsert(root, value, m);
      assert AllKeys(want) == TreeKeys(root) + multiset{value};
      if root.None? {
        root := Some(Node([value], []));
      } else if root.value.IsLeaf() {
        var r := InsertKey(root.value, value);
        root := Some(r);
        if r.NeedsRebalancing(m - 1) {
          root := Some(SplitRoot(r));
        }
      } else {
        var r := InsertInto(value, root.value);
        root := Some(r);
        if r.NeedsRebalancing(m - 1) {
          var mid := |r.values| / 2;
          var cut := Min(mid, |r.children|);
          var left := Node(r.values[..mid], []);
          var right := Node(r.values[mid + 1..], []);
          left := left.(children := r.children[..cut]);
          right := right.(children := r.children[cut..]);
          assert Node([r.values[mid]], [left, right]) == RootRebuild(r);
          root := Some(Node([r.values[mid]], [left, right]));
        }
      }
      assert root == Some(want);
    }

    /** `_insert(value, node)`: the scan loop picks the child, the recursive
        call inserts below it, and an overfull child is split into `node`. */
    method InsertInto(value: int, n: Node) returns (r: Node)
      requires m > 2
      requires DescentSafe(n, value)
      ensures r == InsertDescend(n, value, m - 1)
      decreases n
    {
      if n.IsLeaf() {
        r := InsertKey(n, value);
      } else {
        var idx := ScanIndex(n.values, value);
        var c := InsertInto(value, n.children[idx]);
        r := n.(children := n.children[idx := c]);
        if c.NeedsRebalancing(m - 1) {
          r := SplitChild(r, idx);
        }
      }
    }

    /** `search(value)`: requires a root, as the source dereferences it. */
    method Search(value: int) returns (r: Option<seq<nat>>)
      requires root.Some? && SearchSafe(root.value, value)
      ensures r == SearchRoot(root.value, value)
      ensures r.Some? ==> ValidPath(root.value, r.value) && value in NodeAt(root.value, r.value).values
    {
      if value in root.value.values {
        return Some([]);
      }
      if root.value.IsLeaf() {
        return None;
      }
      r := SearchNode(value, root.value);
    }

    /** `_search(value, node)` with its scan loop. */
    method SearchNode(value: int, n: Node) returns (r: Option<seq<nat>>)
      requires SearchSafe(n, value)
      ensures r == SearchFrom(n, value)
      decreases n
    {
      if value in n.values {
        return Some([]);
      }
      if n.IsLeaf() {
        return None;
      }
      var idx := ScanIndex(n.values, value);
      var sub := SearchNode(value, n.children[idx]);
      r := if sub.None? then None else Some([idx] + sub.value);
    }

    /** `delete(value)`: requires a root, as `search` dereferences it. */
    method Delete(value: int)
      requires root.Some? && SearchSafe(root.value, value)
      modifies this
      ensures root == Some(DeleteKey(old(root.value), value))
    {
      var found := Search(value);
      if found.None? {
        return;
      }
      var node := NodeAt(root.value, found.value);
      if node.IsLeaf() {
        root := Some(WithValuesAt(root.value, found.value, RemoveFirst(node.values, value)));
      }
    }
  }
}
