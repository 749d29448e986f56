/** Concrete insertion sequences on a tree of fanout 3 (at most two keys
    per node). */
module Traces {
  import opened Keys
  import opened Nodes
  import opened BTrees

  /** `insert` on a node, by the sorted result it must produce. */
  lemma InsertKeyIs(n: Node, x: int, t: seq<int>)
    requires Sorted(t) && multiset(t) == multiset(n.values) + multiset{x}
    ensures InsertKey(n, x) == Node(t, n.children)
  {
    SortedPermutationUnique(InsertKey(n, x).values, t);
  }

  /** The cut of `split`, by the three pieces it must produce. */
  lemma SplitHalvesIs(n: Node, l: seq<int>, med: int, g: seq<int>)
    requires |n.values| >= 3 && |l| == |n.values| / 2
    requires l + [med] + g == n.values
    ensures SplitHalves(n) == (n.(values := l), med, Node(g, []))
  {
    var h := SplitHalves(n);
    assert h.0.values + [h.1] + h.2.values == l + [med] + g;
    assert h.0.values == (h.0.values + [h.1] + h.2.values)[..|l|];
    assert h.1 == (l + [med] + g)[|l|];
    assert h.2.values == (l + [med] + g)[|l| + 1..];
    assert h.0.values == l && h.2.values == g;
  }

  lemma SplitRootIs(n: Node, l: seq<int>, med: int, g: seq<int>)
    requires |n.values| >= 3 && |l| == |n.values| / 2
    requires l + [med] + g == n.values
    requires med < Last(g)
    ensures SplitRoot(n) == Node([med], [n.(values := l), Node(g, [])])
  {
    SplitHalvesIs(n, l, med, g);
  }

  /** `split(parent)` on child `idx`, by the parent it must produce: the
      sorted keys `vals` and the sibling at position `q`. */
  lemma SplitChildIs(p: Node, idx: nat, l: seq<int>, med: int, g: seq<int>, vals: seq<int>, q: nat)
    requires idx < |p.children| && |p.children[idx].values| >= 3
    requires |l| == |p.children[idx].values| / 2 && l + [med] + g == p.children[idx].values && g != []
    requires Sorted(vals) && multiset(vals) == multiset(p.values) + multiset{med}
    requires q == Min(FirstNotLess(vals, Last(g)), |p.children|)
    ensures var kept := p.children[idx := p.children[idx].(values := l)];
      SplitChild(p, idx) == Node(vals, kept[..q] + [Node(g, [])] + kept[q..])
  {
    var c := p.children[idx];
    SplitHalvesIs(c, l, med, g);
    var p1 := p.(children := p.children[idx := c.(values := l)]);
    InsertKeyIs(p1, med, vals);
    SplitChildShape(p, idx);
  }

  /** `_insert` through an internal node whose scanned child is a leaf that
      does not overflow. */
  lemma DescendIntoLeaf(n: Node, v: int, k: int, idx: nat, t: seq<int>)
    requires k >= 2 && !n.IsLeaf()
    requires idx == FirstNotLess(n.values, v) && idx < |n.children| && n.children[idx].IsLeaf()
    requires Sorted(t) && multiset(t) == multiset(n.children[idx].values) + multiset{v}
    requires |t| <= k
    ensures DescentSafe(n, v)
    ensures InsertDescend(n, v, k) == n.(children := n.children[idx := Node(t, [])])
  {
    InsertKeyIs(n.children[idx], v, t);
  }

  /** `_insert` through an internal node whose scanned child is a leaf that
      overflows and is split into the node. */
  lemma DescendAndSplit(n: Node, v: int, k: int, idx: nat, t: seq<int>)
    requires k >= 2 && !n.IsLeaf()
    requires idx == FirstNotLess(n.values, v) && idx < |n.children| && n.children[idx].IsLeaf()
    requires Sorted(t) && multiset(t) == multiset(n.children[idx].values) + multiset{v}
    requires |t| > k
    ensures DescentSafe(n, v)
    ensures InsertDescend(n, v, k) == SplitChild(n.(children := n.children[idx := Node(t, [])]), idx)
  {
    InsertKeyIs(n.children[idx], v, t);
  }

  /** `_insert` through an internal node whose scanned child comes back
      from `_insert` overfull and is split into the node. */
  lemma DescendThroughSplit(n: Node, v: int, k: int, idx: nat, c: Node)
    requires k >= 2 && !n.IsLeaf()
    requires idx == FirstNotLess(n.values, v) && idx < |n.children|
    requires DescentSafe(n.children[idx], v) && InsertDescend(n.children[idx], v, k) == c
    requires c.NeedsRebalancing(k)
    ensures DescentSafe(n, v)
    ensures InsertDescend(n, v, k) == SplitChild(n.(children := n.children[idx := c]), idx)
  {
  }

  lemma TraceFirstKeys()
    ensures TreeInsert(None, 10, 3) == Node([10], [])
    ensures TreeInsert(Some(Node([10], [])), 20, 3) == Node([10, 20], [])
  {
    InsertKeyIs(Node([10], []), 20, [10, 20]);
  }

  /** The third key overflows the leaf root, which `split(None)` turns into
      `[10]` over the leaves `[5]` and `[20]`. */
  lemma TraceFirstSplit()
    ensures TreeInsert(Some(Node([10, 20], [])), 5, 3) == Node([10], [Node([5], []), Node([20], [])])
  {
    FirstSplitOverflows();
    FirstSplitHalves();
  }

  lemma FirstSplitOverflows()
    ensures TreeInsert(Some(Node([10, 20], [])), 5, 3) == SplitRoot(Node([5, 10, 20], []))
  {
    assert Sorted([5, 10, 20]) && multiset([5, 10, 20]) == multiset([10, 20]) + multiset{5};
    LeafRootInsertIs(Node([10, 20], []), 5, 3, [5, 10, 20]);
  }

  lemma FirstSplitHalves()
    ensures SplitRoot(Node([5, 10, 20], [])) == Node([10], [Node([5], []), Node([20], [])])
  {
    assert [5, 10, 20] == [5] + [10] + [20];
    SplitRootIs(Node([5, 10, 20], []), [5], 10, [20]);
  }

  /** `insert` into a leaf root, by the sorted key list it must produce. */
  lemma LeafRootInsertIs(n: Node, v: int, m: int, t: seq<int>)
    requires m > 2 && n.IsLeaf()
    requires Sorted(t) && multiset(t) == multiset(n.values) + multiset{v}
    ensures TreeInsert(Some(n), v, m) == if |t| > m - 1 then SplitRoot(Node(t, [])) else Node(t, [])
  {
    InsertKeyIs(n, v, t);
  }

  /** 6 goes into the leaf `[5]`; the root stays `[10]`. */
  lemma TraceInsertSix()
    ensures var t := Node([10], [Node([5], []), Node([20], [])]);
      DescentSafe(t, 6) &&
      TreeInsert(Some(t), 6, 3) == Node([10], [Node([5, 6], []), Node([20], [])])
  {
    var t := Node([10], [Node([5], []), Node([20], [])]);
    DescendIntoLeaf(t, 6, 2, 0, [5, 6]);
    assert t.children[0 := Node([5, 6], [])] == [Node([5, 6], []), Node([20], [])];
  }

  /** 12 goes into the leaf `[20]`; the root stays `[10]`. */
  lemma TraceInsertTwelve()
    ensures var t := Node([10], [Node([5, 6], []), Node([20], [])]);
      DescentSafe(t, 12) &&
      TreeInsert(Some(t), 12, 3) == Node([10], [Node([5, 6], []), Node([12, 20], [])])
  {
    var t := Node([10], [Node([5, 6], []), Node([20], [])]);
    DescendIntoLeaf(t, 12, 2, 1, [12, 20]);
    assert t.children[1 := Node([12, 20], [])] == [Node([5, 6], []), Node([12, 20], [])];
  }

  /** `inorder(0)` on the five-key tree lists 5, 6, 10, 12, 20 at depths
      1, 1, 0, 1, 1. */
  lemma TraceInorder()
    ensures var t := Node([10], [Node([5, 6], []), Node([12, 20], [])]);
      Traversable(t) && Inorder(t, 0) == [(5, 1), (6, 1), (10, 0), (12, 1), (20, 1)]
  {
    var l, g := Node([5, 6], []), Node([12, 20], []);
    assert Inorder(l, 1) == [(5, 1), (6, 1)] by {
      assert InorderUpTo(l, 1, 1) == [(5, 1)];
    }
    assert Inorder(g, 1) == [(12, 1), (20, 1)] by {
      assert InorderUpTo(g, 1, 1) == [(12, 1)];
    }
  }

  /** 30 overflows the leaf `[12, 20]`, which is split into the root. */
  lemma TraceThirtyDescends()
    ensures var t := Node([10], [Node([5, 6], []), Node([12, 20], [])]);
      DescentSafe(t, 30) &&
      InsertDescend(t, 30, 2) == SplitChild(Node([10], [Node([5, 6], []), Node([12, 20, 30], [])]), 1)
  {
    var t := Node([10], [Node([5, 6], []), Node([12, 20], [])]);
    assert t.(children := t.children[1 := Node([12, 20, 30], [])]) ==
      Node([10], [Node([5, 6], []), Node([12, 20, 30], [])]);
    DescendAndSplit(t, 30, 2, 1, [12, 20, 30]);
  }

  /** `split(parent)` moves 20 into the root and attaches the sibling `[30]`
      at the scan position 2. */
  lemma TraceThirtySplits()
    ensures SplitChild(Node([10], [Node([5, 6], []), Node([12, 20, 30], [])]), 1) ==
      Node([10, 20], [Node([5, 6], []), Node([12], []), Node([30], [])])
  {
    var t1 := Node([10], [Node([5, 6], []), Node([12, 20, 30], [])]);
    var kept := t1.children[1 := Node([12], [])];
    assert kept[..2] + [Node([30], [])] + kept[2..] == [Node([5, 6], []), Node([12], []), Node([30], [])];
    SplitChildIs(t1, 1, [12], 20, [30], [10, 20], 2);
  }

  lemma TraceInsertThirty()
    ensures var t := Node([10], [Node([5, 6], []), Node([12, 20], [])]);
      DescentSafe(t, 30) &&
      TreeInsert(Some(t), 30, 3) == Node([10, 20], [Node([5, 6], []), Node([12], []), Node([30], [])])
  {
    TraceThirtyDescends();
    TraceThirtySplits();
  }

  /** 40 goes into the leaf `[30]`. */
  lemma TraceInsertForty()
    ensures var t := Node([10, 20], [Node([5, 6], []), Node([12], []), Node([30], [])]);
      DescentSafe(t, 40) &&
      TreeInsert(Some(t), 40, 3) == Node([10, 20], [Node([5, 6], []), Node([12], []), Node([30, 40], [])])
  {
    var t := Node([10, 20], [Node([5, 6], []), Node([12], []), Node([30], [])]);
    assert t.children[2 := Node([30, 40], [])] == [Node([5, 6], []), Node([12], []), Node([30, 40], [])];
    DescendIntoLeaf(t, 40, 2, 2, [30, 40]);
  }

  /** 50 overflows the leaf `[30, 40]`, which is split into the root. */
  lemma TraceFiftyDescends()
    ensures var t := Node([10, 20], [Node([5, 6], []), Node([12], []), Node([30, 40], [])]);
      DescentSafe(t, 50) &&
      InsertDescend(t, 50, 2) ==
        SplitChild(Node([10, 20], [Node([5, 6], []), Node([12], []), Node([30, 40, 50], [])]), 2)
  {
    var t := Node([10, 20], [Node([5, 6], []), Node([12], []), Node([30, 40], [])]);
    assert t.(children := t.children[2 := Node([30, 40, 50], [])]) ==
      Node([10, 20], [Node([5, 6], []), Node([12], []), Node([30, 40, 50], [])]);
    DescendAndSplit(t, 50, 2, 2, [30, 40, 50]);
  }

  /** 40 moves up: the root gets three keys and four children, all in key
      order, and now holds more than two keys. */
  lemma TraceFiftySplits()
    ensures SplitChild(Node([10, 20], [Node([5, 6], []), Node([12], []), Node([30, 40, 50], [])]), 2) ==
      Node([10, 20, 40], [Node([5, 6], []), Node([12], []), Node([30], []), Node([50], [])])
  {
    var t1 := Node([10, 20], [Node([5, 6], []), Node([12], []), Node([30, 40, 50], [])]);
    var kept := t1.children[2 := Node([30], [])];
    assert kept[..3] + [Node([50], [])] + kept[3..] ==
      [Node([5, 6], []), Node([12], []), Node([30], []), Node([50], [])];
    SplitChildIs(t1, 2, [30], 40, [50], [10, 20, 40], 3);
  }

  /** The overfull root `[10, 20, 40]` is rebuilt positionally: the left
      node gets one child, the right node the other three. */
  lemma TraceFiftyRebuild()
    ensures RootRebuild(Node([10, 20, 40], [Node([5, 6], []), Node([12], []), Node([30], []), Node([50], [])])) ==
      Node([20], [Node([10], [Node([5, 6], [])]),
                  Node([40], [Node([12], []), Node([30], []), Node([50], [])])])
  {
    var r := Node([10, 20, 40], [Node([5, 6], []), Node([12], []), Node([30], []), Node([50], [])]);
    var rb := RootRebuild(r);
    assert rb.children[0].values == [10] && rb.children[1].values == [40];
    assert rb.children[0].children == [Node([5, 6], [])];
    assert rb.children[1].children == [Node([12], []), Node([30], []), Node([50], [])];
  }

  lemma TraceInsertFifty()
    ensures var t := Node([10, 20], [Node([5, 6], []), Node([12], []), Node([30, 40], [])]);
      DescentSafe(t, 50) &&
      TreeInsert(Some(t), 50, 3) ==
        Node([20], [Node([10], [Node([5, 6], [])]),
                    Node([40], [Node([12], []), Node([30], []), Node([50], [])])])
  {
    TraceFiftyDescends();
    TraceFiftySplits();
    TraceFiftyRebuild();
  }
}
