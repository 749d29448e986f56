/** Three inputs on which the splits as written lose keys for `search`,
    each beside the corrected split that keeps them. */
module Findings {
  import opened Keys
  import opened Nodes
  import opened BTrees
  import opened Ordering
  import opened Traces
  import opened Corrected

  /** The root `_insert` leaves behind when 10, 20, 5, 6, 12, 30, 40, 50
      are inserted with fanout 3: ordered, but with three keys. */
  function OverfullRoot(): Node
  {
    Node([10, 20, 40], [Node([5, 6], []), Node([12], []), Node([30], []), Node([50], [])])
  }

  lemma OverfullRootOrdered()
    ensures Ordered(OverfullRoot())
  {
    var n := OverfullRoot();
    assert |n.children| == 4 && |n.values| == 3;
    forall i | 0 <= i < |n.children| ensures ChildInRange(n, i) && Ordered(n.children[i]) {
      if i == 0 {
        LeafInRange(n, 0, [5, 6]);
      } else if i == 1 {
        LeafInRange(n, 1, [12]);
      } else if i == 2 {
        LeafInRange(n, 2, [30]);
      } else {
        LeafInRange(n, 3, [50]);
      }
    }
    assert Separated(n);
    assert Complete(n);
  }

  /** A sorted leaf child whose keys lie between its separators. */
  lemma LeafInRange(n: Node, i: nat, vs: seq<int>)
    requires i < |n.children| && n.children[i] == Node(vs, [])
    requires Sorted(vs)
    requires forall x :: x in vs ==> (0 < i <= |n.values| ==> n.values[i - 1] <= x) && (i < |n.values| ==> x <= n.values[i])
    ensures ChildInRange(n, i) && Ordered(n.children[i])
  {
    assert AllKeys(n.children[i]) == multiset(vs);
    forall x | x in AllKeys(n.children[i])
      ensures (0 < i <= |n.values| ==> n.values[i - 1] <= x) && (i < |n.values| ==> x <= n.values[i])
    {
      assert x in vs;
    }
    assert Complete(n.children[i]);
  }

  /** The tree the positional rebuild makes of `OverfullRoot()`. */
  function RebuiltRoot(): Node
  {
    Node([20], [Node([10], [Node([5, 6], [])]),
                Node([40], [Node([12], []), Node([30], []), Node([50], [])])])
  }

  lemma RebuiltRootKeys()
    ensures 50 in AllKeys(RebuiltRoot()) && 12 in AllKeys(RebuiltRoot())
  {
    TraceFiftyRebuild();
    RootRebuildKeys(OverfullRoot());
    assert 50 in multiset(OverfullRoot().children[3].values);
    assert 12 in multiset(OverfullRoot().children[1].values);
  }

  /** As written, the rebuild hands the left node one child for its one key
      and the right node three children for its one key. Afterwards `search`
      misses the stored key 50, `search(12)` indexes past the left node's
      children, and the ordering is lost. */
  lemma RootRebuildLosesKeys()
    ensures var t := RootRebuild(OverfullRoot());
      50 in AllKeys(t) && SearchSafe(t, 50) && SearchRoot(t, 50).None? &&
      12 in AllKeys(t) && !SearchSafe(t, 12) && !Ordered(t)
  {
    TraceFiftyRebuild();
    RebuiltRootKeys();
    RebuiltRootMissesFifty();
    RebuiltRootBreaksTwelve();
  }

  lemma RebuiltRootMissesFifty()
    ensures SearchSafe(RebuiltRoot(), 50) && SearchRoot(RebuiltRoot(), 50).None?
  {
    assert SearchFrom(RebuiltRoot().children[1], 50).None?;
  }

  lemma RebuiltRootBreaksTwelve()
    ensures !SearchSafe(RebuiltRoot(), 12) && !Ordered(RebuiltRoot())
  {
    assert !Complete(RebuiltRoot().children[0]);
  }

  /** With the children cut after child `mid`, the rebuilt root keeps the
      ordering, keeps every key, and `search` finds exactly the stored keys. */
  lemma RootRebuildAlignedSearch(n: Node, v: int)
    requires Ordered(n) && n.values != []
    ensures Ordered(RootRebuildAligned(n))
    ensures AllKeys(RootRebuildAligned(n)) == AllKeys(n)
    ensures SearchSafe(RootRebuildAligned(n), v) && (SearchRoot(RootRebuildAligned(n), v).Some? <==> v in AllKeys(n))
  {
    RootRebuildAlignedOrdered(n);
    RootRebuildAlignedKeys(n);
    SearchFindsExactlyStoredKeys(RootRebuildAligned(n), v);
  }

  /** On the same overfull root the aligned rebuild finds 50. */
  lemma RootRebuildAlignedFindsFifty()
    ensures SearchSafe(RootRebuildAligned(OverfullRoot()), 50)
    ensures SearchRoot(RootRebuildAligned(OverfullRoot()), 50).Some?
  {
    OverfullRootOrdered();
    assert 50 in multiset(OverfullRoot().children[3].values);
    RootRebuildAlignedSearch(OverfullRoot(), 50);
  }

  // ---------------------------------------------------------------------
  // split(None) with a duplicate median

  /** Inserting 2 into the leaf root `[1, 2]` with fanout 3: `split(None)`
      cuts `[1, 2, 2]` into `[1]`, 2 and `[2]`, and `add_node` puts the
      sibling `[2]` first, since the median is not less than its last key. */
  lemma DuplicateMedianTrace()
    ensures TreeInsert(Some(Node([1, 2], [])), 2, 3) == Node([2], [Node([2], []), Node([1], [])])
  {
    DuplicateOverflows();
    DuplicateHalves();
  }

  lemma DuplicateOverflows()
    ensures TreeInsert(Some(Node([1, 2], [])), 2, 3) == SplitRoot(Node([1, 2, 2], []))
  {
    assert Sorted([1, 2, 2]) && multiset([1, 2, 2]) == multiset([1, 2]) + multiset{2};
    LeafRootInsertIs(Node([1, 2], []), 2, 3, [1, 2, 2]);
  }

  lemma DuplicateHalves()
    ensures SplitRoot(Node([1, 2, 2], [])) == Node([2], [Node([2], []), Node([1], [])])
  {
    assert [1, 2, 2] == [1] + [2] + [2];
    SplitHalvesIs(Node([1, 2, 2], []), [1], 2, [2]);
  }

  /** Afterwards the stored key 1 sits to the right of the separator 2,
      `search(1)` is sent to `[2]` and misses it, and the ordering is lost. */
  lemma DuplicateMedianMisses()
    ensures var t := TreeInsert(Some(Node([1, 2], [])), 2, 3);
      1 in AllKeys(t) && SearchSafe(t, 1) && SearchRoot(t, 1).None? && !Ordered(t)
  {
    DuplicateMedianTrace();
    var t := Node([2], [Node([2], []), Node([1], [])]);
    assert 1 in AllKeys(t.children[1]);
    KeysOfElement(t.children, 1);
    assert !ChildInRange(t, 1);
  }

  /** A leaf with sorted keys is ordered. */
  lemma SortedLeafOrdered(n: Node)
    requires n.IsLeaf() && Sorted(n.values)
    ensures Ordered(n)
  {
    assert Complete(n);
  }

  /** With the aligned split the same insertion keeps the halves in key
      order, and `search` finds 1 and 2 and nothing else. */
  lemma DuplicateMedianAligned(x: int)
    ensures DescentSafe(Node([1, 2], []), 2)
    ensures var t := TreeInsertAligned(Some(Node([1, 2], [])), 2, 3);
      SearchSafe(t, x) && (SearchRoot(t, x).Some? <==> x in [1, 2])
  {
    var n := Node([1, 2], []);
    SortedLeafOrdered(n);
    assert x in [1, 2] <==> x in AllKeys(n) by {
      assert AllKeys(n) == multiset([1, 2]);
    }
    TreeInsertAlignedSearch(Some(n), 2, 3, x);
  }

  // ---------------------------------------------------------------------
  // split(parent) of an internal child

  /** An ordered tree of fanout 3, built directly, whose inner node
      `[10, 30]` and middle leaf `[15, 25]` are both full. */
  function DeepTree(): Node
  {
    Node([100], [Node([10, 30], [Node([5], []), Node([15, 25], []), Node([35], [])]), Node([200], [])])
  }

  lemma DeepTreeOrdered()
    ensures Ordered(DeepTree())
  {
    var leaf := Node([200], []);
    SortedLeafOrdered(leaf);
    assert AllKeys(leaf) == multiset([200]);
    DeepInnerOrdered();
    DeepInnerBelow();
    OrderedJoin(100, DeepTree().children[0], leaf);
  }

  lemma DeepInnerOrdered()
    ensures Ordered(DeepTree().children[0])
  {
    var c := DeepTree().children[0];
    assert |c.children| == 3 && |c.values| == 2;
    forall i | 0 <= i < |c.children| ensures ChildInRange(c, i) && Ordered(c.children[i]) {
      if i == 0 {
        LeafInRange(c, 0, [5]);
      } else if i == 1 {
        LeafInRange(c, 1, [15, 25]);
      } else {
        LeafInRange(c, 2, [35]);
      }
    }
    assert Separated(c) && Complete(c);
  }

  lemma DeepInnerBelow()
    ensures forall x :: x in AllKeys(DeepTree().children[0]) ==> x <= 35
  {
    var c := DeepTree().children[0];
    var a, b, d := c.children[0], c.children[1], c.children[2];
    KeysOfThree(a, b, d);
    assert c.children == [a, b, d];
    assert AllKeys(a) == multiset([5]) && AllKeys(b) == multiset([15, 25]) && AllKeys(d) == multiset([35]);
    forall x | x in AllKeys(c) ensures x <= 35 {
      assert x in multiset([10, 30]) || x in multiset([5]) || x in multiset([15, 25]) || x in multiset([35]);
    }
  }

  lemma KeysOfThree(a: Node, b: Node, d: Node)
    ensures KeysOf([a, b, d]) == AllKeys(a) + AllKeys(b) + AllKeys(d)
  {
    assert [a] + [b] + [d] == [a, b, d];
    KeysOfAppend([a] + [b], [d]);
    KeysOfAppend([a], [b]);
    KeysOfSingle(a);
    KeysOfSingle(b);
    KeysOfSingle(d);
  }

  /** The leaf `[15, 20, 25]` is split into `[10, 30]`, which becomes
      `[10, 20, 30]` over four leaves. */
  lemma DeepInnerSplit()
    ensures var c := DeepTree().children[0];
      DescentSafe(c, 20) &&
      InsertDescend(c, 20, 2) == Node([10, 20, 30], [Node([5], []), Node([15], []), Node([25], []), Node([35], [])])
  {
    DeepInnerDescends();
    DeepInnerSplits();
  }

  lemma DeepInnerDescends()
    ensures var c := DeepTree().children[0];
      DescentSafe(c, 20) &&
      InsertDescend(c, 20, 2) == SplitChild(Node([10, 30], [Node([5], []), Node([15, 20, 25], []), Node([35], [])]), 1)
  {
    var c := DeepTree().children[0];
    assert c.(children := c.children[1 := Node([15, 20, 25], [])]) ==
      Node([10, 30], [Node([5], []), Node([15, 20, 25], []), Node([35], [])]);
    assert Sorted([15, 20, 25]) && multiset([15, 20, 25]) == multiset([15, 25]) + multiset{20};
    DescendAndSplit(c, 20, 2, 1, [15, 20, 25]);
  }

  lemma DeepInnerSplits()
    ensures SplitChild(Node([10, 30], [Node([5], []), Node([15, 20, 25], []), Node([35], [])]), 1) ==
      Node([10, 20, 30], [Node([5], []), Node([15], []), Node([25], []), Node([35], [])])
  {
    var c1 := Node([10, 30], [Node([5], []), Node([15, 20, 25], []), Node([35], [])]);
    var kept := c1.children[1 := Node([15], [])];
    assert kept[..2] + [Node([25], [])] + kept[2..] ==
      [Node([5], []), Node([15], []), Node([25], []), Node([35], [])];
    assert [15, 20, 25] == [15] + [20] + [25];
    assert Sorted([10, 20, 30]) && multiset([10, 20, 30]) == multiset([10, 30]) + multiset{20};
    assert FirstNotLess([10, 20, 30], 25) == 2;
    SplitChildIs(c1, 1, [15], 20, [25], [10, 20, 30], 2);
  }

  /** What `insert(20)` leaves: `split(parent)` of the overfull inner node
      keeps all four leaves under `[10]` and gives the sibling `[30]` none. */
  function DeepTreeAfterTwenty(): Node
  {
    Node([20, 100], [Node([10], [Node([5], []), Node([15], []), Node([25], []), Node([35], [])]),
                     Node([30], []), Node([200], [])])
  }

  /** The inner node after the leaf split, overfull. */
  function DeepInnerAfterTwenty(): Node
  {
    Node([10, 20, 30], [Node([5], []), Node([15], []), Node([25], []), Node([35], [])])
  }

  lemma DeepOuterSplit()
    ensures DescentSafe(DeepTree(), 20)
    ensures TreeInsert(Some(DeepTree()), 20, 3) == DeepTreeAfterTwenty()
  {
    DeepOuterDescends();
    DeepOuterSplits();
  }

  lemma DeepOuterDescends()
    ensures DescentSafe(DeepTree(), 20)
    ensures InsertDescend(DeepTree(), 20, 2) == SplitChild(Node([100], [DeepInnerAfterTwenty(), Node([200], [])]), 0)
  {
    var t := DeepTree();
    assert t.(children := t.children[0 := DeepInnerAfterTwenty()]) == Node([100], [DeepInnerAfterTwenty(), Node([200], [])]);
    DeepInnerSplit();
    DescendThroughSplit(t, 20, 2, 0, DeepInnerAfterTwenty());
  }

  lemma DeepOuterSplits()
    ensures SplitChild(Node([100], [DeepInnerAfterTwenty(), Node([200], [])]), 0) == DeepTreeAfterTwenty()
  {
    var c1 := DeepInnerAfterTwenty();
    var p1 := Node([100], [c1, Node([200], [])]);
    var kept := p1.children[0 := c1.(values := [10])];
    assert kept[..1] + [Node([30], [])] + kept[1..] == DeepTreeAfterTwenty().children;
    assert [10, 20, 30] == [10] + [20] + [30];
    assert Sorted([20, 100]) && multiset([20, 100]) == multiset([100]) + multiset{20};
    assert FirstNotLess([20, 100], 30) == 1;
    SplitChildIs(p1, 0, [10], 20, [30], [20, 100], 1);
  }

  /** As written, `split(parent)` on an internal child loses keys for
      `search`: after inserting 20 into the ordered `DeepTree()`, the stored
      key 25 sits under `[10]`, `search(25)` is sent to `[30]` and misses
      it, and the tree is no longer ordered. */
  lemma InternalSplitLosesKeys()
    ensures Ordered(DeepTree()) && DescentSafe(DeepTree(), 20)
    ensures var t := TreeInsert(Some(DeepTree()), 20, 3);
      25 in AllKeys(t) && SearchSafe(t, 25) && SearchRoot(t, 25).None? && !Ordered(t)
  {
    DeepTreeOrdered();
    DeepOuterSplit();
    AfterTwentyHolds();
    AfterTwentyMisses();
  }

  lemma AfterTwentyHolds()
    ensures 25 in AllKeys(DeepTreeAfterTwenty())
  {
    var t := DeepTreeAfterTwenty();
    var l := t.children[0];
    assert 25 in AllKeys(l.children[2]);
    KeysOfElement(l.children, 2);
    KeysOfElement(t.children, 0);
  }

  lemma AfterTwentyMisses()
    ensures var t := DeepTreeAfterTwenty();
      SearchSafe(t, 25) && SearchRoot(t, 25).None? && !Ordered(t)
  {
    var t := DeepTreeAfterTwenty();
    assert FirstNotLess(t.values, 25) == 1;
    assert SearchFrom(t.children[1], 25).None?;
    assert !Complete(t.children[0]);
  }

  /** With the aligned splits the same insertion keeps the tree ordered,
      and `search` finds exactly the stored keys, 25 among them. */
  lemma InternalSplitAligned(x: int)
    ensures DescentSafe(DeepTree(), 20)
    ensures var t := TreeInsertAligned(Some(DeepTree()), 20, 3);
      Ordered(t) && SearchSafe(t, x) && (SearchRoot(t, x).Some? <==> x in AllKeys(DeepTree()) + multiset{20})
  {
    DeepTreeOrdered();
    OrderedDescentSafe(DeepTree(), 20);
    TreeInsertAlignedOrdered(Some(DeepTree()), 20, 3);
    TreeInsertAlignedSearch(Some(DeepTree()), 20, 3, x);
  }
}
