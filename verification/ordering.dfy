/** The ordering invariant of a B-tree and what it gives: a search that
    finds every stored key, and an inorder walk that lists every key in
    sorted order. The operations as written do not maintain it in every
    case (see `RootRebuild` and `SplitChild`), so it appears here as a
    hypothesis, never as a promise of `insert`; the corrected splits keep it. */
module Ordering {
  import opened Keys
  import opened Nodes
  import opened BTrees

  /** Every internal node has one child more than it has keys, all the way
      down; then the inorder walk reaches every child. */
  ghost predicate Complete(n: Node)
    ensures Complete(n) ==> Traversable(n)
  {
    n.IsLeaf() ||
    (|n.children| == |n.values| + 1 && forall i :: 0 <= i < |n.children| ==> Complete(n.children[i]))
  }

  /** Every key stored below child `i` lies between the node's keys `i - 1`
      and `i`. */
  ghost predicate ChildInRange(n: Node, i: nat)
    requires i < |n.children|
  {
    forall x :: x in AllKeys(n.children[i]) ==>
      (0 < i <= |n.values| ==> n.values[i - 1] <= x) && (i < |n.values| ==> x <= n.values[i])
  }

  /** The B-tree ordering: a complete shape, sorted keys in every node,
      and every subtree between its separators. */
  ghost predicate Ordered(n: Node)
  {
    Complete(n) && Sorted(n.values) && Separated(n) &&
    forall i :: 0 <= i < |n.children| ==> Ordered(n.children[i])
  }

  /** Every subtree of an ordered node lies between its separators. */
  ghost predicate Separated(n: Node)
  {
    forall i :: 0 <= i < |n.children| ==> ChildInRange(n, i)
  }

  /** The index of a child whose subtree holds `v`. */
  ghost function ChildHolding(cs: seq<Node>, v: int): (i: nat)
    requires v in KeysOf(cs)
    ensures i < |cs| && v in AllKeys(cs[i])
  {
    if v in AllKeys(cs[0]) then 0 else 1 + ChildHolding(cs[1..], v)
  }

  // ---------------------------------------------------------------------
  // Search

  /** In an ordered tree the scan route leads to every stored key. */
  lemma {:induction false} SearchComplete(n: Node, v: int)
    requires Ordered(n) && v in AllKeys(n)
    ensures SearchSafe(n, v) && SearchFrom(n, v).Some?
    decreases n
  {
    if v !in n.values {
      var i := ChildHolding(n.children, v);
      assert ChildInRange(n, i);
      forall j | 0 <= j < i ensures n.values[j] < v {
        assert n.values[j] <= n.values[i - 1];
        assert n.values[j] != v;
      }
      FirstNotLessUnique(n.values, v, i);
      SearchComplete(n.children[i], v);
    }
  }

  /** On an ordered tree the scan route of `search` never runs past a child
      list, whether or not the tree holds the key. */
  lemma {:induction false} OrderedSearchSafe(n: Node, v: int)
    requires Ordered(n)
    ensures SearchSafe(n, v)
    decreases n
  {
    if v !in n.values && !n.IsLeaf() {
      var idx := FirstNotLess(n.values, v);
      assert Ordered(n.children[idx]);
      OrderedSearchSafe(n.children[idx], v);
    }
  }

  /** On an ordered tree `search` never crashes, and finds a key exactly
      when the tree holds it. */
  lemma SearchFindsExactlyStoredKeys(root: Node, v: int)
    requires Ordered(root)
    ensures SearchSafe(root, v) && (SearchRoot(root, v).Some? <==> v in AllKeys(root))
  {
    OrderedSearchSafe(root, v);
    if v in AllKeys(root) {
      SearchComplete(root, v);
    } else if SearchRoot(root, v).Some? {
      SearchSound(root, v);
    }
  }

  // ---------------------------------------------------------------------
  // Inorder walk

  lemma {:induction false} KeysOfPairsAppend(a: seq<(int, int)>, b: seq<(int, int)>)
    ensures KeysOfPairs(a + b) == KeysOfPairs(a) + KeysOfPairs(b)
  {
    if a == [] {
      assert a + b == b;
    } else {
      assert (a + b)[1..] == a[1..] + b;
      KeysOfPairsAppend(a[1..], b);
    }
  }

  /** The keys below the first `i` children. */
  lemma KeysOfPrefix(cs: seq<Node>, i: nat)
    requires 0 < i <= |cs|
    ensures KeysOf(cs[..i]) == KeysOf(cs[..i - 1]) + AllKeys(cs[i - 1])
  {
    assert cs[..i] == cs[..i - 1] + [cs[i - 1]];
    KeysOfAppend(cs[..i - 1], [cs[i - 1]]);
    KeysOfSingle(cs[i - 1]);
  }

  /** One step of the walk's loop, counted: the keys of `prev`, then of
      the child walk `below`, then the node's own key. */
  lemma StepKeys(prev: seq<(int, int)>, below: seq<(int, int)>, key: (int, int),
                 vs: seq<int>, ks: multiset<int>, kb: multiset<int>)
    requires multiset(KeysOfPairs(prev)) == multiset(vs) + ks
    requires multiset(KeysOfPairs(below)) == kb
    ensures multiset(KeysOfPairs(prev + below + [key])) == multiset(vs + [key.0]) + (ks + kb)
  {
    KeysOfPairsAppend(prev + below, [key]);
    KeysOfPairsAppend(prev, below);
    assert KeysOfPairs([key]) == [key.0];
    var total := multiset(KeysOfPairs(prev + below + [key]));
    assert total == multiset(KeysOfPairs(prev)) + kb + multiset([key.0]);
    forall x ensures total[x] == (multiset(vs + [key.0]) + (ks + kb))[x] {
    }
  }

  lemma ConcatKeys(front: seq<(int, int)>, back: seq<(int, int)>,
                   a: multiset<int>, b: multiset<int>, c: multiset<int>)
    requires multiset(KeysOfPairs(front)) == a + b
    requires multiset(KeysOfPairs(back)) == c
    ensures multiset(KeysOfPairs(front + back)) == a + (b + c)
  {
    KeysOfPairsAppend(front, back);
    var total := multiset(KeysOfPairs(front + back));
    forall x ensures total[x] == (a + (b + c))[x] {
    }
  }

  /** One step of the walk's loop over a leaf, counted. */
  lemma LeafStepKeys(n: Node, depth: int, i: nat)
    requires n.IsLeaf() && 0 < i <= |n.values|
    requires multiset(KeysOfPairs(InorderUpTo(n, depth, i - 1))) == multiset(n.values[..i - 1])
    ensures multiset(KeysOfPairs(InorderUpTo(n, depth, i))) == multiset(n.values[..i])
  {
    var prev := InorderUpTo(n, depth, i - 1);
    var key := (n.values[i - 1], depth);
    SlicePlusOne(n.values, i - 1);
    assert InorderUpTo(n, depth, i) == prev + [key] by {
      assert InorderUpTo(n, depth, i) == prev + [] + [key];
      assert prev + [] == prev;
    }
    PairStepKeys(prev, key, n.values[..i - 1]);
  }

  /** Appending one pair to a walk appends its key to the walk's keys. */
  lemma PairStepKeys(prev: seq<(int, int)>, key: (int, int), vs: seq<int>)
    requires multiset(KeysOfPairs(prev)) == multiset(vs)
    ensures multiset(KeysOfPairs(prev + [key])) == multiset(vs + [key.0])
  {
    KeysOfPairsAppend(prev, [key]);
    assert KeysOfPairs([key]) == [key.0];
  }

  /** On a complete subtree the walk lists every stored key exactly as
      often as it is stored. */
  lemma {:induction false} InorderKeys(n: Node, depth: int)
    requires Complete(n)
    ensures multiset(KeysOfPairs(Inorder(n, depth))) == AllKeys(n)
    decreases n, |n.values| + 1
  {
    var nv := |n.values|;
    if n.IsLeaf() {
      LeafWalkKeys(n, depth, nv);
      LeafInorderKeys(n, depth);
    } else {
      InternalWalkKeys(n, depth, nv);
      InorderKeys(n.children[nv], depth + 1);
      InternalInorderKeys(n, depth);
    }
  }

  /** The walk of a leaf is its loop over all keys. */
  lemma LeafInorderKeys(n: Node, depth: int)
    requires n.IsLeaf()
    requires multiset(KeysOfPairs(InorderUpTo(n, depth, |n.values|))) == multiset(n.values[..|n.values|])
    ensures multiset(KeysOfPairs(Inorder(n, depth))) == AllKeys(n)
  {
    assert n.values[..|n.values|] == n.values;
    assert Inorder(n, depth) == InorderUpTo(n, depth, |n.values|);
  }

  /** The walk of a complete internal node is its loop over all keys
      followed by the walk of its last child. */
  lemma InternalInorderKeys(n: Node, depth: int)
    requires Complete(n) && !n.IsLeaf()
    requires multiset(KeysOfPairs(InorderUpTo(n, depth, |n.values|))) ==
      multiset(n.values[..|n.values|]) + KeysOf(n.children[..|n.values|])
    requires multiset(KeysOfPairs(Inorder(n.children[|n.values|], depth + 1))) == AllKeys(n.children[|n.values|])
    ensures multiset(KeysOfPairs(Inorder(n, depth))) == AllKeys(n)
  {
    var nv := |n.values|;
    var front := InorderUpTo(n, depth, nv);
    var last := n.children[nv];
    var back := Inorder(last, depth + 1);
    InorderOfInternal(n, depth);
    assert n.values[..nv] == n.values;
    ConcatKeys(front, back, multiset(n.values), KeysOf(n.children[..nv]), AllKeys(last));
    KeysOfLastChild(n);
  }

  lemma KeysOfLastChild(n: Node)
    requires |n.children| == |n.values| + 1
    ensures AllKeys(n) ==
      multiset(n.values) + (KeysOf(n.children[..|n.values|]) + AllKeys(n.children[|n.values|]))
  {
    KeysOfPrefix(n.children, |n.values| + 1);
    assert n.children[..|n.values| + 1] == n.children;
  }

  lemma InorderOfInternal(n: Node, depth: int)
    requires Traversable(n) && !n.IsLeaf() && |n.values| < |n.children|
    ensures Inorder(n, depth) == InorderUpTo(n, depth, |n.values|) + Inorder(n.children[|n.values|], depth + 1)
  {
  }

  /** The keys the loop of the walk over a leaf yields for key indices below `i`. */
  lemma {:induction false} LeafWalkKeys(n: Node, depth: int, i: nat)
    requires n.IsLeaf() && i <= |n.values|
    ensures multiset(KeysOfPairs(InorderUpTo(n, depth, i))) == multiset(n.values[..i])
  {
    if i > 0 {
      LeafWalkKeys(n, depth, i - 1);
      LeafStepKeys(n, depth, i);
    } else {
      assert n.values[..0] == [] && InorderUpTo(n, depth, 0) == [] && KeysOfPairs([]) == [];
    }
  }

  /** The keys the loop of the walk over an internal node yields for key
      indices below `i`: those keys and everything below the first `i`
      children. */
  lemma {:induction false} InternalWalkKeys(n: Node, depth: int, i: nat)
    requires Complete(n) && !n.IsLeaf() && i <= |n.values|
    ensures multiset(KeysOfPairs(InorderUpTo(n, depth, i))) == multiset(n.values[..i]) + KeysOf(n.children[..i])
    decreases n, i
  {
    if i > 0 {
      InternalWalkKeys(n, depth, i - 1);
      InorderKeys(n.children[i - 1], depth + 1);
      InternalStepKeys(n, depth, i);
    } else {
      assert n.values[..0] == [] && n.children[..0] == [];
      assert InorderUpTo(n, depth, 0) == [] && KeysOfPairs([]) == [] && KeysOf([]) == multiset{};
    }
  }

  /** One step of the walk's loop over an internal node, counted. */
  lemma InternalStepKeys(n: Node, depth: int, i: nat)
    requires Traversable(n) && !n.IsLeaf() && 0 < i <= |n.values|
    requires multiset(KeysOfPairs(InorderUpTo(n, depth, i - 1))) ==
      multiset(n.values[..i - 1]) + KeysOf(n.children[..i - 1])
    requires multiset(KeysOfPairs(Inorder(n.children[i - 1], depth + 1))) == AllKeys(n.children[i - 1])
    ensures multiset(KeysOfPairs(InorderUpTo(n, depth, i))) == multiset(n.values[..i]) + KeysOf(n.children[..i])
  {
    var prev := InorderUpTo(n, depth, i - 1);
    var c := n.children[i - 1];
    SlicePlusOne(n.values, i - 1);
    KeysOfPrefix(n.children, i);
    StepKeys(prev, Inorder(c, depth + 1), (n.values[i - 1], depth), n.values[..i - 1],
             KeysOf(n.children[..i - 1]), AllKeys(c));
    assert InorderUpTo(n, depth, i) == prev + Inorder(c, depth + 1) + [(n.values[i - 1], depth)];
  }

  lemma SortedAppend(a: seq<int>, b: seq<int>)
    requires Sorted(a) && Sorted(b)
    requires forall x, y :: x in a && y in b ==> x <= y
    ensures Sorted(a + b)
  {
    forall i, j | 0 <= i < j < |a + b| ensures (a + b)[i] <= (a + b)[j] {
      if i < |a| && j >= |a| {
        assert (a + b)[i] in a && (a + b)[j] in b;
      }
    }
  }

  /** A key listed by the walk of a complete subtree is stored in it. */
  lemma InorderKeyStored(n: Node, depth: int, x: int)
    requires Complete(n) && x in KeysOfPairs(Inorder(n, depth))
    ensures x in AllKeys(n)
  {
    InorderKeys(n, depth);
    assert x in multiset(KeysOfPairs(Inorder(n, depth)));
  }

  /** On an ordered subtree the walk lists the keys in sorted order. */
  lemma {:induction false} InorderSorted(n: Node, depth: int)
    requires Ordered(n)
    ensures Sorted(KeysOfPairs(Inorder(n, depth)))
    decreases n, |n.values| + 1, 2
  {
    var nv := |n.values|;
    InorderUpToSorted(n, depth, nv);
    if n.IsLeaf() {
      assert Inorder(n, depth) == InorderUpTo(n, depth, nv);
    } else {
      var last := n.children[nv];
      var a, b := KeysOfPairs(InorderUpTo(n, depth, nv)), KeysOfPairs(Inorder(last, depth + 1));
      InorderSorted(last, depth + 1);
      KeysOfPairsAppend(InorderUpTo(n, depth, nv), Inorder(last, depth + 1));
      assert ChildInRange(n, nv);
      forall x, y | x in a && y in b ensures x <= y {
        InorderKeyStored(last, depth + 1, y);
      }
      SortedAppend(a, b);
    }
  }

  /** One step of the walk's loop keeps its output sorted. */
  lemma SortedStep(a: seq<int>, b: seq<int>, v: int)
    requires Sorted(a) && Sorted(b)
    requires forall x, y :: x in a && y in b ==> x <= y
    requires forall x :: x in a ==> x <= v
    requires forall y :: y in b ==> y <= v
    ensures Sorted(a + b + [v])
    ensures forall x :: x in a + b + [v] ==> x <= v
  {
    SortedAppend(a, b);
    SortedAppend(a + b, [v]);
  }

  /** The keys of the walk below child `j` of an ordered node lie between
      the separators around that child. */
  lemma ChildWalkBounds(n: Node, d: int, j: nat)
    requires Ordered(n) && !n.IsLeaf() && j < |n.values|
    ensures forall y :: y in KeysOfPairs(Inorder(n.children[j], d)) ==>
      (j > 0 ==> n.values[j - 1] <= y) && y <= n.values[j]
  {
    assert ChildInRange(n, j);
    forall y | y in KeysOfPairs(Inorder(n.children[j], d))
      ensures (j > 0 ==> n.values[j - 1] <= y) && y <= n.values[j]
    {
      InorderKeyStored(n.children[j], d, y);
    }
  }

  /** The loop's output so far is sorted and bounded by the last key passed. */
  lemma {:induction false} InorderUpToSorted(n: Node, depth: int, i: nat)
    requires Ordered(n) && i <= |n.values|
    ensures Sorted(KeysOfPairs(InorderUpTo(n, depth, i)))
    ensures i > 0 ==> forall x :: x in KeysOfPairs(InorderUpTo(n, depth, i)) ==> x <= n.values[i - 1]
    decreases n, i, 1
  {
    if i > 0 {
      InorderUpToSorted(n, depth, i - 1);
      WalkSortedStep(n, depth, i, KeysOfPairs(InorderUpTo(n, depth, i - 1)));
    }
  }

  /** One step of the walk's loop, sorted: the output so far is bounded by
      the previous key, which bounds the next child's walk from below. */
  lemma WalkSortedStep(n: Node, depth: int, i: nat, a: seq<int>)
    requires Ordered(n) && 0 < i <= |n.values|
    requires a == KeysOfPairs(InorderUpTo(n, depth, i - 1))
    requires Sorted(a) && (i > 1 ==> forall x :: x in a ==> x <= n.values[i - 2])
    ensures Sorted(KeysOfPairs(InorderUpTo(n, depth, i)))
    ensures forall x :: x in KeysOfPairs(InorderUpTo(n, depth, i)) ==> x <= n.values[i - 1]
    decreases n, i, 0
  {
    var prev := InorderUpTo(n, depth, i - 1);
    var below := if n.IsLeaf() then [] else Inorder(n.children[i - 1], depth + 1);
    var b := KeysOfPairs(below);
    var v := n.values[i - 1];
    assert Sorted(b) && forall y :: y in b ==> (i > 1 ==> n.values[i - 2] <= y) && y <= v by {
      if n.IsLeaf() {
        assert b == [];
      } else {
        InorderSorted(n.children[i - 1], depth + 1);
        ChildWalkBounds(n, depth + 1, i - 1);
      }
    }
    assert forall x :: x in a ==> x <= v by {
      if i > 1 {
        assert n.values[i - 2] <= v;
      } else {
        assert a == [];
      }
    }
    assert forall x, y :: x in a && y in b ==> x <= y by {
      if i == 1 {
        assert a == [];
      }
    }
    UpToStep(n, depth, i);
    PairsStepSorted(prev, below, (v, depth));
  }

  /** The walk up to key `i` is the walk up to key `i - 1`, then the walk
      of the child left of key `i - 1`, then that key. */
  lemma UpToStep(n: Node, depth: int, i: nat)
    requires Traversable(n) && 0 < i <= |n.values|
    ensures InorderUpTo(n, depth, i) ==
      InorderUpTo(n, depth, i - 1) +
      (if n.IsLeaf() then [] else Inorder(n.children[i - 1], depth + 1)) +
      [(n.values[i - 1], depth)]
  {
  }

  /** Appending a child walk and a key to a walk keeps its keys sorted when
      they fit in that order. */
  lemma PairsStepSorted(prev: seq<(int, int)>, below: seq<(int, int)>, key: (int, int))
    requires Sorted(KeysOfPairs(prev)) && Sorted(KeysOfPairs(below))
    requires forall x, y :: x in KeysOfPairs(prev) && y in KeysOfPairs(below) ==> x <= y
    requires forall x :: x in KeysOfPairs(prev) ==> x <= key.0
    requires forall y :: y in KeysOfPairs(below) ==> y <= key.0
    ensures Sorted(KeysOfPairs(prev + below + [key]))
    ensures forall x :: x in KeysOfPairs(prev + below + [key]) ==> x <= key.0
  {
    SortedStep(KeysOfPairs(prev), KeysOfPairs(below), key.0);
    KeysOfPairsAppend(prev + below, [key]);
    KeysOfPairsAppend(prev, below);
    assert KeysOfPairs([key]) == [key.0];
  }

  /** The walk never visits a child past `children[len(values)]`: cutting
      such children off leaves the walk as it was. */
  lemma {:induction false} InorderIgnoresExtraChildren(n: Node, depth: int)
    requires Traversable(n) && |n.children| > |n.values| + 1
    ensures Traversable(n.(children := n.children[..|n.values| + 1]))
    ensures Inorder(n, depth) == Inorder(n.(children := n.children[..|n.values| + 1]), depth)
  {
    var t := n.(children := n.children[..|n.values| + 1]);
    assert forall i :: 0 <= i < |t.children| ==> t.children[i] == n.children[i];
    InorderUpToSame(n, t, depth, |n.values|);
  }

  lemma {:induction false} InorderUpToSame(n: Node, t: Node, depth: int, i: nat)
    requires Traversable(n) && Traversable(t) && i <= |n.values|
    requires t.values == n.values && !n.IsLeaf() && !t.IsLeaf()
    requires forall j :: 0 <= j < i ==> t.children[j] == n.children[j]
    ensures InorderUpTo(n, depth, i) == InorderUpTo(t, depth, i)
  {
    if i > 0 {
      InorderUpToSame(n, t, depth, i - 1);
    }
  }
}
