/** The splits as a B-tree means them, and `insert` built from them. A node
    that is cut shares its children out with its keys: the lower half keeps
    the keys before the median and the children up to and including child
    `mid`, the upper half the rest, and the two halves take the node's place
    in key order. With these, `insert` keeps every key, the ordering and the
    bound on the keys per node, so `search` finds every key ever inserted. */
module Corrected {
  import opened Keys
  import opened Nodes
  import opened BTrees
  import opened Ordering

  // ---------------------------------------------------------------------
  // The aligned cut of a node

  /** The lower half, the median and the upper half of a node, with the
      children cut after child `mid` (slices clamp at the end, so a leaf
      gives two leaves). */
  function SplitAligned(n: Node): (h: (Node, int, Node))
    requires n.values != []
    ensures |h.0.values| == |n.values| / 2
    ensures h.0.values + [h.1] + h.2.values == n.values
    ensures h.0.children + h.2.children == n.children
    ensures n.IsLeaf() ==> h.0.IsLeaf() && h.2.IsLeaf()
    ensures |n.children| == |n.values| + 1 ==>
      |h.0.children| == |h.0.values| + 1 && |h.2.children| == |h.2.values| + 1
  {
    var mid := |n.values| / 2;
    var cut := Min(mid + 1, |n.children|);
    assert n.values == n.values[..mid] + [n.values[mid]] + n.values[mid + 1..];
    assert n.children == n.children[..cut] + n.children[cut..];
    (Node(n.values[..mid], n.children[..cut]), n.values[mid], Node(n.values[mid + 1..], n.children[cut..]))
  }

  /** The cut neither loses nor invents a key. */
  lemma SplitAlignedKeys(n: Node)
    requires n.values != []
    ensures var h := SplitAligned(n);
      AllKeys(h.0) + multiset{h.1} + AllKeys(h.2) == AllKeys(n)
  {
    var h := SplitAligned(n);
    var r := Node([h.1], [h.0, h.2]);
    RegroupedKeys(n, r);
    PairKeys([h.1], h.0, h.2);
    assert multiset([h.1]) == multiset{h.1};
  }

  /** Every key of either half is a key of the node. */
  lemma SplitAlignedWithin(n: Node)
    requires n.values != []
    ensures var h := SplitAligned(n);
      (forall x :: x in AllKeys(h.0) ==> x in AllKeys(n)) &&
      (forall x :: x in AllKeys(h.2) ==> x in AllKeys(n))
  {
    SplitAlignedKeys(n);
  }

  /** Both halves of an ordered node are ordered, everything in the lower
      half is at most the median and everything in the upper half at
      least the median. */
  lemma SplitAlignedOrdered(n: Node)
    requires Ordered(n) && n.values != []
    ensures var h := SplitAligned(n);
      Ordered(h.0) && Ordered(h.2) &&
      (forall x :: x in AllKeys(h.0) ==> x <= h.1) &&
      (forall x :: x in AllKeys(h.2) ==> h.1 <= x)
  {
    var h := SplitAligned(n);
    var mid := |n.values| / 2;
    assert h.0.values == n.values[..mid] && h.1 == n.values[mid] && h.2.values == n.values[mid + 1..] by {
      assert h.0.values + [h.1] + h.2.values == n.values;
      assert |h.0.values| == mid;
    }
    if n.IsLeaf() {
      LeafHalvesOrdered(n, h.0, h.2, mid);
    } else {
      assert h.0.children == n.children[..mid + 1] && h.2.children == n.children[mid + 1..] by {
        assert h.0.children + h.2.children == n.children;
        assert |h.0.children| == mid + 1;
      }
      LeftOrdered(n, h.0, mid);
      RightOrdered(n, h.2, mid);
      LeftBelowMedian(n, h.0, mid);
      RightAboveMedian(n, h.2, mid);
    }
  }

  /** The halves of a sorted leaf. */
  lemma LeafHalvesOrdered(n: Node, l: Node, g: Node, mid: nat)
    requires Sorted(n.values) && mid < |n.values|
    requires l == Node(n.values[..mid], []) && g == Node(n.values[mid + 1..], [])
    ensures Ordered(l) && Ordered(g)
    ensures forall x :: x in AllKeys(l) ==> x <= n.values[mid]
    ensures forall x :: x in AllKeys(g) ==> n.values[mid] <= x
  {
    assert AllKeys(l) == multiset(l.values);
    assert AllKeys(g) == multiset(g.values);
    forall x | x in AllKeys(l) ensures x <= n.values[mid] {
      assert x in n.values[..mid];
    }
    forall x | x in AllKeys(g) ensures n.values[mid] <= x {
      RightValueAboveMedian(n.values, mid, x);
    }
  }

  /** Keys stored in a node are either its own or below one of its children. */
  lemma KeyPlace(n: Node, x: int)
    requires x in AllKeys(n)
    ensures x in n.values || (n.children != [] && x in AllKeys(n.children[ChildHolding(n.children, x)]))
  {
  }

  /** Everything the aligned left node holds is at most the median. */
  lemma LeftBelowMedian(n: Node, l: Node, mid: nat)
    requires Sorted(n.values) && Separated(n) && mid < |n.values| < |n.children|
    requires l.values == n.values[..mid] && l.children == n.children[..mid + 1]
    ensures forall x :: x in AllKeys(l) ==> x <= n.values[mid]
  {
    forall x | x in AllKeys(l) ensures x <= n.values[mid] {
      KeyPlace(l, x);
      if x !in l.values {
        LeftChildKeyBelowMedian(n, l, mid, x);
      } else {
        assert x in n.values[..mid];
      }
    }
  }

  lemma LeftChildKeyBelowMedian(n: Node, l: Node, mid: nat, x: int)
    requires Sorted(n.values) && Separated(n) && mid < |n.values| < |n.children|
    requires l.children == n.children[..mid + 1]
    requires x in KeysOf(l.children)
    ensures x <= n.values[mid]
  {
    var i := ChildHolding(l.children, x);
    assert l.children[i] == n.children[i];
    LeftChildBelowMedian(n, mid, i, x);
  }

  lemma LeftChildBelowMedian(n: Node, mid: nat, i: nat, x: int)
    requires Sorted(n.values) && Separated(n) && mid < |n.values| && i <= mid && i < |n.children|
    requires x in AllKeys(n.children[i])
    ensures x <= n.values[mid]
  {
    assert ChildInRange(n, i);
    if i < mid {
      assert n.values[i] <= n.values[mid];
    }
  }

  /** Everything the aligned right node holds is at least the median. */
  lemma RightAboveMedian(n: Node, g: Node, mid: nat)
    requires Sorted(n.values) && Separated(n) && mid < |n.values| && |n.children| == |n.values| + 1
    requires g.values == n.values[mid + 1..] && g.children == n.children[mid + 1..]
    ensures forall x :: x in AllKeys(g) ==> n.values[mid] <= x
  {
    forall x | x in AllKeys(g) ensures n.values[mid] <= x {
      KeyPlace(g, x);
      if x !in g.values {
        RightChildKeyAboveMedian(n, g, mid, x);
      } else {
        RightValueAboveMedian(n.values, mid, x);
      }
    }
  }

  lemma RightValueAboveMedian(s: seq<int>, mid: nat, x: int)
    requires Sorted(s) && mid < |s| && x in s[mid + 1..]
    ensures s[mid] <= x
  {
    var t := s[mid + 1..];
    var k :| 0 <= k < |t| && t[k] == x;
    assert s[mid + 1 + k] == x;
  }

  lemma RightChildKeyAboveMedian(n: Node, g: Node, mid: nat, x: int)
    requires Sorted(n.values) && Separated(n) && mid < |n.values| && |n.children| == |n.values| + 1
    requires g.children == n.children[mid + 1..]
    requires x in KeysOf(g.children)
    ensures n.values[mid] <= x
  {
    var i := ChildHolding(g.children, x);
    assert g.children[i] == n.children[mid + 1 + i];
    RightChildAboveMedian(n, mid, mid + 1 + i, x);
  }

  lemma RightChildAboveMedian(n: Node, mid: nat, j: nat, x: int)
    requires Sorted(n.values) && Separated(n) && mid < j < |n.children| && j <= |n.values|
    requires x in AllKeys(n.children[j])
    ensures n.values[mid] <= x
  {
    assert ChildInRange(n, j);
    assert n.values[mid] <= n.values[j - 1];
  }

  lemma LeftOrdered(n: Node, l: Node, mid: nat)
    requires Ordered(n) && !n.IsLeaf() && mid < |n.values|
    requires l.values == n.values[..mid] && l.children == n.children[..mid + 1]
    ensures Ordered(l)
  {
    forall i | 0 <= i < |l.children| ensures Ordered(l.children[i]) && ChildInRange(l, i) {
      assert l.children[i] == n.children[i];
      assert ChildInRange(n, i);
    }
  }

  lemma RightOrdered(n: Node, g: Node, mid: nat)
    requires Ordered(n) && !n.IsLeaf() && mid < |n.values|
    requires g.values == n.values[mid + 1..] && g.children == n.children[mid + 1..]
    ensures Ordered(g)
  {
    forall i | 0 <= i < |g.children| ensures Ordered(g.children[i]) && ChildInRange(g, i) {
      assert g.children[i] == n.children[mid + 1 + i];
      assert ChildInRange(n, mid + 1 + i);
    }
  }

  /** Neither half of a node with at most `k + 1` keys and bounded
      children holds more than `k` keys, and both are bounded. */
  lemma SplitAlignedBounded(n: Node, k: int)
    requires n.values != [] && |n.values| <= k + 1
    requires forall j :: 0 <= j < |n.children| ==> Bounded(n.children[j], k)
    ensures Bounded(SplitAligned(n).0, k) && Bounded(SplitAligned(n).2, k)
  {
    var h := SplitAligned(n);
    assert |h.0.values| + 1 + |h.2.values| == |n.values|;
    forall j | 0 <= j < |h.0.children| ensures Bounded(h.0.children[j], k) {
      assert h.0.children[j] == (h.0.children + h.2.children)[j];
    }
    forall j | 0 <= j < |h.2.children| ensures Bounded(h.2.children[j], k) {
      assert h.2.children[j] == (h.0.children + h.2.children)[|h.0.children| + j];
    }
  }

  // ---------------------------------------------------------------------
  // split(None): the root rebuilt over its two halves

  /** A new root holding only the median, over the two aligned halves: the
      intended result of `split(None)` for a leaf root and of the rebuild
      of an internal root in `insert`. */
  function RootRebuildAligned(n: Node): (r: Node)
    requires n.values != []
    ensures var mid := |n.values| / 2;
      r.values == [n.values[mid]] && |r.children| == 2 &&
      r.children[0].values + r.values + r.children[1].values == n.values &&
      r.children[0].children + r.children[1].children == n.children
    ensures |n.children| == |n.values| + 1 ==>
      |r.children[0].children| == |r.children[0].values| + 1 &&
      |r.children[1].children| == |r.children[1].values| + 1
  {
    var h := SplitAligned(n);
    Node([h.1], [h.0, h.2])
  }

  /** The aligned rebuild keeps every key of the tree. */
  lemma RootRebuildAlignedKeys(n: Node)
    requires n.values != []
    ensures AllKeys(RootRebuildAligned(n)) == AllKeys(n)
  {
    RegroupedKeys(n, RootRebuildAligned(n));
  }

  /** The aligned rebuild keeps an ordered tree ordered, leaf or not. */
  lemma RootRebuildAlignedOrdered(n: Node)
    requires Ordered(n) && n.values != []
    ensures Ordered(RootRebuildAligned(n))
  {
    var h := SplitAligned(n);
    SplitAlignedOrdered(n);
    OrderedJoin(h.1, h.0, h.2);
  }

  /** On a leaf with strictly increasing keys, `split(None)` as written
      already is the aligned rebuild. */
  lemma SplitRootAligned(n: Node)
    requires n.IsLeaf() && |n.values| >= 3
    requires forall i, j :: 0 <= i < j < |n.values| ==> n.values[i] < n.values[j]
    ensures SplitRoot(n) == RootRebuildAligned(n)
  {
    SplitRootDistinct(n);
    var h := SplitHalves(n);
    var a := SplitAligned(n);
    assert h.0.values == a.0.values && h.1 == a.1 && h.2.values == a.2.values by {
      assert h.0.values + [h.1] + h.2.values == a.0.values + [a.1] + a.2.values;
      assert |h.0.values| == |a.0.values|;
    }
  }

  /** Two ordered subtrees on either side of a key make an ordered node. */
  lemma OrderedJoin(med: int, l: Node, g: Node)
    requires Ordered(l) && Ordered(g)
    requires forall x :: x in AllKeys(l) ==> x <= med
    requires forall x :: x in AllKeys(g) ==> med <= x
    ensures Ordered(Node([med], [l, g]))
  {
    var r := Node([med], [l, g]);
    assert ChildInRange(r, 0) && ChildInRange(r, 1);
    assert Complete(r);
  }

  /** The aligned rebuild of a node with at most `k + 1` keys and bounded
      children is bounded. */
  lemma RootRebuildAlignedBounded(n: Node, k: int)
    requires n.values != [] && |n.values| <= k + 1 && k >= 1
    requires forall j :: 0 <= j < |n.children| ==> Bounded(n.children[j], k)
    ensures Bounded(RootRebuildAligned(n), k)
  {
    var h := SplitAligned(n);
    var r := RootRebuildAligned(n);
    SplitAlignedBounded(n, k);
    assert forall j :: 0 <= j < |r.children| ==> r.children[j] == h.0 || r.children[j] == h.2;
  }

  // ---------------------------------------------------------------------
  // split(parent): the two halves take the child's place

  /** The intended `split(parent)` of child `idx`: the median goes into the
      parent's keys at position `idx`, and the lower and upper halves take
      the child's place, at positions `idx` and `idx + 1`. */
  function SplitChildAligned(p: Node, idx: nat): (r: Node)
    requires idx < |p.children| && idx <= |p.values| && p.children[idx].values != []
    ensures |r.values| == |p.values| + 1 && |r.children| == |p.children| + 1
    ensures AllKeys(r) == AllKeys(p)
  {
    var h := SplitAligned(p.children[idx]);
    var vs := p.values[..idx] + [h.1] + p.values[idx..];
    var cs := p.children[..idx] + [h.0, h.2] + p.children[idx + 1..];
    SplitAlignedKeys(p.children[idx]);
    SplicedKeys(p, idx, h.0, h.1, h.2, vs, cs);
    Node(vs, cs)
  }

  /** Counting for `SplitChildAligned`: the child's keys are shared out
      between the two halves and the median. */
  lemma SplicedKeys(p: Node, idx: nat, l: Node, med: int, g: Node, vs: seq<int>, cs: seq<Node>)
    requires idx < |p.children| && idx <= |p.values|
    requires AllKeys(l) + multiset{med} + AllKeys(g) == AllKeys(p.children[idx])
    requires vs == p.values[..idx] + [med] + p.values[idx..]
    requires cs == p.children[..idx] + [l, g] + p.children[idx + 1..]
    ensures AllKeys(Node(vs, cs)) == AllKeys(p)
  {
    assert multiset(vs) == multiset(p.values) + multiset{med} by {
      assert p.values == p.values[..idx] + p.values[idx..];
    }
    KeysOfReplaceByPair(p.children, idx, l, g);
    ShareOut(multiset(vs), multiset(p.values), KeysOf(cs), KeysOf(p.children),
             AllKeys(p.children[idx]), AllKeys(l), AllKeys(g), med);
  }

  /** Counting step for `SplicedKeys`. */
  lemma ShareOut(mv: multiset<int>, pv: multiset<int>, kcs: multiset<int>, kps: multiset<int>,
                 c: multiset<int>, l: multiset<int>, g: multiset<int>, med: int)
    requires mv == pv + multiset{med}
    requires kcs + c == kps + l + g
    requires l + multiset{med} + g == c
    ensures mv + kcs == pv + kps
  {
    forall x ensures (mv + kcs)[x] == (pv + kps)[x] {
      assert (kcs + c)[x] == (kps + l + g)[x];
      assert (l + multiset{med} + g)[x] == c[x];
    }
  }

  /** Replacing one child by two changes the keys of the list by their keys. */
  lemma KeysOfReplaceByPair(cs: seq<Node>, i: nat, a: Node, b: Node)
    requires i < |cs|
    ensures KeysOf(cs[..i] + [a, b] + cs[i + 1..]) + AllKeys(cs[i]) == KeysOf(cs) + AllKeys(a) + AllKeys(b)
  {
    var s := cs[i := a];
    assert s[..i + 1] == cs[..i] + [a];
    assert s[i + 1..] == cs[i + 1..];
    assert cs[..i] + [a, b] + cs[i + 1..] == s[..i + 1] + [b] + s[i + 1..];
    KeysOfInsertAt(s, i + 1, b);
    KeysOfUpdate(cs, i, a);
    TwoStepKeys(KeysOf(cs[..i] + [a, b] + cs[i + 1..]), KeysOf(s), KeysOf(cs),
                AllKeys(cs[i]), AllKeys(a), AllKeys(b));
  }

  /** Two key exchanges in a row: `a` replaces `c`, then `b` is added. */
  lemma TwoStepKeys(kt: multiset<int>, ks: multiset<int>, kcs: multiset<int>,
                    c: multiset<int>, a: multiset<int>, b: multiset<int>)
    requires kt == ks + b
    requires ks + c == kcs + a
    ensures kt + c == kcs + a + b
  {
  }

  /** `SplitChildAligned` position by position. */
  lemma SplitChildAlignedShape(p: Node, idx: nat)
    requires idx < |p.children| && idx <= |p.values| && p.children[idx].values != []
    ensures var h := SplitAligned(p.children[idx]);
      var r := SplitChildAligned(p, idx);
      (forall j :: 0 <= j < idx ==> r.values[j] == p.values[j] && r.children[j] == p.children[j]) &&
      r.values[idx] == h.1 && r.children[idx] == h.0 && r.children[idx + 1] == h.2 &&
      (forall j :: idx < j < |r.values| ==> r.values[j] == p.values[j - 1]) &&
      (forall j :: idx + 1 < j < |r.children| ==> r.children[j] == p.children[j - 1])
  {
    var h := SplitAligned(p.children[idx]);
    var s := p.children[idx := h.0];
    assert p.children[..idx] + [h.0, h.2] + p.children[idx + 1..] == s[..idx + 1] + [h.2] + s[idx + 1..];
    SpliceAt(p.values, idx, h.1);
    SpliceAt(s, idx + 1, h.2);
  }

  /** A key placed between its neighbours keeps a list sorted. */
  lemma SplicedSorted(s: seq<int>, i: nat, x: int)
    requires Sorted(s) && i <= |s|
    requires 0 < i ==> s[i - 1] <= x
    requires i < |s| ==> x <= s[i]
    ensures Sorted(s[..i] + [x] + s[i..])
  {
    var t := s[..i] + [x] + s[i..];
    SpliceAt(s, i, x);
    forall a, b | 0 <= a < b < |t| ensures t[a] <= t[b] {
      if a < i && b == i {
        assert s[a] <= s[i - 1];
      } else if a == i && b > i {
        assert s[i] <= s[b - 1];
      }
    }
  }

  /** The aligned `split(parent)` keeps an ordered parent ordered. */
  lemma SplitChildAlignedOrdered(p: Node, idx: nat)
    requires Ordered(p) && idx < |p.children| && idx <= |p.values| && p.children[idx].values != []
    ensures Ordered(SplitChildAligned(p, idx))
  {
    var c := p.children[idx];
    var h := SplitAligned(c);
    var r := SplitChildAligned(p, idx);
    MedianInRange(p, idx);
    SplicedSorted(p.values, idx, h.1);
    forall j | 0 <= j < |r.children| ensures ChildInRange(r, j) && Ordered(r.children[j]) {
      SplicedChildOrdered(p, idx, j);
    }
    assert Complete(r);
  }

  /** The median of child `idx` lies between the parent's keys `idx - 1`
      and `idx`. */
  lemma MedianInRange(p: Node, idx: nat)
    requires Separated(p) && idx < |p.children| && idx <= |p.values| && p.children[idx].values != []
    ensures var med := SplitAligned(p.children[idx]).1;
      (0 < idx ==> p.values[idx - 1] <= med) && (idx < |p.values| ==> med <= p.values[idx])
  {
    var c := p.children[idx];
    var h := SplitAligned(c);
    SplitAlignedKeys(c);
    assert h.1 in AllKeys(c) by {
      assert (AllKeys(h.0) + multiset{h.1} + AllKeys(h.2))[h.1] > 0;
    }
    assert ChildInRange(p, idx);
  }

  lemma SplicedChildOrdered(p: Node, idx: nat, j: nat)
    requires Ordered(p) && idx < |p.children| && idx <= |p.values| && p.children[idx].values != []
    requires j < |p.children| + 1
    ensures ChildInRange(SplitChildAligned(p, idx), j) && Ordered(SplitChildAligned(p, idx).children[j])
  {
    var r := SplitChildAligned(p, idx);
    SplitChildAlignedShape(p, idx);
    if j < idx {
      assert ChildInRange(p, j);
    } else if j == idx {
      LowerHalfInRange(p, idx);
    } else if j == idx + 1 {
      UpperHalfInRange(p, idx);
    } else {
      assert ChildInRange(p, j - 1);
    }
  }

  lemma LowerHalfInRange(p: Node, idx: nat)
    requires Ordered(p) && idx < |p.children| && idx <= |p.values| && p.children[idx].values != []
    ensures ChildInRange(SplitChildAligned(p, idx), idx) && Ordered(SplitChildAligned(p, idx).children[idx])
  {
    var c := p.children[idx];
    var h := SplitAligned(c);
    var r := SplitChildAligned(p, idx);
    SplitChildAlignedShape(p, idx);
    SplitAlignedOrdered(c);
    SplitAlignedKeys(c);
    assert ChildInRange(p, idx);
    forall x | x in AllKeys(h.0) ensures (0 < idx ==> r.values[idx - 1] <= x) && x <= r.values[idx] {
      assert x in AllKeys(c);
    }
  }

  lemma UpperHalfInRange(p: Node, idx: nat)
    requires Ordered(p) && idx < |p.children| && idx <= |p.values| && p.children[idx].values != []
    ensures ChildInRange(SplitChildAligned(p, idx), idx + 1) && Ordered(SplitChildAligned(p, idx).children[idx + 1])
  {
    var c := p.children[idx];
    var h := SplitAligned(c);
    var r := SplitChildAligned(p, idx);
    SplitChildAlignedShape(p, idx);
    SplitAlignedOrdered(c);
    SplitAlignedWithin(c);
    assert ChildInRange(p, idx);
    var j := idx + 1;
    assert r.children[j] == h.2 && r.values[j - 1] == h.1;
    assert j < |r.values| ==> r.values[j] == p.values[idx];
    forall x | x in AllKeys(r.children[j])
      ensures (0 < j <= |r.values| ==> r.values[j - 1] <= x) && (j < |r.values| ==> x <= r.values[j])
    {
      assert x in AllKeys(c);
    }
    assert ChildInRange(r, j);
  }

  /** The aligned `split(parent)` of a child with at most `k + 1` keys, in
      a parent whose other children are bounded, leaves every child of the
      parent bounded. */
  lemma SplitChildAlignedBounded(p: Node, idx: nat, k: int)
    requires idx < |p.children| && idx <= |p.values| && p.children[idx].values != []
    requires |p.children[idx].values| <= k + 1
    requires forall j :: 0 <= j < |p.children| && j != idx ==> Bounded(p.children[j], k)
    requires forall j :: 0 <= j < |p.children[idx].children| ==> Bounded(p.children[idx].children[j], k)
    ensures forall j :: 0 <= j < |SplitChildAligned(p, idx).children| ==> Bounded(SplitChildAligned(p, idx).children[j], k)
  {
    var r := SplitChildAligned(p, idx);
    SplitChildAlignedShape(p, idx);
    SplitAlignedBounded(p.children[idx], k);
    forall j | 0 <= j < |r.children| ensures Bounded(r.children[j], k) {
      if j > idx + 1 {
        assert r.children[j] == p.children[j - 1];
      }
    }
  }

  // ---------------------------------------------------------------------
  // insert with the aligned splits

  /** `_insert(value, node)` with the aligned `split(parent)`: the same
      descent, and the same test for an overfull child on the way back. */
  function InsertDescendAligned(n: Node, v: int, k: int): (r: Node)
    requires k >= 2
    requires DescentSafe(n, v)
    ensures AllKeys(r) == AllKeys(n) + multiset{v}
    ensures r.IsLeaf() <==> n.IsLeaf()
    decreases n
  {
    if n.IsLeaf() then
      InsertKeyKeys(n, v);
      InsertKey(n, v)
    else
      var idx := FirstNotLess(n.values, v);
      var c := InsertDescendAligned(n.children[idx], v, k);
      var n1 := n.(children := n.children[idx := c]);
      ReplaceChildKeys(n, idx, c);
      AddOne(AllKeys(n1), AllKeys(n), AllKeys(n.children[idx]), AllKeys(c), v);
      if c.NeedsRebalancing(k) then SplitChildAligned(n1, idx) else n1
  }

  /** `insert` with the aligned splits: an empty tree gets a one-key leaf;
      otherwise the key goes in through `_insert`, and an overfull root,
      leaf or internal, is rebuilt over its two aligned halves. */
  function TreeInsertAligned(root: Option<Node>, v: int, m: int): (r: Node)
    requires m > 2
    requires root.Some? ==> DescentSafe(root.value, v)
    ensures AllKeys(r) == TreeKeys(root) + multiset{v}
  {
    if root.None? then
      assert multiset([v]) == multiset{v};
      Node([v], [])
    else
      var r := InsertDescendAligned(root.value, v, m - 1);
      if r.NeedsRebalancing(m - 1) then
        RootRebuildAlignedKeys(r);
        RootRebuildAligned(r)
      else r
  }

  /** In an ordered tree the descent of `_insert` always names a child. */
  lemma {:induction false} OrderedDescentSafe(n: Node, v: int)
    requires Ordered(n)
    ensures DescentSafe(n, v)
    decreases n
  {
    if !n.IsLeaf() {
      var idx := FirstNotLess(n.values, v);
      assert Ordered(n.children[idx]);
      OrderedDescentSafe(n.children[idx], v);
    }
  }

  /** The child the scan leads to may take `v`: it stays between its
      separators. */
  lemma ReplaceChildOrdered(n: Node, idx: nat, c: Node, v: int)
    requires Ordered(n) && !n.IsLeaf() && idx == FirstNotLess(n.values, v)
    requires Ordered(c) && AllKeys(c) == AllKeys(n.children[idx]) + multiset{v}
    ensures Ordered(n.(children := n.children[idx := c]))
  {
    var n1 := n.(children := n.children[idx := c]);
    forall i | 0 <= i < |n1.children| ensures ChildInRange(n1, i) && Ordered(n1.children[i]) {
      assert ChildInRange(n, i);
      if i == idx {
        forall x | x in AllKeys(c)
          ensures (0 < i <= |n.values| ==> n.values[i - 1] <= x) && (i < |n.values| ==> x <= n.values[i])
        {
          if x != v {
            assert x in AllKeys(n.children[idx]);
          }
        }
      }
    }
    assert Complete(n1);
  }

  /** `_insert` with the aligned splits keeps an ordered subtree ordered. */
  lemma {:induction false} InsertDescendAlignedOrdered(n: Node, v: int, k: int)
    requires k >= 2 && Ordered(n) && DescentSafe(n, v)
    ensures Ordered(InsertDescendAligned(n, v, k))
    decreases n
  {
    if n.IsLeaf() {
      assert Complete(InsertKey(n, v));
    } else {
      var idx := FirstNotLess(n.values, v);
      var c := InsertDescendAligned(n.children[idx], v, k);
      InsertDescendAlignedOrdered(n.children[idx], v, k);
      ReplaceChildOrdered(n, idx, c, v);
      if c.NeedsRebalancing(k) {
        SplitChildAlignedOrdered(n.(children := n.children[idx := c]), idx);
      }
    }
  }

  /** Below a node that held at most `k` keys everywhere, the aligned
      `_insert` leaves every child within `k` keys and the node itself with
      at most one key too many. */
  lemma {:induction false} InsertDescendAlignedBounded(n: Node, v: int, k: int)
    requires k >= 2 && DescentSafe(n, v) && Bounded(n, k)
    ensures var r := InsertDescendAligned(n, v, k);
      |r.values| <= k + 1 && forall i :: 0 <= i < |r.children| ==> Bounded(r.children[i], k)
    decreases n
  {
    if !n.IsLeaf() {
      var idx := FirstNotLess(n.values, v);
      var c := InsertDescendAligned(n.children[idx], v, k);
      InsertDescendAlignedBounded(n.children[idx], v, k);
      var n1 := n.(children := n.children[idx := c]);
      ReplaceChildBounded(n, n1, idx, c, k);
      if c.NeedsRebalancing(k) {
        SplitChildAlignedBounded(n1, idx, k);
      }
    }
  }

  /** `insert` with the aligned splits keeps an ordered tree ordered. */
  lemma TreeInsertAlignedOrdered(root: Option<Node>, v: int, m: int)
    requires m > 2
    requires root.Some? ==> Ordered(root.value) && DescentSafe(root.value, v)
    ensures Ordered(TreeInsertAligned(root, v, m))
  {
    if root.None? {
      assert Complete(Node([v], []));
    } else {
      var r := InsertDescendAligned(root.value, v, m - 1);
      InsertDescendAlignedOrdered(root.value, v, m - 1);
      if r.NeedsRebalancing(m - 1) {
        RootRebuildAlignedOrdered(r);
      }
    }
  }

  /** `insert` with the aligned splits keeps every node within `m - 1` keys. */
  lemma TreeInsertAlignedBounded(root: Option<Node>, v: int, m: int)
    requires m > 2
    requires root.Some? ==> DescentSafe(root.value, v) && Bounded(root.value, m - 1)
    ensures Bounded(TreeInsertAligned(root, v, m), m - 1)
  {
    if root.Some? {
      var r := InsertDescendAligned(root.value, v, m - 1);
      InsertDescendAlignedBounded(root.value, v, m - 1);
      if r.NeedsRebalancing(m - 1) {
        RootRebuildAlignedBounded(r, m - 1);
      }
    }
  }

  /** After one `insert` with the aligned splits into an ordered tree,
      `search` finds exactly the keys the tree held and the new key. */
  lemma TreeInsertAlignedSearch(root: Option<Node>, v: int, m: int, x: int)
    requires m > 2
    requires root.Some? ==> Ordered(root.value) && DescentSafe(root.value, v)
    ensures var t := TreeInsertAligned(root, v, m);
      SearchSafe(t, x) && (SearchRoot(t, x).Some? <==> x in TreeKeys(root) + multiset{v})
  {
    var t := TreeInsertAligned(root, v, m);
    TreeInsertAlignedOrdered(root, v, m);
    SearchFindsExactlyStoredKeys(t, x);
  }

  /** The tree `insert` with the aligned splits makes of `t` by inserting
      the keys of `vs` one after another: ordered, bounded, and holding
      exactly the keys of `t` and of `vs`. */
  function InsertAllAligned(t: Option<Node>, vs: seq<int>, m: int): (r: Option<Node>)
    requires m > 2 && (t.Some? ==> Ordered(t.value) && Bounded(t.value, m - 1))
    ensures r.Some? <==> t.Some? || vs != []
    ensures r.Some? ==> Ordered(r.value) && Bounded(r.value, m - 1)
    ensures TreeKeys(r) == TreeKeys(t) + multiset(vs)
    decreases |vs|
  {
    if vs == [] then t
    else
      AlignedStep(t, vs[0], m);
      var t1 := Some(TreeInsertAligned(t, vs[0], m));
      var r := InsertAllAligned(t1, vs[1..], m);
      ConsKeys(TreeKeys(r), TreeKeys(t), vs);
      r
  }

  /** Counting step for `InsertAllAligned`. */
  lemma ConsKeys(after: multiset<int>, before: multiset<int>, vs: seq<int>)
    requires vs != []
    requires after == before + multiset{vs[0]} + multiset(vs[1..])
    ensures after == before + multiset(vs)
  {
    assert vs == [vs[0]] + vs[1..];
    assert multiset(vs) == multiset{vs[0]} + multiset(vs[1..]);
  }

  /** One insertion into an ordered, bounded tree (or an empty one). */
  lemma AlignedStep(t: Option<Node>, v: int, m: int)
    requires m > 2 && (t.Some? ==> Ordered(t.value) && Bounded(t.value, m - 1))
    ensures t.Some? ==> DescentSafe(t.value, v)
    ensures Ordered(TreeInsertAligned(t, v, m)) && Bounded(TreeInsertAligned(t, v, m), m - 1)
  {
    if t.Some? {
      OrderedDescentSafe(t.value, v);
    }
    TreeInsertAlignedOrdered(t, v, m);
    TreeInsertAlignedBounded(t, v, m);
  }

  /** After inserting `vs` into an empty tree with the aligned splits,
      `search` finds exactly the inserted keys. */
  lemma InsertAllAlignedSearch(vs: seq<int>, m: int, x: int)
    requires m > 2 && vs != []
    ensures var t := InsertAllAligned(None, vs, m).value;
      SearchSafe(t, x) && (SearchRoot(t, x).Some? <==> x in vs)
  {
    var t := InsertAllAligned(None, vs, m).value;
    SearchFindsExactlyStoredKeys(t, x);
    assert x in vs <==> x in multiset(vs);
  }
}
