/** Key sequences as the B-tree stores them in a node: sorting, the
    left-to-right index scan that picks a child, and removal of one key. */
module Keys {

  /** Non-decreasing order, the order Python's `list.sort` leaves behind. */
  predicate Sorted(s: seq<int>)
  {
    forall i, j :: 0 <= i < j < |s| ==> s[i] <= s[j]
  }

  /** Prepending a key no larger than any element keeps a list sorted. */
  lemma SortedCons(h: int, t: seq<int>)
    requires Sorted(t)
    requires forall y :: y in multiset(t) ==> h <= y
    ensures Sorted([h] + t)
  {
    forall i, j | 0 <= i < j < |[h] + t| ensures ([h] + t)[i] <= ([h] + t)[j] {
      if i == 0 {
        assert t[j - 1] in multiset(t);
      }
    }
  }

  /** Inserts `x` into the sorted `s` before the first larger key. */
  function Insort(s: seq<int>, x: int): (r: seq<int>)
    requires Sorted(s)
    ensures Sorted(r)
    ensures multiset(r) == multiset(s) + multiset{x}
    ensures |r| == |s| + 1
  {
    if s == [] then [x]
    else if x <= s[0] then
      SortedHeadLeast(s);
      SortedCons(x, s);
      [x] + s
    else
      assert s == [s[0]] + s[1..];
      var tail := Insort(s[1..], x);
      SortedHeadLeast(s);
      assert multiset(s[1..]) <= multiset(s);
      SortedCons(s[0], tail);
      [s[0]] + tail
  }

  /** The order of a key list after `sort()`: a sorted permutation of it. */
  function Sort(s: seq<int>): (r: seq<int>)
    ensures Sorted(r)
    ensures multiset(r) == multiset(s)
    ensures |r| == |s|
  {
    if s == [] then []
    else
      assert s == s[..|s| - 1] + [s[|s| - 1]];
      Insort(Sort(s[..|s| - 1]), s[|s| - 1])
  }

  lemma SortedHeadLeast(s: seq<int>)
    requires Sorted(s) && s != []
    ensures forall y :: y in multiset(s) ==> s[0] <= y
  {
    forall y | y in multiset(s) ensures s[0] <= y {
      assert y in s;
    }
  }

  /** A sorted permutation is unique: any sorting procedure gives the same
      list of integers, so `Sort` stands for Python's `sort()` exactly. */
  lemma {:induction false} SortedPermutationUnique(a: seq<int>, b: seq<int>)
    requires Sorted(a) && Sorted(b)
    requires multiset(a) == multiset(b)
    ensures a == b
  {
    assert |a| == |multiset(a)| == |multiset(b)| == |b|;
    if a != [] {
      assert a[0] == b[0] by {
        SortedHeadLeast(a);
        SortedHeadLeast(b);
        assert a[0] in multiset(b) && b[0] in multiset(a);
      }
      assert a == [a[0]] + a[1..] && b == [b[0]] + b[1..];
      assert multiset(a[1..]) == multiset(b[1..]) by {
        calc {
          multiset(a[1..]);
          multiset([a[0]] + a[1..]) - multiset{a[0]};
          multiset(a) - multiset{a[0]};
          multiset(b) - multiset{b[0]};
          multiset([b[0]] + b[1..]) - multiset{b[0]};
          multiset(b[1..]);
        }
      }
      SortedPermutationUnique(a[1..], b[1..]);
    }
  }

  lemma SlicePlusOne(s: seq<int>, i: nat)
    requires i < |s|
    ensures s[..i + 1] == s[..i] + [s[i]]
  {
  }

  /** Sorting a list that is already sorted leaves it as it is. */
  lemma SortOfSorted(s: seq<int>)
    requires Sorted(s)
    ensures Sort(s) == s
  {
    SortedPermutationUnique(Sort(s), s);
  }

  /** The child index the B-tree scans for: the first position whose key is
      not less than `x`, or `|s|` when every key is less. */
  function FirstNotLess(s: seq<int>, x: int): (r: nat)
    ensures r <= |s|
    ensures forall j :: 0 <= j < r ==> s[j] < x
    ensures r < |s| ==> x <= s[r]
  {
    if s == [] || x <= s[0] then 0 else 1 + FirstNotLess(s[1..], x)
  }

  /** The three characterising properties determine the scan index. */
  lemma FirstNotLessUnique(s: seq<int>, x: int, r: nat)
    requires r <= |s|
    requires forall j :: 0 <= j < r ==> s[j] < x
    requires r < |s| ==> x <= s[r]
    ensures r == FirstNotLess(s, x)
  {
  }

  /** The scan loop `while idx < len(values) and values[idx] < x: idx += 1`. */
  method ScanIndex(values: seq<int>, x: int) returns (idx: nat)
    ensures idx <= |values|
    ensures forall j :: 0 <= j < idx ==> values[j] < x
    ensures idx < |values| ==> x <= values[idx]
    ensures idx == FirstNotLess(values, x)
  {
    idx := 0;
    while idx < |values| && values[idx] < x
      invariant idx <= |values|
      invariant forall j :: 0 <= j < idx ==> values[j] < x
    {
      idx := idx + 1;
    }
    FirstNotLessUnique(values, x, idx);
  }

  /** The position of the first occurrence of `x` in `s`. */
  function IndexOf(s: seq<int>, x: int): (i: nat)
    requires x in s
    ensures i < |s| && s[i] == x
    ensures x !in s[..i]
  {
    if s[0] == x then 0
    else
      var i := IndexOf(s[1..], x);
      assert s[..i + 1] == [s[0]] + s[1..][..i];
      i + 1
  }

  /** Python's `list.remove(x)`: drops the first occurrence of `x`. */
  function RemoveFirst(s: seq<int>, x: int): (r: seq<int>)
    requires x in s
    ensures multiset(r) == multiset(s) - multiset{x}
    ensures |r| == |s| - 1
    ensures exists i :: 0 <= i < |s| && s[i] == x && x !in s[..i] && r == s[..i] + s[i + 1..]
  {
    var i := IndexOf(s, x);
    assert s == s[..i] + [s[i]] + s[i + 1..];
    s[..i] + s[i + 1..]
  }

  /** Removing a key keeps a sorted list sorted. */
  lemma RemoveFirstSorted(s: seq<int>, x: int)
    requires x in s && Sorted(s)
    ensures Sorted(RemoveFirst(s, x))
  {
    SortedWithout(s, IndexOf(s, x));
  }

  /** Dropping the key at one position keeps a sorted list sorted. */
  lemma SortedWithout(s: seq<int>, i: nat)
    requires Sorted(s) && i < |s|
    ensures Sorted(s[..i] + s[i + 1..])
  {
    var r := s[..i] + s[i + 1..];
    forall p, q | 0 <= p < q < |r| ensures r[p] <= r[q] {
      var p' := if p < i then p else p + 1;
      var q' := if q < i then q else q + 1;
      assert r[p] == s[p'] && r[q] == s[q'];
    }
  }
}
