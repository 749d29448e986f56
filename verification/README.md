# B-tree (`forest/binary_trees/b_tree.py`) in Dafny

This project models the B-tree of the `forest` package: the node class
`BTreeNode` and the tree class `BTree`.

- A node (`BTreeNode`) holds a sorted list of keys and a list of children.
  - `insert` appends a key and re-sorts.
  - `add_node` places a child by scanning the keys from the left.
  - `split` cuts a node at `mid = len(values) // 2`. It promotes the median into a parent, creating the parent when there is none, and attaches a new right sibling.
  - `inorder` yields `(key, depth)` pairs.
- A tree (`BTree`) owns the root and the fanout `m`; a node may hold `k = m - 1` keys.
  - `insert` has three cases: an empty tree, a leaf root split by `split(None)`, and an internal root rebuilt by a positional split of its own.
  - `_insert` descends recursively and splits an overfull child on the way back.
  - `search` and `_search` descend by the first index whose key is not less than the searched key.
  - `delete` removes a key only when it sits in a leaf.

Layout:

- `keys.dfy` (module `Keys`): the key lists.
  - Sorting. `Sort` is a sorted permutation, and any sorted permutation equals it, so it stands for Python's `sort()` on integers.
  - The index scan: the function `FirstNotLess` and the loop `ScanIndex`.
  - `list.remove`, modelled as `RemoveFirst`.
- `nodes.dfy` (module `Nodes`): the node as a value, `Node(values, children)`.
  - A node is owned by exactly one parent and has no back reference. So every method that updates a node in place is a function returning the updated node: `InsertKey`, `AddNode`, `SplitRoot` (`split(None)`) and `SplitChild` (`split(parent)`, called by `_insert` on `parent.children[idx]`).
  - `AllKeys` is the multiset of keys stored in a subtree. It is what "no key is lost" is stated in.
  - `Inorder` is the walk.
- `btree.dfy` (module `BTrees`): the tree operations and the class.
  - Specification functions: `InsertDescend` (`_insert`), `TreeInsert` (`insert`), `RootRebuild`, `SearchFrom` and `SearchRoot` (`_search` and `search`), and `DeleteKey` (`delete`).
  - `search` returns a node object. The model returns the path of child indices that leads to it.
  - The class `BTree` has the fields `root` and `m`. Its methods perform the operations step by step, with the scan loops, and are proved equal to the specification functions.
- `ordering.dfy` (module `Ordering`): the B-tree ordering and what it gives.
  - `Ordered` means sorted keys, one more child than keys, and every subtree between its separators.
  - On an ordered tree, `search` never crashes and finds exactly the stored keys, and the walk lists every key, sorted.
- `corrected.dfy` (module `Corrected`): the splits with the children partitioned where a B-tree split puts them.
  - `SplitAligned` cuts a node's children after child `mid`, so when the node has one more child than keys, so does each half.
  - `RootRebuildAligned` and `SplitChildAligned` are the root rebuild and `split(parent)` built on it.
  - `InsertDescendAligned` and `TreeInsertAligned` are `_insert` and `insert` with those splits. They keep a tree ordered and bounded, so `search` never crashes and finds exactly the inserted keys.
- `traces.dfy` (module `Traces`): concrete insertion sequences with `m = 3`.
- `findings.dfy` (module `Findings`): three inputs on which the splits as written lose keys for `search`, each against the corrected split.

The code's own behaviour is modelled, quirks included:

- A non-root child split keeps all of its children on the left node, and its new sibling has none.
- The internal-root rebuild cuts the children at the position `mid`.
- `inorder` never visits a child past `children[len(values)]`.
- `list.insert` and slicing clamp an index past the end.
- The sibling placed by `add_node` may land before the left half when keys repeat.

Therefore `insert` promises no global B-tree invariant. What it does promise is below: every key is conserved, and every node stays within `k` keys.

## Model

| member | source | states |
|---|---|---|
| Keys.Sort | forest/binary_trees/b_tree.py:36 | the re-sorted key list is sorted and a permutation of the list |
| Keys.SortedPermutationUnique | forest/binary_trees/b_tree.py:36 | two sorted permutations of the same keys are equal, so `Sort` is exactly what `sort()` leaves |
| Keys.SortOfSorted | forest/binary_trees/b_tree.py:36 | sorting an already sorted list leaves it unchanged |
| Keys.FirstNotLess | forest/binary_trees/b_tree.py:142-144 | the scan index: every earlier key is less than the searched key, the key at the index (if any) is not, and the index is at most `len(values)` |
| Keys.FirstNotLessUnique | forest/binary_trees/b_tree.py:163-165 | those three properties determine the scan index uniquely |
| Keys.ScanIndex | forest/binary_trees/b_tree.py:142-144 | the `while idx < len(values) and values[idx] < value` loop ends at the first key not less than the value, or at `len(values)` |
| Keys.RemoveFirst | forest/binary_trees/b_tree.py:174 | `list.remove` drops exactly one occurrence of the key, the first one, and shortens the list by one |
| Keys.RemoveFirstSorted | forest/binary_trees/b_tree.py:174 | removing a key keeps a sorted key list sorted |
| Nodes.Node.IsLeaf | forest/binary_trees/b_tree.py:79-81 | `is_leaf`: the node has no children, so every key of its subtree is one of its own |
| Nodes.Node.IsFull | forest/binary_trees/b_tree.py:83-85 | `is_full`: the node holds exactly `k` keys, which is exactly when it does not need rebalancing yet but would with a capacity one smaller |
| Nodes.Node.NeedsRebalancing | forest/binary_trees/b_tree.py:87-89 | `needs_rebalancing`: the node holds more than `k` keys; with `k` at least 0 the node then has a median at `len(values) // 2` to split at |
| Nodes.Inorder | forest/binary_trees/b_tree.py:68-77 | `inorder(depth)`: the pairs the loop yields for every key, then the walk of `children[len(values)]` if present; at least one pair per key of the node, and a leaf yields exactly one per key |
| Nodes.InorderUpTo | forest/binary_trees/b_tree.py:69-74 | the pairs yielded by the first `i` turns of the loop: each turn the walk of `children[idx]` (skipped on a leaf), then `(values[idx], depth)`; at least `i` pairs, exactly `i` on a leaf |
| Nodes.InsertKey | forest/binary_trees/b_tree.py:34-36 | after `insert` the keys are sorted and are the old keys plus the new one; the children are untouched |
| Nodes.InsertKeyKeys | forest/binary_trees/b_tree.py:34-36 | the subtree gains exactly the inserted key |
| Nodes.InsertKeyPlacement | forest/binary_trees/b_tree.py:34-36 | on a sorted list, append-and-sort equals inserting the key before the first larger key |
| Nodes.InsertKeyRebalancing | forest/binary_trees/b_tree.py:84-89 | after an insert the node needs rebalancing exactly when it held `k` keys or more; a full node always does |
| Nodes.AddPosition | forest/binary_trees/b_tree.py:38-48 | a leaf takes the child at the end of its empty child list; otherwise the child goes at the first key index whose key is not less than the child's last key, or at `len(values)`, clamped to the end of the child list |
| Nodes.AddNode | forest/binary_trees/b_tree.py:38-48 | the child list grows by exactly the new child at that position; the other children keep their order; the keys are untouched; the subtree's keys gain the child's keys |
| Nodes.SplitHalves | forest/binary_trees/b_tree.py:50-58 | the node keeps `values[0:mid]` and all its children; the sibling gets `values[mid+1:]` and no children; left ++ [median] ++ right is the old key list, and both halves are non-empty |
| Nodes.SplitHalvesBound | forest/binary_trees/b_tree.py:50-58 | splitting a node of at most `k + 1` keys leaves halves of at most `k` keys |
| Nodes.SplitRoot | forest/binary_trees/b_tree.py:59-66 | `split(None)`: a new parent holding only the median, with the node and the sibling as children, in the order `add_node` gives them; no key is lost |
| Nodes.SplitRootDistinct | forest/binary_trees/b_tree.py:59-66 | for strictly increasing keys `split(None)` gives `[median]` over `[left, sibling]` |
| Nodes.SplitChild | forest/binary_trees/b_tree.py:59-66 | `split(parent)`: the parent's keys gain exactly the median and stay sorted; the parent gains exactly one child |
| Nodes.SplitChildChildren | forest/binary_trees/b_tree.py:59-66 | the parent's new child list is the old one with the split child replaced by its lower half, and the sibling inserted at the position `add_node` scans for |
| Nodes.SplitChildKeys | forest/binary_trees/b_tree.py:50-66 | `split(parent)` moves keys between child, parent and sibling, but neither loses nor adds one |
| BTrees.NodeAtKeys | forest/binary_trees/b_tree.py:149-166 | the keys of a node that `search` can return are keys of the tree |
| BTrees.WithValuesAtEffect | forest/binary_trees/b_tree.py:173-174 | updating one node's key list in place changes no other node's keys and no node's child list |
| BTrees.WithValuesAtKeys | forest/binary_trees/b_tree.py:173-174 | the tree's keys change by exactly the swap of that node's key list |
| BTrees.InsertDescend | forest/binary_trees/b_tree.py:138-147 | `_insert`: the subtree gains exactly the new key; a leaf takes it through `insert`; leaves stay leaves and internal nodes stay internal |
| BTrees.InsertDescendBounded | forest/binary_trees/b_tree.py:138-147 | below a node whose nodes held at most `k` keys, `_insert` leaves every child within `k` keys and the node itself with at most `k + 1` |
| BTrees.RootRebuild | forest/binary_trees/b_tree.py:125-136 | the rebuilt root holds only the median over `[left, right]`; left ++ [median] ++ right is the old key list; left.children ++ right.children is the old child list, cut at position `mid` |
| BTrees.RootRebuildKeys | forest/binary_trees/b_tree.py:125-136 | the rebuild neither loses nor adds a key |
| BTrees.RegroupedKeys | forest/binary_trees/b_tree.py:133-136 | any root over two nodes that share out the old keys and children, in order, holds the same keys |
| BTrees.TreeInsert | forest/binary_trees/b_tree.py:114-136 | `insert`: the tree holds its old keys plus the new one, in all three cases |
| BTrees.TreeInsertBounded | forest/binary_trees/b_tree.py:114-136 | if every node held at most `k` keys before `insert`, every node does afterwards |
| BTrees.SearchFrom | forest/binary_trees/b_tree.py:157-166 | `_search` returns either nothing or the path to a node holding the key, reached along the scan route; it returns the start node exactly when that node holds the key |
| BTrees.SearchRoot | forest/binary_trees/b_tree.py:149-155 | `search` answers exactly what `_search` answers from the root |
| BTrees.SearchSound | forest/binary_trees/b_tree.py:149-166 | a key that `search` finds is stored in the tree |
| BTrees.DeleteKey | forest/binary_trees/b_tree.py:168-176 | a key that `search` misses, or finds in an internal node, changes nothing; a key found in a leaf is removed exactly once from the tree |
| BTrees.DeleteFromLeaf | forest/binary_trees/b_tree.py:168-176 | deleting from a leaf changes only that leaf's keys, by `list.remove`; every other node and every child list is unchanged |
| BTrees.BTree.constructor | forest/binary_trees/b_tree.py:93-100 | a new tree has no root and the given fanout, 3 by default, which must exceed 2 |
| BTrees.BTree.Insert | forest/binary_trees/b_tree.py:114-136 | `insert` reassigns the root to `TreeInsert` of the old root; the tree gains exactly the new key |
| BTrees.BTree.InsertInto | forest/binary_trees/b_tree.py:138-147 | the recursive `_insert` with its scan loop computes `InsertDescend` |
| BTrees.BTree.Search | forest/binary_trees/b_tree.py:149-155 | `search` on a tree with a root computes `SearchRoot`; a found path leads to a node holding the key |
| BTrees.BTree.SearchNode | forest/binary_trees/b_tree.py:157-166 | the recursive `_search` with its scan loop computes `SearchFrom` |
| BTrees.BTree.Delete | forest/binary_trees/b_tree.py:168-176 | `delete` leaves the root as `DeleteKey` of the old root |
| Ordering.SearchComplete | forest/binary_trees/b_tree.py:157-166 | in an ordered tree the scan route reaches every stored key without leaving the child lists |
| Ordering.OrderedSearchSafe | forest/binary_trees/b_tree.py:157-166 | on an ordered tree the scan route of `_search` never indexes past a child list, for any key, stored or not |
| Ordering.SearchFindsExactlyStoredKeys | forest/binary_trees/b_tree.py:149-166 | on an ordered tree `search` never crashes, and finds a key if and only if the tree stores it |
| Ordering.InorderKeys | forest/binary_trees/b_tree.py:68-77 | on a tree whose internal nodes have one child more than keys, the walk lists every stored key exactly as often as it is stored |
| Ordering.InorderSorted | forest/binary_trees/b_tree.py:68-77 | on an ordered tree the walk lists the keys in sorted order |
| Ordering.InorderIgnoresExtraChildren | forest/binary_trees/b_tree.py:76-77 | children past `children[len(values)]` are never visited: dropping them leaves the walk unchanged |
| Corrected.SplitAligned | forest/binary_trees/b_tree.py:50-58 | the corrected cut: the lower half keeps `values[0:mid]`, the upper half `values[mid+1:]`; their child lists together are the old one, and a node with one more child than keys gives halves with one more child than keys |
| Corrected.SplitAlignedKeys | forest/binary_trees/b_tree.py:50-58 | the two halves and the median hold exactly the node's keys |
| Corrected.SplitAlignedOrdered | forest/binary_trees/b_tree.py:50-58 | the halves of an ordered node are ordered, every key of the lower half is at most the median and every key of the upper half at least the median |
| Corrected.SplitAlignedBounded | forest/binary_trees/b_tree.py:50-58 | splitting a node of at most `k + 1` keys whose children are within `k` keys leaves both halves within `k` keys |
| Corrected.RootRebuildAligned | forest/binary_trees/b_tree.py:125-136 | the corrected rebuild: the median over two nodes that share out the keys and, cut after child `mid`, the children; when the node has one more child than keys, so does each half |
| Corrected.RootRebuildAlignedKeys | forest/binary_trees/b_tree.py:125-136 | the corrected rebuild neither loses nor adds a key |
| Corrected.RootRebuildAlignedOrdered | forest/binary_trees/b_tree.py:125-136 | the corrected rebuild keeps an ordered tree ordered |
| Corrected.RootRebuildAlignedBounded | forest/binary_trees/b_tree.py:125-136 | the corrected rebuild of a root of at most `k + 1` keys leaves every node within `k` keys |
| Corrected.SplitRootAligned | forest/binary_trees/b_tree.py:59-66 | on a leaf root with strictly increasing keys, `split(None)` as written already equals the corrected rebuild |
| Corrected.SplitChildAligned | forest/binary_trees/b_tree.py:59-66 | the corrected `split(parent)`: the parent gains exactly one key and one child, and the subtree neither loses nor adds a key |
| Corrected.SplitChildAlignedShape | forest/binary_trees/b_tree.py:59-66 | the median lands at the scanned index, the lower half in place of the split child and the upper half right after it; every other key and child keeps its order |
| Corrected.SplitChildAlignedOrdered | forest/binary_trees/b_tree.py:59-66 | splitting the child of an ordered parent keeps the parent ordered |
| Corrected.SplitChildAlignedBounded | forest/binary_trees/b_tree.py:59-66 | splitting a child of at most `k + 1` keys leaves every child of the parent within `k` keys |
| Corrected.InsertDescendAligned | forest/binary_trees/b_tree.py:138-147 | `_insert` with the corrected split: the subtree gains exactly the new key; leaves stay leaves and internal nodes stay internal |
| Corrected.OrderedDescentSafe | forest/binary_trees/b_tree.py:138-147 | on an ordered tree the scan route of `_insert` never runs past a child list |
| Corrected.InsertDescendAlignedOrdered | forest/binary_trees/b_tree.py:138-147 | the corrected `_insert` keeps an ordered subtree ordered |
| Corrected.InsertDescendAlignedBounded | forest/binary_trees/b_tree.py:138-147 | below a node whose nodes held at most `k` keys, the corrected `_insert` leaves every child within `k` keys and the node itself with at most `k + 1` |
| Corrected.TreeInsertAligned | forest/binary_trees/b_tree.py:114-136 | `insert` with the corrected splits: the tree holds its old keys plus the new one |
| Corrected.TreeInsertAlignedOrdered | forest/binary_trees/b_tree.py:114-136 | the corrected `insert` keeps an ordered tree ordered |
| Corrected.TreeInsertAlignedBounded | forest/binary_trees/b_tree.py:114-136 | the corrected `insert` keeps every node within `m - 1` keys |
| Corrected.TreeInsertAlignedSearch | forest/binary_trees/b_tree.py:114-166 | after the corrected `insert` into an ordered tree, `search` never crashes, and finds a key if and only if it is an old key or the new one |
| Corrected.InsertAllAligned | forest/binary_trees/b_tree.py:114-136 | a sequence of corrected inserts from any ordered, bounded tree leaves an ordered tree with every node within `m - 1` keys, holding the old keys plus all inserted ones |
| Corrected.InsertAllAlignedSearch | forest/binary_trees/b_tree.py:114-166 | starting from an empty tree, after the corrected inserts `search` never crashes, and finds a key if and only if it was inserted |
| Findings.OverfullRootOrdered | forest/binary_trees/b_tree.py:125-136 | the root `_insert` leaves after inserting 10, 20, 5, 6, 12, 30, 40, 50 with `m = 3` is ordered |
| Findings.RootRebuildLosesKeys | forest/binary_trees/b_tree.py:134-135 | as written, the rebuild of that root stores 50 but `search(50)` misses it, `search(12)` indexes past a child list, and the ordering is lost |
| Findings.RootRebuildAlignedSearch | forest/binary_trees/b_tree.py:125-136 | the corrected rebuild of an ordered root is ordered and keeps every key; `search` on it never crashes and finds a key if and only if the root held it |
| Findings.RootRebuildAlignedFindsFifty | forest/binary_trees/b_tree.py:125-136 | on the same root the corrected rebuild lets `search(50)` succeed |
| Findings.DuplicateMedianTrace | forest/binary_trees/b_tree.py:38-66 | with `m = 3`, inserting 2 into the leaf root `[1, 2]` gives the root `[2]` over `[2]` and `[1]`: `add_node` puts the sibling first |
| Findings.DuplicateMedianMisses | forest/binary_trees/b_tree.py:42-45 | on that tree 1 is stored but `search(1)` misses it, and the ordering is lost |
| Findings.DuplicateMedianAligned | forest/binary_trees/b_tree.py:59-66 | with the corrected split the same insert lets `search` find 1 and 2 and nothing else, without crashing |
| Findings.DeepTreeOrdered | forest/binary_trees/b_tree.py:138-147 | the three-level tree `[100]` over `[10, 30]` (over `[5]`, `[15, 25]`, `[35]`) and `[200]`, built directly rather than by `insert`, is ordered |
| Findings.InternalSplitLosesKeys | forest/binary_trees/b_tree.py:50-66 | as written, inserting 20 into that tree splits the internal node `[10, 20, 30]` with all four children left on `[10]`; 25 is stored but `search(25)` misses it, and the ordering is lost |
| Findings.InternalSplitAligned | forest/binary_trees/b_tree.py:50-66 | with the corrected splits the same insert keeps the tree ordered, and `search` never crashes and finds exactly the stored keys and 20, 25 among them |
| Traces.DescendThroughSplit | forest/binary_trees/b_tree.py:138-147 | `_insert` into an internal node whose scanned child comes back overfull splits that child into the node |
| Traces.TraceFirstKeys | forest/binary_trees/b_tree.py:114-122 | inserting 10 into an empty tree, then 20, gives the leaf root `[10, 20]` |
| Traces.TraceFirstSplit | forest/binary_trees/b_tree.py:114-122 | then inserting 5 gives the root `[10]` over the leaves `[5]` and `[20]` |
| Traces.TraceInsertSix | forest/binary_trees/b_tree.py:138-147 | then 6 gives the leaves `[5, 6]` and `[20]` under the unchanged root `[10]` |
| Traces.TraceInsertTwelve | forest/binary_trees/b_tree.py:138-147 | then 12 gives the leaves `[5, 6]` and `[12, 20]` under the unchanged root `[10]` |
| Traces.TraceInorder | forest/binary_trees/b_tree.py:68-77 | `inorder(0)` on that tree yields 5, 6, 10, 12, 20 at depths 1, 1, 0, 1, 1 |
| Traces.TraceInsertThirty | forest/binary_trees/b_tree.py:138-147 | then 30 splits the leaf `[12, 20, 30]` into the root, giving `[10, 20]` over `[5, 6]`, `[12]` and `[30]` |
| Traces.TraceInsertForty | forest/binary_trees/b_tree.py:138-147 | then 40 gives the last leaf `[30, 40]` |
| Traces.TraceInsertFifty | forest/binary_trees/b_tree.py:114-136 | then 50 overfills the root, and the positional rebuild gives `[20]` over `[10]` (one child) and `[40]` (three children) |

## Left out

- `__repr__` of both classes only renders text and is not modelled.
- `forest/binary_trees/red_black_tree.py` and `forest/tree_exceptions.py` are not part of this model.
- Keys are `int`. The source compares keys of any type with `<` and `sort()`.
- `search` returns a node object. The model returns the path of child indices to that node, and `delete` rewrites the tree along that path. Node identity and aliasing are not modelled. This is sound because every node has exactly one parent and no back reference.
- Each `BTreeNode` stores its own `_m`. The model passes the tree's `k = m - 1` to the node operations instead, since every node the tree creates carries the tree's `m`.
- The constructor's `m > 2` assertion becomes a precondition of the constructor and of the operations that split.
- Crashes are excluded by preconditions rather than modelled:
  - `search` and `delete` on an empty tree dereference `None`, so they require a root.
  - The scan index can run past a child list that the rebuild left too short. `DescentSafe` and `SearchSafe` exclude this, and `Findings.RootRebuildLosesKeys` shows a reachable tree where it happens.
- Internal-node deletion is a no-op in the source, and the model keeps it a no-op.
- Ordering invariants are not promised for `insert` as written. The code does not keep them: see Findings. They are proved for the corrected insert, `Corrected.TreeInsertAligned`.

## Findings

| source | as written | input that shows it | evidently intended | confidence | as-written member | corrected member |
|---|---|---|---|---|---|---|
| forest/binary_trees/b_tree.py:134-135 | the rebuilt left node takes `children[0:mid]` and the right node `children[mid:]`, so the left node has as many children as keys and the right node two more | `m = 3`, insert 10, 20, 5, 6, 12, 30, 40, 50: the root `[10, 20, 40]` over `[5, 6]`, `[12]`, `[30]`, `[50]` becomes `[20]` over `[10]`→(`[5, 6]`) and `[40]`→(`[12]`, `[30]`, `[50]`); `search(50)` returns `None` though 50 is stored, and `search(12)` indexes `children[1]` of a node with one child | left takes `children[0:mid+1]`, right takes `children[mid+1:]`, keeping the ordering so that `search` finds every key | high; not executed | Findings.RootRebuildLosesKeys | Corrected.RootRebuildAligned |
| forest/binary_trees/b_tree.py:50-66 | `split(parent)` leaves every child on the left node and gives the new sibling none, so a split internal node keeps keys above the median under its left half | `m = 3`, insert 20 into the ordered tree, built directly rather than by `insert` from an empty tree, `[100]` over `[10, 30]` (over `[5]`, `[15, 25]`, `[35]`) and `[200]`: the internal node `[10, 20, 30]` splits into `[10]` with four children and `[30]` with none; `search(25)` returns `None` though 25 is stored | the left node keeps `children[0:mid+1]` and the sibling takes `children[mid+1:]` | high; not executed | Findings.InternalSplitLosesKeys | Corrected.SplitChildAligned |
| forest/binary_trees/b_tree.py:42-45 | `add_node` places the new sibling before the first key not less than its last key, so when the median equals the sibling's keys the sibling lands left of the node it was split from | `m = 3`, leaf root `[1, 2]`, insert 2: the root becomes `[2]` over `[2]` and `[1]`; `search(1)` returns `None` though 1 is stored | the sibling goes directly right of the node it was split from | medium; not executed | Findings.DuplicateMedianMisses | Corrected.RootRebuildAligned |

The model of `insert` (`BTrees.TreeInsert`, `BTrees.BTree.Insert`) keeps the code's own splits, because that is what the code does. The corrected splits live in `Corrected`:

- `Corrected.RootRebuildAligned` keeps every key (`Corrected.RootRebuildAlignedKeys`) and keeps an ordered root ordered (`Corrected.RootRebuildAlignedOrdered`). On it, `search` finds every stored key (`Findings.RootRebuildAlignedSearch`), including 50 in the first trace above (`Findings.RootRebuildAlignedFindsFifty`).
- `Corrected.SplitChildAligned` keeps an ordered parent ordered (`Corrected.SplitChildAlignedOrdered`).
- The corrected insert `Corrected.TreeInsertAligned` keeps the tree ordered and every node within `m - 1` keys. After any sequence of corrected inserts, `search` finds exactly the inserted keys (`Corrected.InsertAllAlignedSearch`). On the two other inputs above it finds 25 (`Findings.InternalSplitAligned`) and 1 (`Findings.DuplicateMedianAligned`).
