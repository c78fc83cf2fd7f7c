# LinkedBST in Dafny

A model of the linked binary search tree class `LinkedBST` of `Task2/linkedbst.py`.

The tree is an immutable datatype: `Tree = Leaf | Node(left, data, right)`. The object state is `Bst(root, size)`:
- the root;
- the separately kept item counter that decides `isEmpty`.

The ghost predicate `Valid` says that the counter equals the number of nodes. `IsBst` is the strict order invariant: everything left of a node is smaller, everything right of it is larger. Each mutator and query except `__iter__` and `range_find` becomes a pure function that returns the new state or the answer. The `while` loops of `find`, `add`, `remove`, `replace` and the lift of the left maximum become recursive functions over the tree. Only `__iter__` and `range_find` are Dafny methods with loops.

Modules, one per file:
- `Wrappers` (`wrappers.dfy`): `Option` and `Result`.
- `Sequences` (`sequences.dfy`): sortedness, and deleting or overwriting one position of a list.
- `Trees` (`tree.dfy`): the node datatype, the recursive traversals, height, paths, the order invariant and the node-count/height bounds.
- `LinkedBst` (`linkedbst.dfy`): the state, `find`, `__contains__`, `clear`, `add`, `remove` and `replace`.
- `Traversal` (`traversal.dfy`): the stack-driven `__iter__` and the queue-driven `levelorder`.
- `Rebalancing` (`rebalance.dfy`): `rebalance`, its middle-first rebuild, and the proof that it produces the minimum-height tree.
- `Queries` (`queries.dfy`): `range_find`, `successor` and `predecessor`, which all scan the in-order list.
- `Scenarios` (`scenarios.dfy`): building a tree from a list of items, and worked cases. The cases are:
  - the tree built from 5, 3, 8, 1, 4: its traversals, and removing its root;
  - the neighbour queries on 1, 3, 5, 7;
  - the empty tree;
  - sorted insertion, which degenerates into a chain that `rebalance` brings down to height `floor(log2 n)`.

Where the program's own text and its code part ways, the model follows the code:
- **Equal items in `add`.** The descent sends an item equal to the probe's item to the right (lines 147-150). The attachment test afterwards sends it to the left unless the last probe's item is smaller (lines 151-154). The two disagree only when the last probe holds the item itself, and then the new node replaces that probe's left subtree. Otherwise the new node lands on the side the descent took. For example, `add(5)`, `add(7)`, `add(5)` ends at 7 and puts the second 5 left of it with nothing overwritten. `add(5)`, `add(3)`, `add(5)` ends at the root 5 and overwrites the node 3. This is modelled as written and recorded under Findings. The corrected `Add` attaches on the side the descent took.
- **The value `rebalance` returns.** Its docstring says `:return: self` (line 301). The code rebinds `self` to the helper's result, so it returns `None` on an empty tree (lines 310-311 and 319-320).
- **`replace`.** Its docstring (lines 243-245) promises only the swap and the old item. The code does not re-check the order. `LinkedBst.ReplaceKeepsOrder` states exactly when the order survives, and `LinkedBst.ReplaceBreaksOrder` shows an input where it does not.

## Model

| member | source | states |
|---|---|---|
| LinkedBst.Find | Task2/linkedbst.py:116-129 | lookup only ever answers the item itself; on a search tree it answers every item present |
| LinkedBst.Contains | Task2/linkedbst.py:112-114 | `in` implies membership of the in-order list; on a search tree it is exactly membership |
| LinkedBst.DescentIndex | Task2/linkedbst.py:121-128 | the descent stops at a position of the in-order list holding the item |
| LinkedBst.Clear | Task2/linkedbst.py:132-135 | afterwards the tree is empty, consistent, and holds no items |
| LinkedBst.Insert | Task2/linkedbst.py:144-154 | insertion at the leaf the descent reaches adds exactly the item to the contents (as a multiset) |
| LinkedBst.InsertKeepsBst | Task2/linkedbst.py:144-154 | inserting an absent item into a search tree leaves a search tree |
| LinkedBst.Add | Task2/linkedbst.py:137-155 | the counter grows by one and stays consistent; the contents gain the item; the order holds for an absent item; an empty tree gets the item as its root |
| LinkedBst.AddIsInsert | Task2/linkedbst.py:141-154 | on a consistent state the empty-tree branch is insertion into the empty tree |
| LinkedBst.AttachAsWritten | Task2/linkedbst.py:144-154 | the literal descent and attachment coincide with the corrected insertion whenever the item is absent |
| LinkedBst.IsEmpty | Task2/linkedbst.py:141 | emptiness is read from the counter; on a consistent state it holds exactly when there is no root |
| LinkedBst.AddAsWritten | Task2/linkedbst.py:137-155 | `add` as written always leaves a root and grows the counter by one; it agrees with the corrected `Add` whenever the item is absent |
| LinkedBst.AddAsWrittenLosesSubtree | Task2/linkedbst.py:151-154 | `add(5)`, `add(3)` give a consistent search tree; a further `add(5)` makes the counter 3 with only two items left, and 3 is lost |
| LinkedBst.RemoveMax | Task2/linkedbst.py:171-180 | walking right to the maximum and splicing it out: the in-order list is the remainder followed by the removed item |
| LinkedBst.LiftMaxInLeftSubtreeToTop | Task2/linkedbst.py:165-180 | the node keeps its right subtree; its item becomes the last in-order item of its left subtree, which loses that item; on a search tree that item bounds the left subtree |
| LinkedBst.DeleteNode | Task2/linkedbst.py:209-230 | two children: lift the left maximum; no left child: the right child takes the place; otherwise the left child does; the in-order list is left then right |
| LinkedBst.RemoveFrom | Task2/linkedbst.py:185-230 | when lookup fails nothing changes; otherwise exactly the in-order position where lookup stops disappears |
| LinkedBst.Remove | Task2/linkedbst.py:157-240 | KeyError exactly when the item is not found, and then no change; otherwise the item is returned, one in-order position goes, the counter drops by one, and the root is empty exactly when the counter is zero |
| LinkedBst.RemoveAsWritten | Task2/linkedbst.py:157-240 | on any state: KeyError exactly when lookup fails; the early return with no item for a zero counter (line 183); otherwise the item and a counter one lower, with the root cleared when the counter reaches zero and else the located in-order position gone; on a consistent state it is `Remove` |
| LinkedBst.RemovalsLeaveNoRoot | Task2/linkedbst.py:141-155 | after `add(5)`, `add(3)`, `add(5)` as written, removing 5 twice leaves a counter of 1 and no root, a state on which `add` has no probe to attach to |
| LinkedBst.RemovePresent | Task2/linkedbst.py:157-240 | removing a present item from a search tree keeps the order, removes exactly one occurrence, and the item is no longer found |
| LinkedBst.DescentPath | Task2/linkedbst.py:191-202 | the path the locating loop follows ends at a node holding the item |
| LinkedBst.RemoveAtLocatedNode | Task2/linkedbst.py:209-230 | at the located node: with two children it stays, keeps its right subtree and takes its left maximum; otherwise its only child, or nothing, takes its place |
| LinkedBst.Replace | Task2/linkedbst.py:242-256 | the old item comes back exactly when lookup finds it; then the shape is unchanged and only that in-order position takes the new item; otherwise nothing changes |
| LinkedBst.ReplaceKeepsOrder | Task2/linkedbst.py:242-256 | on a search tree the order survives exactly when the new item lies strictly between the old item's in-order neighbours |
| LinkedBst.ReplaceBreaksOrder | Task2/linkedbst.py:246-251 | replacing 2 by 9 in the search tree of 1, 2, 3 succeeds and leaves a tree that is not a search tree |
| Trees.Inorder | Task2/linkedbst.py:66-77 | left subtree, node, right subtree; `Trees.BstIffIncreasing` states that it is strictly ascending exactly on a search tree, and `Trees.HeightBelowCount` that its length exceeds the height |
| Trees.Preorder | Task2/linkedbst.py:53-64 | preorder is empty exactly for the empty tree and starts with the root; `Trees.PreorderPermutation` relates it to inorder |
| Trees.Postorder | Task2/linkedbst.py:79-90 | postorder is empty exactly for the empty tree and ends with the root; `Trees.PostorderPermutation` relates it to inorder |
| Trees.PreorderPermutation | Task2/linkedbst.py:53-64 | preorder lists the same items as inorder, as many times each |
| Trees.PostorderPermutation | Task2/linkedbst.py:79-90 | postorder lists the same items as inorder, as many times each |
| Trees.BstIffIncreasing | Task2/linkedbst.py:66-77 | the order invariant holds exactly when inorder is strictly ascending |
| Trees.Height | Task2/linkedbst.py:258-275 | height is at least -1, and -1 exactly for the empty tree |
| Trees.HeightBelowCount | Task2/linkedbst.py:264-273 | the height is below the number of nodes |
| Trees.DeepestPath | Task2/linkedbst.py:264-273 | some node lies exactly `height` steps below the root |
| Trees.NoNodeBelowHeight | Task2/linkedbst.py:264-273 | no node lies more than `height` steps below the root |
| Trees.NodeCountBound | Task2/linkedbst.py:258-275 | a tree of height h has fewer than 2^(h+1) nodes |
| Trees.HeightLowerBound | Task2/linkedbst.py:258-275 | a tree of n >= 1 nodes has height at least floor(log2 n) |
| Traversal.Iterate | Task2/linkedbst.py:40-51 | popping a node, yielding it, and pushing its right then its left child yields exactly the preorder list |
| Traversal.PushChildren | Task2/linkedbst.py:48-51 | the stack below is untouched, at most two trees are pushed, never an absent child, and the left child (else the right) ends on top |
| Traversal.Bfs | Task2/linkedbst.py:97-105 | the front of the queue is read first; `Traversal.BfsPermutation` and `Traversal.BfsIsLevels` state what the whole drain reads |
| Traversal.BfsPermutation | Task2/linkedbst.py:97-105 | draining the queue yields every item of the queued trees once |
| Traversal.BfsIsLevels | Task2/linkedbst.py:97-105 | draining the queue reads the queued forest level by level, left to right |
| Traversal.Levelorder | Task2/linkedbst.py:92-110 | the result is a permutation of inorder, as long as the counter, root first, and equal to the tree's levels read top to bottom |
| Rebalancing.Balanced | Task2/linkedbst.py:306-317 | the middle-first tree of a list reads back as that list |
| Rebalancing.InsertMiddles | Task2/linkedbst.py:306-317 | the rebuild adds each listed item once and keeps the counter consistent |
| Rebalancing.InsertMiddlesContents | Task2/linkedbst.py:306-317 | the rebuild adds exactly the listed items |
| Rebalancing.InsertMiddlesGrafts | Task2/linkedbst.py:306-317 | adding the middle-first order of ascending items that fit a gap of the tree grows the balanced tree of those items in that gap |
| Rebalancing.Rebalance | Task2/linkedbst.py:298-320 | the counter and the contents are kept; the result is `None` exactly for an empty tree and otherwise the rebuilt tree |
| Rebalancing.RebalanceBuildsBalanced | Task2/linkedbst.py:298-320 | on a search tree the rebuilt tree is the balanced tree of the in-order list, so it reads the same and keeps the order |
| Rebalancing.RebalanceHeight | Task2/linkedbst.py:298-320 | on a non-empty search tree the rebuilt height is floor(log2 n), no more than that of any tree of n nodes |
| Rebalancing.BalancedHeight | Task2/linkedbst.py:310-316 | the middle-first tree of n >= 1 items has height floor(log2 n) |
| Rebalancing.InsertMiddlesAsWritten | Task2/linkedbst.py:306-317 | the rebuild with `add` as written grows the counter by the number of listed items and leaves a root whenever the counter is non-zero |
| Rebalancing.RebalanceAsWritten | Task2/linkedbst.py:298-320 | with `add` as written the counter ends equal to the number of in-order items, and the result is `None` exactly when there were none |
| Rebalancing.InsertMiddlesAgree | Task2/linkedbst.py:306-317 | when the listed items are strictly ascending and new to the tree, the rebuild as written equals the rebuild with the corrected `Add` |
| Rebalancing.RebalanceAgrees | Task2/linkedbst.py:298-320 | on a consistent search tree `rebalance` as written equals the model's `Rebalance` |
| Rebalancing.RebalanceAsWrittenLosesItem | Task2/linkedbst.py:151-154 | `add(5)`, `add(5)`, `add(3)` give a consistent tree of 3, 5, 5; rebalancing it as written loses 3 while the counter stays 3; the model's `Rebalance` keeps 3 |
| Rebalancing.RebalanceKeepsItem | Task2/linkedbst.py:298-320 | the model's `Rebalance` keeps every held item |
| Queries.RangeFilter | Task2/linkedbst.py:293-295 | the kept items are exactly the listed items within the closed range |
| Queries.RangeFind | Task2/linkedbst.py:284-296 | the loop over the in-order list collects exactly the items within the closed range, in list order |
| Queries.RangeFindSorted | Task2/linkedbst.py:284-296 | on a search tree the result is strictly ascending |
| Queries.FirstAbove | Task2/linkedbst.py:331-335 | none exactly when no item exceeds the bound; otherwise the first listed item above it |
| Queries.LastBelow | Task2/linkedbst.py:346-350 | none exactly when no item is below the bound; otherwise the last listed item below it |
| Queries.Successor | Task2/linkedbst.py:322-335 | none exactly when no item exceeds the given one; otherwise a held item above it |
| Queries.Predecessor | Task2/linkedbst.py:337-350 | none exactly when no item is below the given one; otherwise a held item below it |
| Queries.FirstAboveHeld | Task2/linkedbst.py:331-335 | the scan answers none exactly when no listed item exceeds the bound, and otherwise a listed item above it |
| Queries.LastBelowHeld | Task2/linkedbst.py:346-350 | the reversed scan answers none exactly when no listed item is below the bound, and otherwise a listed item below it |
| Queries.SuccessorIsLeast | Task2/linkedbst.py:322-335 | on a search tree the successor is the least held item above the given one |
| Queries.PredecessorIsGreatest | Task2/linkedbst.py:337-350 | on a search tree the predecessor is the greatest held item below the given one |
| Queries.SuccessorOfHeld | Task2/linkedbst.py:322-335 | on a search tree the successor of a held item is the next in-order item, none after the last |
| Queries.PredecessorOfHeld | Task2/linkedbst.py:337-350 | on a search tree the predecessor of a held item is the previous in-order item, none before the first |
| Scenarios.AddAll | Task2/linkedbst.py:18-22 | building from a collection keeps the counter consistent, grows it by the number of items, and adds exactly those items (as a multiset) |
| Scenarios.FiveItems | Task2/linkedbst.py:53-110 | adding 5, 3, 8, 1, 4 gives the root 5 with 3 (over 1 and 4) and 8; inorder 1 3 4 5 8, preorder 5 3 1 4 8, postorder 1 4 3 8 5, levelorder 5 3 8 1 4 |
| Scenarios.RemoveRootOfFive | Task2/linkedbst.py:209-215 | removing 5 from that tree puts 4 in the root node and leaves a search tree of four items |
| Scenarios.NeighboursOfOdd | Task2/linkedbst.py:322-350 | on 1, 3, 5, 7: the successor of 5 is 7, of 7 none; the predecessor of 5 is 3, of 1 none |
| Scenarios.EmptyCases | Task2/linkedbst.py:157-162 | on the empty tree: height -1, lookup and neighbours absent, and remove fails with KeyError without change |
| Scenarios.InsertAtChainEnd | Task2/linkedbst.py:144-154 | adding the next larger item to a right-leaning chain extends the chain |
| Scenarios.SortedAddsThenRebalance | Task2/linkedbst.py:298-320 | adding n ascending items grows a chain of height n - 1; rebalancing it gives height floor(log2 n) |
| Scenarios.RebalanceChainOfSeven | Task2/linkedbst.py:298-320 | adding 1 to 7 in order gives height 6; after rebalancing, height 2 |

## Left out

- `is_balanced` (line 277-282) compares against a floating-point logarithm; floating point is not modelled. `RebalanceHeight` and `NodeCountBound` state the exact integer height bounds instead.
- `__str__` (lines 25-38) formats text. Text formatting is not modelled.
- `demo_bst`, `first_way`, `second_way`, `third_way` and `fourth_way` (lines 352-424) read a file, sample at random and measure time. They are benchmarking harnesses. What they rely on is stated instead: sorted insertion degenerates and rebalancing repairs it (`Scenarios.SortedAddsThenRebalance`).
- `AbstractCollection`, `BSTNode`, `LinkedStack` and `LinkedQueue` are not part of this model:
  - the node class is the `Tree` datatype;
  - the stack and the queue are Dafny sequences;
  - the collection's counter is the `size` field;
  - building from a source collection is `Scenarios.AddAll`, which assumes the items are added in iteration order.
- Items are integers; the source accepts any comparable item.
- `LinkedBst.Remove`: two branches of the source are not modelled, because they cannot be reached from a consistent state once `in` has succeeded:
  - the early `return None` for an empty tree (line 183);
  - the `item_removed == None` return (line 205).
- `LinkedBst.AddAsWritten` is defined only where a positive counter comes with a root. The program leaves that state after the overwrite at lines 151-154: `LinkedBst.RemovalsLeaveNoRoot` reaches a counter of 1 with no root. There `add` skips the loop at line 145 and reads the never-bound last probe at line 151, raising UnboundLocalError. That failure is not modelled.
- `LinkedBst.Remove` is modelled only where the counter equals the number of nodes. `LinkedBst.RemoveAsWritten` covers the other states the program can reach, but the search-tree lemmas about removal are not restated for them.
- `Traversal.Iterate` is modelled only where the counter equals the number of nodes. On the rootless state that `LinkedBst.RemovalsLeaveNoRoot` reaches, `__iter__` pushes the missing root and fails reading its item at line 47. That failure is not modelled.
- `LinkedBst.RemovePresent`, `Queries.SuccessorIsLeast` and the other search-tree lemmas assume the strict order invariant. Duplicate items are not covered: the corrected `Add` places them to the right, and a tree holding them satisfies only a non-strict order, which the model does not state.
- `Rebalancing.InsertMiddles` rebuilds with the corrected `Add`. On a search tree every item it adds is absent, so this agrees with `add` as written (`Rebalancing.InsertMiddlesAgree`). On a tree holding duplicates it does not.
- `Rebalancing.Rebalance` uses the corrected `Add`, so its promise that the contents are kept does not hold of the program on a tree holding duplicates. There `rebalance` as written can lose items while the counter stays the same (`Rebalancing.RebalanceAsWrittenLosesItem`). On a consistent search tree the two agree (`Rebalancing.RebalanceAgrees`).
- `Scenarios.AddAll` folds the corrected `Add`. On a collection holding duplicates the program differs: building from 5, 3, 5 gives a counter of 3 over two items, while `AddAll` keeps all three.
- `LinkedBst.Replace` works on the tree and returns the new tree with the old item. It does not promise the order invariant, because the source does not keep it.
- Object identity and in-place mutation are not modelled. The two-children deletion keeps "the same node" in the sense that the node stays at the same path (`LinkedBst.RemoveAtLocatedNode`).
- Recursion depth limits of the source's recursive traversals are not modelled.

## Findings

| source | as written | input that shows it | evidently intended | confidence | as-written member | corrected member |
|---|---|---|---|---|---|---|
| Task2/linkedbst.py:151-154 | after the descent, the new node goes right only when the last node's item is smaller; an equal item is attached as the LEFT child, replacing that node's existing left subtree, while the counter still grows | `add(5)`, `add(3)`, `add(5)`: the second 5 replaces the node 3, the counter says 3 but two items remain | attach on the side the descent took (`item < data` goes left, otherwise right), so nothing is overwritten | not executed | LinkedBst.AddAsWrittenLosesSubtree | LinkedBst.Add |
| Task2/linkedbst.py:151-154 | `rebalance` re-adds the sorted items middle first through the same `add`; when the tree holds duplicates, an equal item re-added later ends its descent at an equal node and replaces that node's left subtree | `add(5)`, `add(5)`, `add(3)`, then `rebalance()`: it re-adds 5, 3, 5; the last 5 replaces the node 3, leaving a counter of 3 over the items 5, 5 | the rebuilt tree holds the same items as before | not executed | Rebalancing.RebalanceAsWrittenLosesItem | Rebalancing.Rebalance |
| Task2/linkedbst.py:141-155 | after the overwrite the counter exceeds the number of nodes; `remove` resets the root from the counter alone (lines 235-239), so a positive counter can remain with no root, and `add` then reads the last probe, which the skipped loop never bound | `add(5)`, `add(3)`, `add(5)`, `remove(5)`, `remove(5)`, then `add(1)`: the counter is 1 with no root, and `add` raises UnboundLocalError at line 151 | the counter equals the number of nodes, so a positive counter always has a root | not executed | LinkedBst.RemovalsLeaveNoRoot | LinkedBst.Add |
