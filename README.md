# Binary search tree

A model in Dafny of `BinarySearchTree`, a JavaScript binary search tree of
mutable `Node` objects (`val`, `left`, `right`). Keys smaller than a node's key
go left; equal or larger keys go right. No rebalancing is ever done. The tree
offers:

- insertion by iteration and by recursion;
- search by iteration and by recursion;
- pre-, in- and post-order depth-first traversals and a breadth-first
  traversal;
- `remove` (leaf, one-child and two-child cases, with a placeholder parent when
  the root is removed);
- `isBalanced`, which compares heights at the root only;
- `findSecondHighest`.

The project has three modules:

- `BstModel` (`tree.dfy`) is the value-level account. It holds:
  - an algebraic `Tree`, its keys, size, height and the search-tree order
    `IsBst`;
  - a pure function for every query of the source;
  - `TreeInsert` and `TreeRemove`, the effect of insert and remove on the
    tree of keys;
  - the lemmas about them: key multisets, order preservation, sortedness of
    the in-order walk, the level-by-level meaning of the breadth-first queue,
    and what the second-highest query finds.
- `BstHeap` (`heap.dfy`) holds the `Node` class and the ghost bookkeeping
  that ties the heap to the `Tree`:
  - a `Shape` records which node object sits where;
  - `Linked` says the child links agree with the shape;
  - `Distinct` says that no node is reached twice;
  - `TreeOf` reads the keys off the nodes;
  - a `Path` (a zipper) lets the descending loops and `remove` reason about
    one subtree of the structure and its context.
- `Bst` (`bst.dfy`) holds the `BinarySearchTree` class, whose field `root` is
  updated in place. Its methods are the source's operations:
  - the loops of `insert`, `find`, `bfs` and `remove` are `while` loops with
    invariants;
  - the inner recursive helpers (`insert(node)`, `find(node)`, `visit`,
    `level`, `highest`, `secondHighest`, `findMin`, `removeNode`) are
    recursive methods over the nodes, and `swap` is a straight-line method
    that exchanges two keys;
  - each method is proved against the corresponding `BstModel` function.

## Model

| member | source | states |
|---|---|---|
| `BstHeap.Node.constructor` | binary-search-tree.js:1-7 | a new node holds the given key and child links |
| `Bst.BinarySearchTree.constructor` | binary-search-tree.js:10-12 | a new tree is empty and well formed |
| `BstModel.TreeInsert` | binary-search-tree.js:17-59 | insert on the tree of keys: smaller keys descend left, equal or larger ones right, and the key becomes a new leaf in the empty slot reached; the result is never empty (its keys, size, height and order are stated by the lemmas below) |
| `Bst.BinarySearchTree.Insert` | binary-search-tree.js:17-39 | the iterative insert keeps the nodes a tree and adds exactly one fresh node to the node set (so it grows by one); that node holds `val` and is a leaf; the keys become `TreeInsert` of the old keys |
| `Bst.AddLeaf` | binary-search-tree.js:25-35 | hanging the fresh node in the empty slot chosen by the key changes the whole structure exactly as `TreeInsert` changes the tree, and leaves the root pointer unchanged; the new node holds `val`, is a leaf, and is `current`'s left child when `val` is smaller, its right child otherwise |
| `Bst.Attach` | binary-search-tree.js:26-34 | the fresh node holds `val`, is a leaf, and goes on the side its key selects: `current.left` when smaller, `current.right` otherwise; the subtree becomes `TreeInsert` of the old one |
| `Bst.InsertAt` | binary-search-tree.js:49-59 | the recursive `insert(node)` returns the same node for a non-empty subtree, or a fresh node for an empty one; the subtree becomes `TreeInsert` of the old one with one fresh node added, which holds `val` and is a leaf |
| `Bst.BinarySearchTree.InsertRecursively` | binary-search-tree.js:44-63 | the recursive insert has the same effect as the iterative one: one fresh leaf holding `val` joins the node set, and the keys become `TreeInsert` of the old keys |
| `Bst.BinarySearchTree.NodesPerKey` | binary-search-tree.js:1-7 | every node holds one key: the tree has as many nodes as keys, counted with multiplicity |
| `BstModel.InsertKeys` | binary-search-tree.js:17-39 | insertion adds exactly one occurrence of the key and one node |
| `BstModel.InsertHeight` | binary-search-tree.js:17-39 | insertion never lowers the tree and adds at most one level, the new leaf's |
| `BstModel.InsertKeepsBst` | binary-search-tree.js:25-36 | insertion preserves the search-tree order (smaller keys left, equal or larger right) |
| `BstModel.InsertAllKeys` | binary-search-tree.js:17-39 | a sequence of insertions holds exactly the inserted keys |
| `BstModel.InsertAllKeepsBst` | binary-search-tree.js:17-39 | a tree built by insertions is a search tree |
| `Bst.BinarySearchTree.Find` | binary-search-tree.js:68-81 | the loop returns the first node on the search path holding the key, or null exactly when the recursive search finds nothing; in a search tree, non-null exactly when the key is present |
| `BstHeap.FindShape` | binary-search-tree.js:68-96 | the search path of `find` and `find(node)` on the node structure: right for greater keys, left for smaller, stopping at the first node holding the key or at a null link |
| `BstHeap.FindShapeTree` | binary-search-tree.js:68-96 | the node search stays inside the structure, stops only at a node holding the key, and finds exactly the subtree the value-level search finds |
| `Bst.FindFrom` | binary-search-tree.js:87-96 | the recursive `find(node)` returns the node the search path reaches for the key |
| `Bst.BinarySearchTree.FindRecursively` | binary-search-tree.js:86-98 | the result is the node the search path reaches first holding the key (the same node the iterative `find` returns), it holds the key and its subtree is the one the value-level search returns; null exactly when the search fails; in a search tree, non-null exactly when the key is present |
| `BstModel.FindRecursively` | binary-search-tree.js:87-96 | a found subtree has the searched key at its root |
| `BstModel.FindRecursivelySound` | binary-search-tree.js:86-98 | whatever the search finds is a key of the tree |
| `BstModel.FindRecursivelyComplete` | binary-search-tree.js:86-98 | in a search tree the search succeeds if and only if the key is present |
| `Bst.PreOrderFrom` | binary-search-tree.js:104-111 | the pre-order `visit` yields the pre-order sequence of the subtree |
| `Bst.InOrderFrom` | binary-search-tree.js:119-126 | the in-order `visit` yields the in-order sequence of the subtree |
| `Bst.PostOrderFrom` | binary-search-tree.js:134-141 | the post-order `visit` yields the post-order sequence of the subtree |
| `Bst.BinarySearchTree.DfsPreOrder` | binary-search-tree.js:103-113 | the result is the pre-order sequence and holds exactly the tree's keys |
| `Bst.BinarySearchTree.DfsInOrder` | binary-search-tree.js:118-128 | the result is the in-order sequence, holds exactly the tree's keys, and is sorted when the tree is a search tree |
| `Bst.BinarySearchTree.DfsPostOrder` | binary-search-tree.js:133-143 | the result is the post-order sequence and holds exactly the tree's keys |
| `BstModel.DfsPreOrder` | binary-search-tree.js:104-111 | one entry per node |
| `BstModel.DfsInOrder` | binary-search-tree.js:119-126 | one entry per node |
| `BstModel.DfsPostOrder` | binary-search-tree.js:134-141 | one entry per node |
| `BstModel.PreOrderKeys` | binary-search-tree.js:103-113 | the pre-order sequence is a permutation of the keys |
| `BstModel.InOrderKeys` | binary-search-tree.js:118-128 | the in-order sequence is a permutation of the keys |
| `BstModel.PostOrderKeys` | binary-search-tree.js:133-143 | the post-order sequence is a permutation of the keys |
| `BstModel.DfsSameKeys` | binary-search-tree.js:103-143 | the three depth-first walks hold the same multiset of keys, and all are empty on an empty tree |
| `BstModel.InOrderSorted` | binary-search-tree.js:118-128 | in a search tree the in-order walk is sorted |
| `Bst.BinarySearchTree.Bfs` | binary-search-tree.js:148-158 | on a non-empty tree the queue loop yields the level order of the tree, one entry per node and exactly the tree's keys; on an empty tree it fails (None) |
| `BstModel.LevelOrder` | binary-search-tree.js:151-156 | the queue loop as a function of the queue: take the front tree, output its key and queue its children behind the rest; empty trees are skipped (its meaning is stated by the next lemmas) |
| `BstModel.LevelOrderKeys` | binary-search-tree.js:149-156 | the queue discipline outputs each queued node's key exactly once |
| `BstModel.BfsKeys` | binary-search-tree.js:148-158 | breadth-first output starts with the root and holds the same keys as the depth-first walks |
| `BstModel.LevelOrderSplit` | binary-search-tree.js:151-156 | draining the front part of the queue outputs its roots and queues their children behind the rest |
| `BstModel.LevelOrderIsByLevel` | binary-search-tree.js:148-158 | the FIFO queue yields the keys depth by depth, each depth left to right |
| `Bst.BinarySearchTree.Remove` | binary-search-tree.js:164-222 | the keys become `TreeRemove` of the old keys; the structure stays a tree; with the key absent nothing changes and null is returned; otherwise the returned node was in the structure and is exactly the one that leaves it, holding the key with both links cleared (see Findings) |
| `Bst.RemoveFrom` | binary-search-tree.js:201-221 | the descent plus unlinking: `cur` (what remove returns as written) is the first node on the search path holding the key; it holds `ReturnedKey` afterwards; exactly one node leaves the structure |
| `Bst.Descend` | binary-search-tree.js:201-210 | the loop stops at the subtree the search reaches, with `parent` null exactly at the root, and removal in the whole tree is removal in that subtree |
| `Bst.Unlink` | binary-search-tree.js:214-221 | removeNode runs below the real parent or the placeholder, the root pointer is updated in the root case, and exactly the detached node leaves the structure |
| `Bst.RemoveTop` | binary-search-tree.js:214-218 | with a placeholder parent whose left child is the root, the new root is the top of the structure after removing the root |
| `BstHeap.MinNode` | binary-search-tree.js:165-168 | the node `findMin` reaches by following left links |
| `BstHeap.MinNodeIn` | binary-search-tree.js:165-168 | that node belongs to the structure it was searched in |
| `BstHeap.RemoveMinShape` | binary-search-tree.js:175-197 | the structure with the successor's node unlinked and its right child moved into its slot, as `removeNode(minNode, minParent)` leaves it |
| `BstHeap.RemoveMinShapeNodes` | binary-search-tree.js:175-197 | unlinking the successor takes exactly its node out of the structure and keeps the rest free of sharing |
| `BstHeap.RemoveMinShapeTree` | binary-search-tree.js:165-185 | the successor's node holds the minimum key, and unlinking it is `RemoveMin` on the tree of keys |
| `BstHeap.RemoveRootShape` | binary-search-tree.js:174-198 | the structure `removeNode` leaves: with two children the node stays in place and the successor's node is unlinked; otherwise its only child, or nothing, takes its slot |
| `BstHeap.DetachedNode` | binary-search-tree.js:174-198 | the node `removeNode` returns: the successor's node with two children, the node itself otherwise |
| `BstHeap.DetachedNodeIn` | binary-search-tree.js:174-198 | the returned node belongs to the structure it is unlinked from |
| `BstHeap.RemoveRootShapeNodes` | binary-search-tree.js:174-198 | `removeNode` takes exactly the returned node out of the structure and keeps the rest free of sharing |
| `Bst.FindMin` | binary-search-tree.js:165-168 | `findMin` returns the leftmost node below `node` with the minimum key, and its parent |
| `Bst.Swap` | binary-search-tree.js:169-173 | the two nodes exchange keys |
| `Bst.ReplaceChild` | binary-search-tree.js:194-195 | the parent link that pointed at the node now points at its replacement, and the rest of the path is unchanged |
| `Bst.RemoveNode` | binary-search-tree.js:174-198 | the subtree loses its top key as `RemoveRoot` says; the returned node is the detached one, holds the removed key and has both links cleared; with two children the original node takes the successor's key |
| `Bst.RemoveLeaf` | binary-search-tree.js:175-179 | a leaf is cut off from its parent |
| `Bst.RemoveTwoChildren` | binary-search-tree.js:180-186 | the successor's key moves up and the successor's node is unlinked instead |
| `Bst.RemoveLeftOnly` | binary-search-tree.js:187-192 | the left child is promoted into the node's slot and the node's left link is cleared |
| `Bst.RemoveRightOnly` | binary-search-tree.js:194-197 | the right child is promoted into the node's slot and the node's right link is cleared |
| `BstModel.TreeRemove` | binary-search-tree.js:203-213 | removing an absent key changes nothing |
| `BstModel.RemoveKeys` | binary-search-tree.js:164-222 | removal takes away exactly one occurrence of the key and one node |
| `BstModel.RemoveInOrder` | binary-search-tree.js:164-222 | the in-order sequence after removal is the old one with one occurrence of the key deleted |
| `BstModel.RemoveKeepsBst` | binary-search-tree.js:164-222 | removal preserves the search-tree order |
| `BstModel.RemoveAbsent` | binary-search-tree.js:211-213 | in a search tree, removing a key that is not there leaves the tree unchanged |
| `BstModel.Min` | binary-search-tree.js:165-168 | the key of the node `findMin` reaches by following left links |
| `BstModel.MinInKeys` | binary-search-tree.js:165-168 | the minimum is a key of the subtree |
| `BstModel.MinIsLeast` | binary-search-tree.js:165-168 | in a search tree the minimum is at most every key |
| `BstModel.RemoveMin` | binary-search-tree.js:180-185 | the subtree without its leftmost node, whose right child takes its place: what unlinking the successor found by `findMin` does |
| `BstModel.RemoveRoot` | binary-search-tree.js:174-198 | removeNode at the top of a subtree: a leaf disappears, a single child is promoted, and with two children the minimum of the right subtree takes the top key while its own node is removed |
| `BstModel.RemoveMinInOrder` | binary-search-tree.js:165-168 | the minimum is the first key in order, and removing it leaves the rest of the in-order sequence |
| `BstModel.RemoveRootInOrder` | binary-search-tree.js:174-198 | unlinking the top of a subtree leaves the in-order keys of its two children, in order |
| `BstModel.RemoveRootKeepsBst` | binary-search-tree.js:174-198 | removeNode's restructuring of a search tree is a search tree |
| `BstModel.RemoveExample` | binary-search-tree.js:164-222 | removing 10 from the tree built from 10, 5, 15, 3, 7, 12, 20 leaves 3, 5, 7, 12, 15, 20 in order, with 12 at the root |
| `BstModel.ReturnedKey` | binary-search-tree.js:218-221 | the key held by the node remove returns as written: none exactly when the search fails; the successor's key when the found node had two children, the removed key otherwise |
| `Bst.Returned` | binary-search-tree.js:218-221 | the node remove returns as written is the found node: with two children it still sits in the tree holding the successor's key, otherwise it is the detached node, holding the key with both links cleared |
| `BstModel.ReturnedKeyIsNotRemoved` | binary-search-tree.js:180-186 | when the key occurs once and its node has two children, the node remove returns as written no longer holds the key |
| `BstModel.ReturnedKeyExample` | binary-search-tree.js:214-218 | removing 10 from the tree built from 10, 5, 15, 3, 7, 12, 20 returns, as written, a node holding 12 |
| `Bst.LevelFrom` | binary-search-tree.js:228-231 | `level(node, high)` is `high` plus the height of the subtree |
| `Bst.BinarySearchTree.IsBalanced` | binary-search-tree.js:227-234 | the result is true exactly when the tree is empty or the heights of the root's two subtrees differ by at most one |
| `BstModel.IsBalanced` | binary-search-tree.js:232-233 | the empty tree is balanced; otherwise the heights of the root's two subtrees differ by at most one |
| `BstModel.BalancedAtRootOnly` | binary-search-tree.js:232-233 | only the root is tested: a tree with a lopsided subtree can still be reported balanced |
| `BstModel.BalanceExamples` | binary-search-tree.js:227-234 | the tree built from 10, 5, 15 is balanced, and the one built from 10, 5, 1 is not |
| `Bst.HighestFrom` | binary-search-tree.js:254-260 | `highest(node)` follows the right spine to the maximum of the subtree |
| `Bst.SecondHighestFrom` | binary-search-tree.js:242-253 | `secondHighest(node)` returns the subtree's second key from the top |
| `Bst.BinarySearchTree.FindSecondHighest` | binary-search-tree.js:240-262 | the result is the next-to-last key in order, or none when the tree has fewer than two nodes |
| `BstModel.Highest` | binary-search-tree.js:254-260 | there is a highest key exactly when the tree is non-empty |
| `BstModel.HighestIsLast` | binary-search-tree.js:254-260 | the highest key is the last key in order |
| `BstModel.SecondHighest` | binary-search-tree.js:242-253 | follow the right spine; below its last node the answer is that node's spine predecessor, or the highest key of its left subtree, or none (its meaning is stated by the next two lemmas) |
| `BstModel.FindSecondHighest` | binary-search-tree.js:240-262 | none for an empty tree, otherwise `SecondHighest` of the root |
| `BstModel.SecondHighestIsPenultimate` | binary-search-tree.js:242-253 | the second-highest query returns the next-to-last key in order, or none when there are fewer than two nodes |
| `BstModel.SecondHighestIsSecondLargest` | binary-search-tree.js:240-262 | in a search tree the result is at most the maximum and at least every other key; it equals the maximum when the maximum occurs twice |
| `BstModel.SecondHighestExamples` | binary-search-tree.js:240-262 | 8 for the tree built from 5, 3, 8, 1, 4, 7, 9; none for a single key; 3 for the tree built from 5, 3 |

## Left out

- Dynamic typing: keys are integers, compared with the integer order. JavaScript's `undefined` and `null` results are modelled as `null` references or `None`.
- The constructor argument `root`: a tree pre-seeded with an arbitrary node structure is not modelled, because nothing guarantees that such a structure is a tree. Trees start empty.
- `return this` (call chaining) from `insert` and `insertRecursively`: the methods return no reference to the tree. Their only result is a ghost reference to the node they add, which their contracts speak of.
- `module.exports`: there is no module system to model.
- `Bst.BinarySearchTree.Bfs`: on an empty tree the source dereferences the `null` it queued and throws. The model returns `None` there instead of an exception. The queue holds only non-null nodes, since the root is tested before it is queued.
- The placeholder parent's key is `null` in the source. Here it is 0; the key is never read.
- Loop layout: `insert`'s loop reads the next link once per step before testing it. `remove`'s loop and unlinking step are split into `Descend`, `RemoveFrom` and `Unlink`, and `removeNode`'s three cases into one method each.
- Node lifetime after removal: the detached node keeps existing and is returned, but it is no longer part of `Repr`.

## Findings

| source | as written | input that shows it | evidently intended | confidence | as-written member | corrected member |
|---|---|---|---|---|---|---|
| binary-search-tree.js:218-221 | `remove` returns `cur`, the node the search found; when that node had two children it has taken its successor's key and stays in the tree, while the successor's node is the one unlinked | remove(10) on the tree built from 10, 5, 15, 3, 7, 12, 20 returns the root node, which now holds 12 and is still in the tree (`BstModel.ReturnedKeyExample`; in general `BstModel.ReturnedKeyIsNotRemoved`) | return the removed node (the node `removeNode` returns), which holds 10 | not executed | `Bst.RemoveFrom` | `Bst.BinarySearchTree.Remove` |
