# Verified model of PySTL's tree core

This project models the two tree components of `algorithms/tree` in Dafny and
proves their ordering, size and shape properties.

- **Generic multi-way tree** (`abstract_tree.py`), module `GenericTree` in
  `generic_tree.dfy`. A vertex `Node(data, children)` has an ordered list of
  child slots. A slot may be absent (`None`), written `Nil` here. The `Tree`
  class keeps `root` (the source's `_root`) and `size` (`_size`). Pre-order and
  post-order traversal are recursive functions. Breadth-first traversal is a
  method whose FIFO loop uses a `seq` as the queue; it is proved equal to the
  function `LevelOrder`. `traverse` resolves an order name: `None`, a string, or
  anything else. It returns a `Result` in place of a raised `ValueError` or
  `TypeError`.
- **Binary search tree** (`bst.py`), module `Bst` in `bst.dfy`. Nodes are the
  values `BNode = Nil | Node(key, value, left, right)`, with integer keys. The
  `BinarySearchTree` class keeps `root` and the `size` counter. The recursive
  helpers `_insert`, `_delete`, `_delete_min_node` and `_delete_max_node` are
  recursive methods that bump the counter where the source does. Each returns
  the rebuilt subtree and is proved equal to a pure function (`Inserted`,
  `Deleted`, `DropMin`, `DropMax`). Lemmas about those functions state what the
  operations mean:
  - `Contents` maps each key to its value;
  - `IsBst` is the ordering invariant;
  - `Count` is the number of nodes;
  - `Erase` is the shape without the values.

The class invariant `Valid()` is the ordering alone. The statement "the counter
equals the number of nodes" is kept separately, as `SizeAgrees()`, because
`delete_min_node` and `delete_max_node` as written can break it (see Findings).

Where the repository's prose and its code disagree, the model follows the code:
- `root` raises when there is no root vertex, not when the size is 0;
- `copy` shares the children lists and counts each vertex twice;
- `delete_min_node` and `delete_max_node` drop a subtree;
- in-order keys are strictly ascending, because insertion overwrites an equal key.

`bst.py` imports `BinaryTree` and `BinaryNode`, but `abstract_tree.py` does not
define them. The node shape used here comes from `bst.py:92-99`. The search
tree's `root` is treated as an assignable node reference (`bst.py:87`), and its
`size` as a mutable counter (`bst.py:91`).

## Model

| member | source | states |
|---|---|---|
| `GenericTree.CopyNode` | algorithms/tree/abstract_tree.py:17-22 | the copy is a vertex with the same payload and the very same children list |
| `GenericTree.PreOrder` | algorithms/tree/abstract_tree.py:132-137 | pre-order yields only present vertices; absent child slots are skipped |
| `GenericTree.PostOrder` | algorithms/tree/abstract_tree.py:142-147 | post-order yields only present vertices; absent child slots are skipped |
| `GenericTree.PreOrderPostOrderPermutation` | algorithms/tree/abstract_tree.py:129-147 | pre-order and post-order yield the same multiset of vertices |
| `GenericTree.PreOrderSubtreeFollows` | algorithms/tree/abstract_tree.py:132-137 | in pre-order every vertex is immediately followed by exactly its descendants, in their own pre-order |
| `GenericTree.PostOrderSubtreePrecedes` | algorithms/tree/abstract_tree.py:142-147 | in post-order every vertex comes immediately after exactly its descendants, in their own post-order |
| `GenericTree.LevelOrder` | algorithms/tree/abstract_tree.py:149-157 | what the FIFO loop yields from a given queue contains only present vertices |
| `GenericTree.LevelOrderPermutation` | algorithms/tree/abstract_tree.py:149-157 | breadth-first order yields the same multiset of vertices as pre-order of the queued trees |
| `GenericTree.LevelOrderAppend` | algorithms/tree/abstract_tree.py:152-157 | FIFO: the present vertices at the front of the queue come out before anything queued behind them, and their children are queued after everything already waiting |
| `GenericTree.LevelOrderByLevels` | algorithms/tree/abstract_tree.py:149-157 | breadth-first order is level order: for every n it is the present vertices of levels 0 to n-1, level by level, followed by the traversal of level n onwards |
| `GenericTree.OrdersAgreeInLength` | algorithms/tree/abstract_tree.py:129-157 | the three orders visit the same number of vertices |
| `GenericTree.DataOf` | algorithms/tree/abstract_tree.py:116-117 | `traverse` yields the payload of each visited vertex, one for one and in order |
| `GenericTree.RecurCopy` | algorithms/tree/abstract_tree.py:84-92 | `recur_copy` as written returns a copy equal to the original and a count of twice the number of vertices; its loop invariant tracks the count over the children visited so far |
| `GenericTree.RecurCopyCounted` | algorithms/tree/abstract_tree.py:84-92 | corrected count: `recur_copy` returning the count it accumulates gives exactly the number of vertices |
| `GenericTree.CopyCountDoubles` | algorithms/tree/abstract_tree.py:84-92 | the as-written count equals the vertex count only for the empty tree; a single vertex counts as 2 |
| `GenericTree.Tree.constructor` | algorithms/tree/abstract_tree.py:26-28 | a new tree has no root and size 0 |
| `GenericTree.Tree.Clear` | algorithms/tree/abstract_tree.py:32-37 | `clear` removes the root, sets size to 0 and returns the same tree; afterwards `isEmpty` holds and reading `root` raises |
| `GenericTree.Tree.Root` | algorithms/tree/abstract_tree.py:39-43 | reading `root` raises `EmptyTree` exactly when there is no root vertex; otherwise it gives the root's payload, not the vertex |
| `GenericTree.Tree.Len` | algorithms/tree/abstract_tree.py:45-53 | `size` and `len(tree)` both read the counter |
| `GenericTree.Tree.IsEmpty` | algorithms/tree/abstract_tree.py:49-50 | `isEmpty` holds exactly when the length is 0 |
| `GenericTree.Tree.Copy` | algorithms/tree/abstract_tree.py:78-99 | `copy` gives a fresh tree with an equal root and the as-written size of twice the vertex count |
| `GenericTree.Tree.BreadthFirstOrderTraverse` | algorithms/tree/abstract_tree.py:149-157 | the queue loop yields `LevelOrder` of the root, level by level: for every n, the present vertices of the first n levels come first, each level in left-to-right order, and only then anything deeper. The result is a permutation of pre-order and starts with the root when there is one |
| `GenericTree.Tree.Traverse` | algorithms/tree/abstract_tree.py:105-127 | `None` selects breadth-first order. `pre_order`, `post_order` and `breadth_first_order` yield the payloads of the matching traversal. A non-string raises `OrderNotString`. A name whose `*_traverse` method needs an argument raises `MissingArgument`. Any other unknown name raises `WrongOrdering`. Every success has one payload per vertex |
| `GenericTree.Tree.TraverseByName` | algorithms/tree/abstract_tree.py:121-127 | `getattr(self, order + "_traverse")` succeeds exactly for the three order names, with one payload per vertex; a failure is `MissingArgument` exactly for names whose method needs an argument, and `WrongOrdering` otherwise |
| `GenericTree.DemoPreOrder` | algorithms/tree/abstract_tree.py:185-195 | on the module's demonstration tree, pre-order payloads are 0,1,4,2,3,2,3 |
| `GenericTree.DemoBreadthFirst` | algorithms/tree/abstract_tree.py:185-189 | on the same tree, breadth-first payloads are 0,1,2,3,4,2,3 |
| `Bst.CountIsNumberOfKeys` | algorithms/tree/bst.py:89-101 | in an ordered tree the number of nodes equals the number of distinct keys |
| `Bst.HeightOf` | algorithms/tree/bst.py:81-84 | `_height` is 0 exactly for an absent node |
| `Bst.HeightBounds` | algorithms/tree/bst.py:81-84 | height is 0 exactly for the empty tree, and a tree of height h has at least h and fewer than 2^h nodes |
| `Bst.FindIn` | algorithms/tree/bst.py:109-118 | `_find` returns a value only for a key stored in the tree |
| `Bst.FindInContents` | algorithms/tree/bst.py:109-118 | on an ordered tree `_find` returns the value stored for the key, and `None` exactly when the key is absent |
| `Bst.Inserted` | algorithms/tree/bst.py:89-101 | insertion adds the key to the key set; the node count grows by one exactly when the search misses the key |
| `Bst.InsertedKeepsOrder` | algorithms/tree/bst.py:94-99 | insertion preserves the ordering invariant |
| `Bst.InsertedContents` | algorithms/tree/bst.py:94-99 | after insertion the key maps to the new value and every other pair is unchanged |
| `Bst.InsertedKeepsShape` | algorithms/tree/bst.py:94-95 | inserting a present key overwrites its value only: shape and keys are unchanged |
| `Bst.FindAfterInsert` | algorithms/tree/bst.py:86-118 | after `insert(k, v)`, `find(k)` is `v` and `find` of every other key is unchanged |
| `Bst.MinNodeOf` | algorithms/tree/bst.py:174-179 | `None` exactly for the empty tree. Otherwise it returns the tree's own leftmost node, a subtree of the tree with no left child. If the tree is ordered, its key is the smallest and its value is the one stored for that key |
| `Bst.MaxNodeOf` | algorithms/tree/bst.py:184-190 | `None` exactly for the empty tree. Otherwise it returns the tree's own rightmost node, a subtree of the tree with no right child. If the tree is ordered, its key is the largest and its value is the one stored for that key |
| `Bst.HangOffMax` | algorithms/tree/bst.py:140-143 | hanging the right subtree off the left subtree's maximum unites the key sets and adds the node counts |
| `Bst.HangOffMaxKeepsOrder` | algorithms/tree/bst.py:137-145 | when every key hung is above every key of the left subtree, the result is ordered and holds the union of the contents |
| `Bst.SpliceOut` | algorithms/tree/bst.py:137-145 | `_delete_THE_node` removes exactly one node; the remaining keys are those of the two subtrees |
| `Bst.SpliceOutKeepsOrder` | algorithms/tree/bst.py:137-145 | splicing out the root of an ordered tree keeps it ordered and removes exactly the root's key |
| `Bst.Deleted` | algorithms/tree/bst.py:123-135 | deletion removes one node exactly when the search finds the key, and changes nothing when it does not |
| `Bst.DeletedKeepsOrder` | algorithms/tree/bst.py:123-145 | deletion keeps the tree ordered, removes the key and keeps every other key/value pair |
| `Bst.FindAfterDelete` | algorithms/tree/bst.py:120-135 | after `delete(k)`, `find(k)` is `None` and `find` of every other key is unchanged |
| `Bst.DropMin` | algorithms/tree/bst.py:150-157 | `_delete_min_node` as written loses the leftmost node and its whole right subtree |
| `Bst.DropMax` | algorithms/tree/bst.py:162-169 | `_delete_max_node` as written loses the rightmost node and its whole left subtree |
| `Bst.DeleteMin` | algorithms/tree/bst.py:150-157 | corrected: replacing the leftmost node by its right subtree removes exactly one node |
| `Bst.DeleteMax` | algorithms/tree/bst.py:162-169 | corrected: replacing the rightmost node by its left subtree removes exactly one node |
| `Bst.DropMinKeepsOrder` | algorithms/tree/bst.py:150-157 | the as-written deletion of the minimum keeps an ordered tree ordered |
| `Bst.DropMaxKeepsOrder` | algorithms/tree/bst.py:162-169 | the as-written deletion of the maximum keeps an ordered tree ordered |
| `Bst.DeleteMinRemovesMinimum` | algorithms/tree/bst.py:150-157 | the corrected deletion keeps the order and removes exactly the smallest key |
| `Bst.DeleteMaxRemovesMaximum` | algorithms/tree/bst.py:162-169 | the corrected deletion keeps the order and removes exactly the largest key |
| `Bst.DropMinAgrees` | algorithms/tree/bst.py:150-157 | the code as written equals the corrected deletion exactly when the leftmost node has no right child |
| `Bst.DropMaxAgrees` | algorithms/tree/bst.py:162-169 | the code as written equals the corrected deletion exactly when the rightmost node has no left child |
| `Bst.DropMinLosesRightSubtree` | algorithms/tree/bst.py:150-157 | on the ordered tree 1 with right child 2, `delete_min_node` as written leaves no node while the counter drops by one |
| `Bst.DropMaxLosesLeftSubtree` | algorithms/tree/bst.py:162-169 | on the ordered tree 2 with left child 1, `delete_max_node` as written leaves no node while the counter drops by one |
| `Bst.InOrderOf` | algorithms/tree/bst.py:200-205 | in-order yields one node per tree node, each carrying a key of the tree |
| `Bst.OutOrderOf` | algorithms/tree/bst.py:210-215 | out-order yields one node per tree node, each carrying a key of the tree |
| `Bst.InOrderAscending` | algorithms/tree/bst.py:194-205 | on an ordered tree, in-order yields nodes by strictly ascending key |
| `Bst.InOrderCoversKeys` | algorithms/tree/bst.py:200-205 | the keys in-order yields are exactly the tree's keys |
| `Bst.OutOrderIsReversedInOrder` | algorithms/tree/bst.py:207-215 | out-order is exactly the reverse of in-order |
| `Bst.InsertScenario` | algorithms/tree/bst.py:81-101 | inserting 5, 3, 8, 1, 4 gives height 3 and in-order keys 1, 3, 4, 5, 8 |
| `Bst.DeleteScenario` | algorithms/tree/bst.py:120-145 | then deleting 3 leaves 4 nodes with in-order keys 1, 4, 5, 8 |
| `Bst.BinarySearchTree.constructor` | algorithms/tree/abstract_tree.py:26-28 | a new search tree is empty, ordered, with counter 0 |
| `Bst.BinarySearchTree.Height` | algorithms/tree/bst.py:77-84 | the `height` property is 0 exactly for the empty tree, and the node count lies between it and 2^height - 1 |
| `Bst.BinarySearchTree.InsertAt` | algorithms/tree/bst.py:89-101 | `_insert` returns the rebuilt subtree; the counter goes up by one exactly when a node is created |
| `Bst.BinarySearchTree.Insert` | algorithms/tree/bst.py:86-87 | `insert` sets the root to `Inserted` of the old root, so the new leaf goes where the search misses. It keeps the order and maps the key to the value. The counter grows exactly for a new key, and a correct counter stays correct. A present key leaves the shape unchanged |
| `Bst.BinarySearchTree.Find` | algorithms/tree/bst.py:103-107 | `find` returns the stored value, or `None` for an absent key |
| `Bst.BinarySearchTree.DeleteAt` | algorithms/tree/bst.py:123-135 | `_delete` returns the rebuilt subtree; the counter goes down by one exactly when the key is found |
| `Bst.BinarySearchTree.Delete` | algorithms/tree/bst.py:120-121 | `delete` sets the root to `Deleted` of the old root, so a found node is replaced by the predecessor splice. It keeps the order and removes the key. The counter drops exactly for a present key, and a correct counter stays correct. An absent key changes nothing |
| `Bst.BinarySearchTree.DeleteMinAt` | algorithms/tree/bst.py:150-157 | `_delete_min_node` as written; the counter drops by one on a non-empty tree |
| `Bst.BinarySearchTree.DeleteMinNode` | algorithms/tree/bst.py:147-148 | `delete_min_node` keeps the order. Only when the leftmost node has no right child does it remove exactly the smallest key and keep the counter correct |
| `Bst.BinarySearchTree.DeleteMaxAt` | algorithms/tree/bst.py:162-169 | `_delete_max_node` as written; the counter drops by one on a non-empty tree |
| `Bst.BinarySearchTree.DeleteMaxNode` | algorithms/tree/bst.py:159-160 | `delete_max_node` keeps the order. Only when the rightmost node has no left child does it remove exactly the largest key and keep the counter correct |
| `Bst.BinarySearchTree.FindMinNode` | algorithms/tree/bst.py:171-172 | `find_min_node` gives `None` on an empty tree. Otherwise it gives the tree's own node with no left child. On an ordered tree that node holds the smallest key, and `find` of that key gives its value |
| `Bst.BinarySearchTree.FindMaxNode` | algorithms/tree/bst.py:181-182 | `find_max_node` gives `None` on an empty tree. Otherwise it gives the tree's own node with no right child. On an ordered tree that node holds the largest key, and `find` of that key gives its value |
| `Bst.BinarySearchTree.InOrderTraverse` | algorithms/tree/bst.py:194-198 | yields one node per counted node, by strictly ascending key |
| `Bst.BinarySearchTree.OutOrderTraverse` | algorithms/tree/bst.py:207-208 | yields the in-order traversal reversed, so by descending key |
| `Bst.BinarySearchTree.TraverseNodes` | algorithms/tree/bst.py:192-215 | `None` and `in_order` yield `in_order_traverse`; `out_order` yields `out_order_traverse`. A non-string, a name needing an argument, or an unknown name raises the matching error |
| `Bst.BinarySearchTree.TraverseByName` | algorithms/tree/bst.py:192-215 | among the search tree's own methods, the lookup succeeds exactly for `in_order` and `out_order`, with one node per tree node; a failure is `MissingArgument` exactly for names whose method needs an argument, and `WrongOrdering` otherwise |
| `Bst.BinarySearchTree.Clear` | algorithms/tree/abstract_tree.py:32-37 | `clear` leaves an empty, ordered tree with a correct counter and returns the same tree |
| `Bst.BinarySearchTree.IsEmpty` | algorithms/tree/abstract_tree.py:49-50 | with a correct counter, `isEmpty` holds exactly when there is no root |

## Left out

- `check_comparable` and `decorate_all_methods` (`bst.py:54-70`) are not modelled. Keys are `int`, so two keys always compare and the "Key should be comparable" error cannot arise.
- `utils.decorate_all_methods`, `BinaryTree` and `BinaryNode` are not part of this model. The node shape follows their use in `bst.py`.
- Traversals are finite sequences, not lazy generators. Results that change when the tree is mutated mid-iteration are not modelled. So is the fact that a bad order name raises only on first iteration.
- The `Queue` collaborator is replaced by a `seq` in the breadth-first loop.
- `Tree.height` and `recur_height` (`abstract_tree.py:55-62`) are not modelled. They read `.left` and `.right`, which a generic vertex lacks, so they fail on any non-empty generic tree.
- `__str__`, `__repr__`, `_recursive_str`, the commented-out `visualize` and the printing in the `__main__` demonstration are output only. The demonstration tree appears in `DemoPreOrder` and `DemoBreadthFirst`.
- Vertices are values. Object identity is therefore not modelled, and neither is the children list that `Node.copy` and `Tree.copy` share with the original. As a result, the "deep copy to the level of node" promise of `Tree.copy` cannot be checked. The copy in this model is equal to the original.
- `find` returns `None` both for an absent key and for a stored `None` value. The model returns `Option<V>`, so the two cases stay distinct. The default `value=None` of `insert` is not modelled: the value is always passed.
- `Bst.BinarySearchTree.TraverseNodes` requires that the order name is not `pre_order`, `post_order` or `breadth_first_order`. On a search tree these run the inherited generic traversals over `BinaryNode.children`, which is not part of this model. It also returns the visited nodes rather than their `data`, because `BinaryNode.data` is not shown.
- Search-tree nodes are values too. `find_min_node` and `find_max_node` return a snapshot of the node. In the source the caller holds the live node, so a later `insert` of that key (which rewrites `.value`) or a `delete` (whose splice rewrites `.right`) changes what the caller sees. That aliasing is not modelled.
- `copy` on a search tree is not modelled, because it depends on `BinaryNode.copy`.

## Findings

| source | as written | input that shows it | evidently intended | confidence | as-written member | corrected member |
|---|---|---|---|---|---|---|
| algorithms/tree/bst.py:150-157 | at the leftmost node `_delete_min_node` returns `None`, which drops that node's right subtree while `size` drops by 1 | the tree 1 with right child 2: `delete_min_node()` leaves an empty tree with `size` 1 | return the node's right child, removing exactly the minimum | high (not executed) | `Bst.DropMinLosesRightSubtree` | `Bst.DeleteMinRemovesMinimum` |
| algorithms/tree/bst.py:162-169 | at the rightmost node `_delete_max_node` returns `None`, which drops that node's left subtree while `size` drops by 1 | the tree 2 with left child 1: `delete_max_node()` leaves an empty tree with `size` 1 | return the node's left child, removing exactly the maximum | high (not executed) | `Bst.DropMaxLosesLeftSubtree` | `Bst.DeleteMaxRemovesMaximum` |
| algorithms/tree/abstract_tree.py:84-92 | `recur_copy` starts each count at 1 and returns `1 + new_size`, so each vertex counts twice | a tree with a single root vertex: `copy().size` is 2 | one per vertex, which is the size the copy's documentation implies | high (not executed) | `GenericTree.CopyCountDoubles` | `GenericTree.RecurCopyCounted` |

The classes follow the code as written. `BinarySearchTree.DeleteMinNode` and `DeleteMaxNode` use `DropMin` and `DropMax`, and `Tree.Copy` uses `RecurCopy`. `DropMinAgrees` and `DropMaxAgrees` prove that the code as written and the corrected deletion agree exactly when no subtree is lost.
