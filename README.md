# Splay tree of `Lru_vs_SplayTree.py`, in Dafny

This project models the splay tree in `Lru_vs_SplayTree.py` and the memoised
Fibonacci client built on it, and proves properties of both.

The tree is an ordered key→value store over parent-linked nodes:

- `insert` is a plain binary-search-tree insertion that does no splaying. Equal keys go right.
- `search` descends from the root. On a hit it splays the node it found to the root through zig, zig-zig and zig-zag rotations. On a miss it changes nothing.
- `fibonacci_splay` looks `n` up in the tree. On a miss it computes Fib(n) recursively and stores it.

## How the model is built

- **The node graph is an arena.** `SplayTree<V>` (module `SplayTrees`) is a class with these fields:
  - `data[i]` is the `(key, value)` tuple of node `i`.
  - `links[i]` holds node `i`'s `parent`, `left_node` and `right_node` as indices. `NoNode` (-1) plays the part of `None`.
  - `root` is the root pointer.
  - A ghost `shape` is the binary tree that the pointers spell out.
- **Node creation.** Creating a `Node` appends an entry to the arena.
- **Rotations write the links field by field.** Each pointer assignment of `_rotate_right`/`_rotate_left` writes the links in source order: `SetLeft`, `TakePlace`, `SetRight` for `_rotate_right`, and mirrored (`SetRight`, `TakePlace`, `SetLeft`) for `_rotate_left`.
- **The invariant is `Valid()`:**
  - the nodes of `shape` are exactly the arena's indices, each once;
  - `root` is the root of `shape`;
  - every node's links name its parent and children in `shape`;
  - the in-order keys never decrease.
- **Equal keys.** They are allowed. Equal keys go right on insertion, and rotations only preserve the in-order sequence. So that sequence, which is `Entries()`, is the abstract contents, not a strict search-tree order.
- **Module layout:**
  - `Shape` holds trees of node indices, subtree replacement, rotation and depth.
  - `InOrder` holds in-order pairs, sorted insertion and the search rule.
  - `Arena` holds link consistency and the link moves of rotations and insertion.
  - `SplayTrees` holds the class.
  - `Fibonacci` holds the client.
  - `Wrappers` holds `Option`.

## Model

| member | source | states |
|---|---|---|
| SplayTrees.SplayTree.constructor | Lru_vs_SplayTree.py:22-23 | A new tree has no nodes and no root, is valid, and holds no pairs. |
| SplayTrees.SplayTree.Insert | Lru_vs_SplayTree.py:25-30 | On an empty tree the new node is the root, has no parent and has no children. Otherwise the root is unchanged and only the empty slot that descent by the key reaches is filled. The in-order pairs become the old ones with the new pair inserted after every pair whose key is not greater, and the tree stays valid. |
| SplayTrees.SplayTree.InsertNode | Lru_vs_SplayTree.py:32-44 | Descent from `cur` takes the left branch exactly when the key is smaller than the node's key. The new node fills the first empty slot, is linked to that slot's node as its parent, and is the only link change. |
| SplayTrees.SingletonValid | Lru_vs_SplayTree.py:27-28 | A one-node tree holding one pair is valid, and that pair is all it holds. |
| SplayTrees.AttachValid | Lru_vs_SplayTree.py:32-44 | Filling the descent's empty slot keeps the tree valid and sorted. It inserts the pair into the in-order sequence after all equal keys. |
| InOrder.EmptySlot | Lru_vs_SplayTree.py:35-44 | The slot the descent reaches belongs to a node of the tree and really is empty. It is that node's left slot exactly when the key is smaller than the node's key. |
| InOrder.PairsAttach | Lru_vs_SplayTree.py:32-44 | The in-order pairs after the attach are `InsertSorted` of the old ones. |
| InOrder.InsertSortedContents | Lru_vs_SplayTree.py:25-44 | Insertion adds exactly one pair, as a multiset. |
| InOrder.InsertSortedSorted | Lru_vs_SplayTree.py:32-44 | Insertion keeps a non-decreasing key sequence non-decreasing. |
| InOrder.InsertSortedPlacement | Lru_vs_SplayTree.py:35-44 | The new pair lands at `InsertPosition`: after every pair whose key is at most the new key, where the next pair's key is greater. |
| InOrder.InsertPositionSorted | Lru_vs_SplayTree.py:35-44 | In a sorted sequence every pair from `InsertPosition` on has a greater key, so equal keys stay before the new pair. |
| InOrder.InsertSortedHasKey | Lru_vs_SplayTree.py:25-44 | After insertion a key is present exactly when it was present before or is the inserted key. |
| InOrder.InsertSortedDistinct | Lru_vs_SplayTree.py:132-139 | Inserting an absent key keeps the keys distinct. |
| Arena.LinkedAttach | Lru_vs_SplayTree.py:36-44 | Links with the new node as the child of its slot's node, and that node as its parent, are consistent with the shape after the attach. |
| Shape.AttachShape | Lru_vs_SplayTree.py:36-44 | The attach adds exactly the new node and keeps node indices unique and the root unchanged. |
| SplayTrees.SplayTree.Search | Lru_vs_SplayTree.py:46-57 | Returns `None` exactly when no pair has the key. On a hit it returns the value of a stored pair with that key, and after the splay that node is the root with no parent. The tree stays valid with the same in-order pairs, and a miss changes nothing. A key held by the root returns the root's value and changes nothing, so a repeated search is answered without rotations. |
| InOrder.SearchStep | Lru_vs_SplayTree.py:50-53 | In a sorted subtree a key below the node's key can only be on the left, and a key above it only on the right. |
| InOrder.PairsHasNode | Lru_vs_SplayTree.py:54-56 | The node where the search stops holds a pair of the tree. |
| SplayTrees.SplayTree.Splay | Lru_vs_SplayTree.py:59-85 | The loop ends with node `x` as the root, without a parent. The tree stays valid with the same in-order pairs, and a node that already was the root leaves everything untouched. Termination follows from `x`'s depth decreasing. |
| SplayTrees.SplayTree.SplayStep | Lru_vs_SplayTree.py:61-85 | One pass lowers `x`'s depth by 1 in the zig case and by 2 otherwise, keeping the tree valid with the same pairs. |
| SplayTrees.SplayTree.ZigZig | Lru_vs_SplayTree.py:67-78 | Rotating the grandparent, then the parent, the same way lifts `x` two levels, keeping the tree valid with the same pairs. |
| SplayTrees.SplayTree.ZigZag | Lru_vs_SplayTree.py:79-85 | Rotating the parent one way, then `x`'s new parent the other way, lifts `x` two levels, keeping the tree valid with the same pairs. |
| SplayTrees.NodeParent | Lru_vs_SplayTree.py:61-69 | A node's parent link is `None` exactly for the root. Otherwise it names a node one level up that has this node as its left or right child. |
| SplayTrees.NodeChildren | Lru_vs_SplayTree.py:89-91 | A node's child links name the roots of its subtrees, and `None` exactly where a subtree is empty. |
| SplayTrees.GrandchildApart | Lru_vs_SplayTree.py:67-85 | A grandchild is distinct from its parent, from its grandparent, from the grandparent's parent, and from its sibling. |
| Shape.Depth | Lru_vs_SplayTree.py:61-62 | A node's depth is 0 exactly when it is the root. |
| SplayTrees.SplayTree.RotateRight | Lru_vs_SplayTree.py:87-106 | Without a left child nothing changes. Otherwise the links change by exactly a right rotation, the shape is rotated and the root pointer moves to the promoted child if `i` was the root. The tree stays valid with the same in-order pairs. |
| SplayTrees.SplayTree.RotateLeft | Lru_vs_SplayTree.py:108-127 | Mirror image of `RotateRight`. |
| SplayTrees.SplayTree.SetLeft | Lru_vs_SplayTree.py:93-95 | `i`'s left pointer names `c`, and `c`'s parent pointer, if `c` exists, names `i`. |
| SplayTrees.SplayTree.SetRight | Lru_vs_SplayTree.py:105-106 | `i`'s right pointer names `c`, and `c`'s parent pointer, if `c` exists, names `i`. |
| SplayTrees.SplayTree.TakePlace | Lru_vs_SplayTree.py:97-103 | `c` takes `i`'s parent, and that parent's slot that held `i` holds `c`. The root pointer moves to `c` when `i` had no parent. |
| Arena.RightRotationWrites | Lru_vs_SplayTree.py:93-106 | The writes of `_rotate_right`, in order, change exactly the links of a right rotation. They touch only the node, its promoted child, that child's inner child and the parent's slot. |
| Arena.LeftRotationWrites | Lru_vs_SplayTree.py:114-127 | The same for `_rotate_left`. |
| SplayTrees.RotateRightValid | Lru_vs_SplayTree.py:87-106 | Those link moves keep the tree valid and sorted, with the same in-order pairs. |
| SplayTrees.RotateLeftValid | Lru_vs_SplayTree.py:108-127 | The same for a left rotation. |
| SplayTrees.RotateRightReady | Lru_vs_SplayTree.py:89-103 | The node, its left child, that child's right child and the node's parent are distinct nodes. |
| SplayTrees.RotateLeftReady | Lru_vs_SplayTree.py:110-124 | The same for a left rotation. |
| Arena.LinkedRotateRight | Lru_vs_SplayTree.py:87-106 | After a right rotation's link moves, every node's links still name its parent and children in the rotated shape. |
| Arena.LinkedRotateLeft | Lru_vs_SplayTree.py:108-127 | The same for a left rotation. |
| Arena.ReplaceLinked | Lru_vs_SplayTree.py:97-103 | A subtree that hangs off the old parent, with the parent's slot redirected and nothing else changed, gives consistent links. |
| InOrder.PairsRotateRight | Lru_vs_SplayTree.py:87-106 | A right rotation keeps the in-order sequence of (key, value) pairs. |
| InOrder.PairsRotateLeft | Lru_vs_SplayTree.py:108-127 | A left rotation keeps the in-order sequence of (key, value) pairs. |
| Shape.RotateRightShape | Lru_vs_SplayTree.py:87-106 | A rotation keeps the set of nodes and their uniqueness. The promoted child becomes the root when the rotated node was the root. |
| Shape.RotateLeftShape | Lru_vs_SplayTree.py:108-127 | The same for a left rotation. |
| Shape.RotateRightNoop | Lru_vs_SplayTree.py:89-91 | A right rotation at a node without a left child leaves the shape unchanged. |
| Shape.RotateLeftNoop | Lru_vs_SplayTree.py:110-112 | A left rotation at a node without a right child leaves the shape unchanged. |
| Shape.RotateRightDepth | Lru_vs_SplayTree.py:87-106 | A right rotation lifts the promoted child, and its outer subtree, by exactly one level. |
| Shape.RotateLeftDepth | Lru_vs_SplayTree.py:108-127 | The same for a left rotation. |
| Fibonacci.FibonacciSplay | Lru_vs_SplayTree.py:131-140 | On a tree whose pairs map distinct keys to their Fibonacci numbers, closed under the recursion, the result is Fib(n). Afterwards the tree maps `n` too and keeps every old pair. The only new pairs have keys from 0 to `n`, or `n` itself when `n` is negative, and when `n` is 0 or at least 2 every key 0..n is present. |
| Fibonacci.Compute | Lru_vs_SplayTree.py:135-139 | The miss path returns Fib(n), from `n` for `n <= 1` and from the two recursive calls otherwise, and stores it. |
| Fibonacci.Store | Lru_vs_SplayTree.py:139 | Storing Fib(n) under an absent key adds exactly that pair and keeps the memo invariant. |
| Fibonacci.MemoInsert | Lru_vs_SplayTree.py:139 | On sequences: inserting (n, Fib(n)) for an absent `n` whose two predecessors are present keeps the memo exact, closed and key-distinct. |
| Fibonacci.ClosedPrefix | Lru_vs_SplayTree.py:135-138 | In a closed memo, a stored `n` that is 0 or at least 2 brings every key 0..n with it. |
| Fibonacci.FibonacciFromEmpty | Lru_vs_SplayTree.py:131-140 | From an empty tree the result is Fib(n), and the tree maps distinct keys to their Fibonacci numbers. Those keys lie between 0 and `n`, or are `n` alone when `n` is negative, and include `n`. When `n` is 0 or at least 2, the in-order pairs are exactly (0, Fib(0)), ..., (n, Fib(n)), one insertion per key. |
| Fibonacci.ExactTable | Lru_vs_SplayTree.py:131-140 | A sorted memo with distinct keys in 0..n that holds every key 0..n has exactly n + 1 pairs, the i-th being (i, Fib(i)). |
| Fibonacci.KeyAt | Lru_vs_SplayTree.py:131-140 | In such a memo the pair at index `i` has key `i`. |
| Fibonacci.FibonacciOfTen | Lru_vs_SplayTree.py:131-140 | `fibonacci_splay(10, SplayTree())` is 55. |

## Left out

- Object identity and the heap: nodes are arena indices, so two distinct `Node` objects are two distinct indices. Python's `==` on nodes is identity, which index comparison matches.
- Keys are integers and values are of a generic type. The comparisons `<` and `>` on other Python key types are not modelled.
- SplayTrees.SplayTree.Search: the result is stated as the value of some stored pair with the key. With duplicate keys the source returns the one whose node is nearest the root on the descent path, and the model does not state which one that is.
- SplayTrees.SplayTree.Search: the miss result is `Option.None`. In the source, a stored value that is itself `None` cannot be told apart from a miss, and the model does not capture that ambiguity.
- SplayTrees.SplayTree.Splay: the final shape is stated only as a valid tree with the same in-order pairs and `x` at the root, not as the exact tree that the sequence of rotations builds.
- Fibonacci.FibonacciSplay: "every key 0..n is present afterwards" is stated for `n == 0` and `n >= 2` only. For `n == 1` the base case stores key 1 alone, without 0.
- The `__main__` benchmark is not part of this model: timings are wall-clock floats, and the printed tables and plots are I/O.
- `fibonacci_lru` is not part of this model: it relies on the `functools.lru_cache` library decorator. Its recursion is the `Fib` function used here.
- `lru_cache.py` is not part of this model: it is timing harness code over library caches.
- Running time and amortised complexity, and Python's recursion-depth limit on deep `_insert_node` or `fibonacci_splay` recursion, are cost properties and are not modelled.
