# AVL tree and binary search tree, modelled in Dafny

This project models the two working search trees of the `rsds` data
structure crate:

- `src/avl.rs`: a self-balancing AVL tree. Every node caches the height of
  its subtree. A leaf has height 1 and an absent link has height 0.
  `insert` and `remove` descend recursively. On the way back up, every
  ancestor passes through `balance`, which refreshes the cached height and
  rotates once or twice when the balance factor reaches 2 or -2.
  Deleting a node with two children copies the in-order successor into the
  node and then deletes the successor from the right subtree. `contains` is
  an iterative descent. `in_order_traversal` lists the keys.
- `src/tree/bst.rs`: the same ordered set without rebalancing. It has
  recursive insert, successor-based remove, recursive search and in-order
  traversal.

Files:

- `orders.dfy` (module `Orders`): facts about strictly ascending sequences,
  shared by both trees.
- `avl.dfy` (module `Avl`): the AVL tree.
- `bst.dfy` (module `Bst`): the plain search tree.
- `avl_tests.dfy`, `bst_tests.dfy`: the repository's unit tests and the
  demo sequence of `src/main.rs`, each replayed as a client method. Each
  expected outcome is proved from the tree object's contracts.

Both trees are an inductive `Tree` datatype. `Leaf` is an absent link
(`None`) and `Node` is an owned node. The recursive `insert_internal` and
`remove_internal` are pure functions from a subtree and a key to a new
subtree, because that is how the code uses them: each takes a link by value
and returns the link to store. The successor search of `remove_internal` is
a `while` loop (`Successor`). `RemoveNode` is the recursive deletion as
written, running that loop, and it is proved equal to the functional
`RemoveInternal`. `in_order_helper` appends to an accumulator
(`InOrderHelper`). The tree objects `AvlTree` and `BstTree` are classes with
one `root` field that their methods reassign. `Valid()` is their object
invariant: ordering for both trees, plus correct cached heights and balance
for the AVL tree. `Contents()` is the set of stored keys.

The predicates the properties are stated with:

- `Elems(t)`: the set of keys in `t`.
- `Ordered(t)`: the search-tree ordering.
- `HeightsCorrect(t)`: every cached height equals 1 + the larger child
  height, where `Height(Leaf) == 0`.
- `Balanced(t)`: sibling heights differ by at most one.
- `IsAvl(t)`: all three of the above.
- `InOrder(t)`: the in-order listing.

## Model

| member | source | states |
|---|---|---|
| Avl.Height | src/avl.rs:21-23 | definition, no contract: the cached height of a link, 0 for an absent one |
| Avl.BalanceFactor | src/avl.rs:24-26 | left minus right cached height; at a balanced node it lies in -1..1 |
| Avl.UpdateHeight | src/avl.rs:27-29 | only the node's height field changes; the new height is above both child heights and exactly one above the taller |
| Avl.CachedHeightIsComputed | src/avl.rs:21-29 | when every node's cached height was set by `update_height` (absent link 0), the cached height of the root is the height of the shape |
| Avl.UpdateHeightRestores | src/avl.rs:27-29 | `update_height` over subtrees with correct heights makes the node's own height correct; keys and in-order listing are untouched |
| Avl.RotateRight | src/avl.rs:31-38 | needs only that the promoted left child is present; the result is a node with a present right child, the same in-order sequence and key set; ordering is preserved; both rotated nodes get correct heights when the three moved subtrees have them |
| Avl.RotateLeft | src/avl.rs:40-47 | the mirror image of `RotateRight`: needs only the right child; same listing and keys, ordering kept, correct heights |
| Avl.Balance | src/avl.rs:48-65 | defined on any present node: every `unwrap` is a rotation precondition that follows from the factor; keys, in-order listing and ordering are preserved; with a factor other than 2 and -2 the result is the input with only its height refreshed |
| Avl.BalanceLeftLeft | src/avl.rs:51-56 | factor 2 over a left child that does not lean right: a single right rotation yields a tree with correct heights that is balanced, of the refreshed height or one less |
| Avl.BalanceLeftRight | src/avl.rs:51-56 | factor 2 over a left child that leans right: the double rotation yields a tree with correct heights that is balanced, exactly one lower than the refreshed height |
| Avl.BalanceRightRight | src/avl.rs:57-62 | factor -2 over a right child that does not lean left: a single left rotation yields a tree with correct heights that is balanced, of the refreshed height or one less |
| Avl.BalanceRightLeft | src/avl.rs:57-62 | factor -2 over a right child that leans left: the double rotation yields a tree with correct heights that is balanced, exactly one lower than the refreshed height |
| Avl.BalanceRestores | src/avl.rs:48-65 | for a node whose children have correct heights, are balanced and differ in height by at most 2, `balance` returns a tree with correct heights that is balanced (ordering is kept by `Balance` itself), whose height is the refreshed height or one less, and changes the shape only when the factor is 2 or -2 |
| Avl.InsertInternal | src/avl.rs:80-93 | result is a present node; keys become exactly `Elems(t) + {v}`; an ordered tree stays ordered |
| Avl.InsertKeepsAvl | src/avl.rs:80-93 | insertion keeps every cached height correct and the tree balanced, and grows the height by at most one |
| Avl.InsertPresentIsIdentity | src/avl.rs:86-89 | inserting a key already stored in an AVL tree returns the very same tree: no node is created and no rotation happens |
| Avl.MinValue | src/avl.rs:125-131 | the left-most key is stored in the subtree and, in an ordered subtree, is its minimum |
| Avl.Successor | src/avl.rs:125-131 | the loop that follows left links ends at the left-most node; its key is the minimum of the subtree |
| Avl.RemoveInternal | src/avl.rs:112-138 | deletion never adds a key |
| Avl.RemoveKeepsOrder | src/avl.rs:112-138 | deletion from an ordered tree keeps it ordered and removes exactly `v`: keys become `Elems(t) - {v}` |
| Avl.SuccessorCopyKeepsOrder | src/avl.rs:125-132 | copying the right subtree's minimum into the node and deleting it from the right subtree keeps left < node < right and drops exactly the node's old key |
| Avl.RemoveKeepsAvl | src/avl.rs:112-138 | deletion keeps every cached height correct and the tree balanced, and lowers the height by at most one |
| Avl.RemoveAbsentIsIdentity | src/avl.rs:112-138 | removing a key that is not stored returns the very same tree |
| Avl.RemoveNode | src/avl.rs:112-138 | the recursive deletion with the successor loop computes exactly `RemoveInternal` |
| Avl.InOrderElems | src/avl.rs:146-152 | the in-order listing holds exactly the stored keys |
| Avl.InOrderSorted | src/avl.rs:146-152 | the in-order listing of an ordered tree is strictly ascending |
| Avl.InOrderHelper | src/avl.rs:146-152 | the helper appends the in-order listing of the subtree to the accumulator |
| Avl.FibMonotone | src/avl.rs:1-3 | Fibonacci numbers do not decrease, which the height bound needs |
| Avl.SizeLowerBound | src/avl.rs:1-3 | a tree with correct heights and balance of height h has at least Fib(h + 2) - 1 nodes |
| Avl.SizeIsCard | src/avl.rs:1-3 | in an ordered tree the node count is the number of distinct stored keys |
| Avl.KeyCountLowerBound | src/avl.rs:1-3 | an AVL tree of height h holds at least Fib(h + 2) - 1 keys, the integer form of the logarithmic height bound |
| Avl.AvlTree.constructor | src/avl.rs:73-75 | the new tree is empty and satisfies the AVL invariant |
| Avl.AvlTree.Insert | src/avl.rs:76-78 | keeps the AVL invariant, stores `InsertInternal(old root, v)`, and the key set gains exactly `v` |
| Avl.AvlTree.Remove | src/avl.rs:108-110 | keeps the AVL invariant, stores `RemoveInternal(old root, v)`, and the key set loses exactly `v` |
| Avl.AvlTree.Contains | src/avl.rs:94-106 | the cursor loop returns true if and only if `v` is stored; it ends because the cursor descends strictly |
| Avl.AvlTree.InOrderTraversal | src/avl.rs:140-144 | the result is the in-order listing, strictly ascending, and holds exactly the stored keys |
| AvlTests.InsertAll | src/avl.rs:161-164 | inserting a sequence of keys in order keeps the invariant and adds exactly those keys |
| AvlTests.RemoveKey | src/avl.rs:168 | a removal seen by a client keeps the invariant and drops exactly the key |
| AvlTests.Build | src/avl.rs:161-164 | a fresh tree after inserting the keys holds exactly those keys |
| Bst.InOrderElems | src/tree/bst.rs:120-126 | the in-order listing holds exactly the stored keys |
| Bst.InOrderSorted | src/tree/bst.rs:120-126 | the in-order listing of an ordered tree is strictly ascending |
| Bst.InOrderDetermined | src/tree/bst.rs:115-126 | the in-order listing of an ordered tree is the one strictly ascending sequence of its keys |
| Bst.MinValue | src/tree/bst.rs:82-88 | the left-most key is stored in the subtree and, in an ordered subtree, is its minimum |
| Bst.Successor | src/tree/bst.rs:82-88 | the loop that follows left links ends at the left-most node; its key is the minimum of the subtree |
| Bst.InsertInternal | src/tree/bst.rs:51-64 | result is a present node; keys become exactly `Elems(t) + {v}`; an ordered tree stays ordered |
| Bst.InsertUnchangedIffPresent | src/tree/bst.rs:51-64 | on an ordered tree, insertion returns the same tree if and only if the key is already stored; an equal key is overwritten in place without creating a node |
| Bst.RemoveInternal | src/tree/bst.rs:69-96 | deletion never adds a key; on an ordered tree it keeps the ordering and keys become exactly `Elems(t) - {v}`, including the two-child case where the successor is copied up |
| Bst.RemoveAbsentIsIdentity | src/tree/bst.rs:69-96 | removing a key that is not stored returns the very same tree |
| Bst.RemoveNode | src/tree/bst.rs:69-96 | the recursive deletion with the successor loop computes exactly `RemoveInternal` |
| Bst.SearchInternal | src/tree/bst.rs:101-113 | a found node holds `v` and is a subtree of the input (`Subtree`), so its children come with it as in the clone; on an ordered tree a node is found if and only if `v` is stored |
| Bst.InOrderHelper | src/tree/bst.rs:120-126 | the helper appends the in-order listing of the subtree to the accumulator |
| Bst.BstTree.constructor | src/tree/bst.rs:44-46 | the new tree is empty and ordered |
| Bst.BstTree.Insert | src/tree/bst.rs:48-50 | keeps the ordering, stores `InsertInternal(old root, v)`, and the key set gains exactly `v` |
| Bst.BstTree.Remove | src/tree/bst.rs:66-68 | keeps the ordering, stores `RemoveInternal(old root, v)`, and the key set loses exactly `v` |
| Bst.BstTree.Search | src/tree/bst.rs:98-100 | returns `SearchInternal(root, v)`: a subtree of the root whose node holds `v` if and only if `v` is stored, `Leaf` (`None`) otherwise |
| Bst.BstTree.InOrderTraversal | src/tree/bst.rs:115-119 | the result is the in-order listing, strictly ascending, and holds exactly the stored keys |
| BstTests.InsertAll | src/tree/bst.rs:135-140 | inserting a sequence of keys in order keeps the ordering and adds exactly those keys |
| BstTests.Build | src/tree/bst.rs:134-140 | a fresh tree after inserting the keys holds exactly those keys |
| Orders.Join | src/avl.rs:146-152 | two ascending runs around a separating key form an ascending sequence; this is the step of the traversal proofs |
| Orders.TailMembers | src/avl.rs:146-152 | the tail of an ascending sequence holds every element except its head |
| Orders.Unique | src/avl.rs:140-144 | two strictly ascending sequences with the same values are equal, so a traversal is fixed by the key set |

The client methods in the test modules have no contract of their own and
so have no row. Each one's body is checked to follow from the contracts
above:

- `AvlTests.TestAvlInsert`, `AvlTests.TestAvlRemove`: the test at
  src/avl.rs:160-171.
- `BstTests.TestBstInsert`, `BstTests.TestBstRemove`: the test at
  src/tree/bst.rs:132-145.
- `AvlTests.DemoInsert`, `AvlTests.DemoRemove`, `BstTests.DemoInsert`,
  `BstTests.DemoRemove`: the demo at src/main.rs:7-25, which inserts
  5, 3, 7, 10, 20 into each tree and lists [3, 5, 7, 10, 20]; after
  removing 3 it lists [5, 7, 10, 20].
- `AvlTests.DemoContains`: after that removal, 7 is found and 100 is not.

## Left out

- src/tree/rbt.rs is not part of this model. Its red-black tree does not
  compile: `fix_violations` has an empty body but a non-unit return type.
  Its rotation also drops the node it rewires, and its parent pointer is
  never set.
- src/main.rs is modelled only as the demo scenarios in the test modules.
  Its printing with `println!` is left out.
- Rust ownership (`Box`, `take()`, `Clone` of the key) is not modelled.
  Subtrees are immutable datatype values with single ownership, and the
  clone returned by `search` is the found subtree itself.
- The generic key type `T: Ord + Clone` is replaced by `int`. Overwriting
  an equal key (src/avl.rs:87, src/tree/bst.rs:58) is modelled explicitly,
  and with integer keys it leaves the node unchanged.
- `Avl.UpdateHeight`, `Avl.RotateRight`, `Avl.RotateLeft`, `Avl.Balance`:
  the source assigns the fields of an owned node in place. The model
  returns the updated node as a new value. Because every node is owned
  exactly once, no other reference can observe the difference.
- The `usize` heights and the `isize` cast in `balance_factor` are
  unbounded integers here. A height cannot come near the width limit for
  any tree that fits in memory.
- The floating-point AVL height bound (about 1.44 log2(n + 2)) is stated in
  integers as `KeyCountLowerBound`: the number of keys grows at least like
  the Fibonacci numbers of the height.
- Avl.AvlTree.Insert, Avl.AvlTree.Remove, Bst.BstTree.Insert,
  Bst.BstTree.Remove, and the `Contains`, `Search` and `InOrderTraversal`
  methods: they require `Valid()`, the object invariant that the
  constructor establishes and every method keeps. The source asks nothing
  of its callers, because a tree cannot be built except through these
  operations.
- Avl.AvlTree.constructor, Bst.BstTree.constructor: the postcondition gives
  the empty key set and not `root == Leaf`. The two are equivalent, and the
  stated form keeps client proofs small.
- Avl.RemoveInternal: its own contract states only that no key is added.
  Ordering and the exact key set are proved separately in
  `RemoveKeepsOrder`, and heights and balance in `RemoveKeepsAvl`.
