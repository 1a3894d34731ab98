# AVL tree

A model of the repository's `AVLTree<T>`: a self-balancing binary search
tree whose `Insert` and `Delete` report with a boolean whether they changed
the tree. `Find`, `FindMin` and `FindMax` return a node or null.
`GetBalance(node)` is the height of the left subtree minus the height of the
right one. `RootValue()` fails on an empty tree, and `Count` is the number
of stored values. The implementation file is not part of this model. The
tree's observable behaviour is fixed by the NUnit scenarios in
`Unit-Test/UnitTest1.cs`, and the model is built against them.

The project has three modules:

- `AvlNode` (`avl_node.dfy`) holds the subtrees as values:
  `Tree = Leaf | Node(left, value, right, height)` over `int` keys.
  - The operations are pure functions that return the new subtree:
    `InsertNode`, `DeleteNode` (which copies the in-order successor and then
    deletes it), `RotateLeft`, `RotateRight`, `Rebalance`, `Find`,
    `FindMin`, `FindMax` and `GetBalance`.
  - The invariants are `IsBST`, `HeightOk` (a stored height equals the
    real depth) and `Balanced` (every balance is in -1..1). `IsAVL` joins
    all three.
  - The lemmas prove that insertion and deletion keep `IsAVL`, that they
    change the stored set by exactly the value, and that the boolean says
    whether they did. They also prove that the queries return what they
    promise.
- `AvlTree` (`avl_tree.dfy`) holds the object callers use: the class
  `AVLTree`, whose `root` and `count` fields `Insert` and `Delete` update in
  place. Its invariant `Valid()` says the root is an AVL tree and `count`
  is the number of values it holds.
- `UnitTests` (`unit_tests.dfy`) replays each `[Test]` of
  `Unit-Test/UnitTest1.cs` as a method whose assertions the verifier
  discharges. Before each call, a lemma states the subtree that call
  produces, so every intermediate tree of a scenario is written out.
  - The string scenario `TestRotationsWithStrings` is replayed with the
    ranks of its keys in ordinal (alphabetical) order.

## Model

| member | source | states |
|---|---|---|
| AvlTree.AVLTree.constructor | Unit-Test/UnitTest1.cs:25 | a new tree is empty, with count 0, and satisfies the tree invariant |
| AvlTree.AVLTree.RootValue | Unit-Test/UnitTest1.cs:12-32 | fails exactly when the tree is empty; otherwise the result is a stored value (the root's) |
| AvlTree.AVLTree.Insert | Unit-Test/UnitTest1.cs:45-56 | keeps the invariant; returns true exactly when `x` was absent; the stored set becomes old set plus `x`; count grows by one only on success |
| AvlTree.AVLTree.Delete | Unit-Test/UnitTest1.cs:180-195 | keeps the invariant; returns true exactly when `x` was present; the stored set becomes old set minus `x`; count drops by one only on success |
| AvlTree.AVLTree.Find | Unit-Test/UnitTest1.cs:79-101 | a found node holds `x`; on a valid tree a node is found exactly when `x` is stored |
| AvlTree.AVLTree.FindMin | Unit-Test/UnitTest1.cs:121-136 | null exactly on an empty tree; otherwise a stored value that, on a valid tree, is at most every stored value |
| AvlTree.AVLTree.FindMax | Unit-Test/UnitTest1.cs:103-119 | null exactly on an empty tree; otherwise a stored value that, on a valid tree, is at least every stored value |
| AvlTree.AVLTree.Count | Unit-Test/UnitTest1.cs:164-178 | on a valid tree the count equals the number of nodes |
| AvlNode.SizeIsCardinality | Unit-Test/UnitTest1.cs:164-178 | in a search tree the number of nodes equals the number of distinct stored values |
| AvlNode.HeightIsDepth | Unit-Test/UnitTest1.cs:58-77 | where the stored heights are consistent, a node's stored height is the depth of its subtree |
| AvlNode.BalanceOfAVL | Unit-Test/UnitTest1.cs:58-77 | the balance of a node is its left subtree's depth minus its right subtree's depth, and it lies in -1..1 in an AVL tree |
| AvlNode.InOrderAscending | Unit-Test/UnitTest1.cs:34-43 | the in-order listing of a search tree is strictly ascending and holds exactly its stored values |
| AvlNode.Find | Unit-Test/UnitTest1.cs:79-89 | a returned node holds the value looked up |
| AvlNode.FindCorrect | Unit-Test/UnitTest1.cs:79-101 | in a search tree a node is found exactly when the value is stored |
| AvlNode.FindMin | Unit-Test/UnitTest1.cs:121-136 | returns null exactly on an empty tree, and a node otherwise |
| AvlNode.FindMinIsLeast | Unit-Test/UnitTest1.cs:121-136 | the value found is stored and, in a search tree, is the least stored value |
| AvlNode.FindMax | Unit-Test/UnitTest1.cs:103-119 | returns null exactly on an empty tree, and a node otherwise |
| AvlNode.FindMaxIsGreatest | Unit-Test/UnitTest1.cs:103-119 | the value found is stored and, in a search tree, is the greatest stored value |
| AvlNode.InsertNode | Unit-Test/UnitTest1.cs:52-55 | an insertion that reports false leaves the subtree unchanged |
| AvlNode.InsertElements | Unit-Test/UnitTest1.cs:45-56 | insertion adds exactly the inserted value to the stored set |
| AvlNode.InsertAVL | Unit-Test/UnitTest1.cs:138-162 | insertion into an AVL tree gives an AVL tree, reports true exactly when the value was absent, and grows the height by at most one |
| AvlNode.DeleteNode | Unit-Test/UnitTest1.cs:190-194 | a deletion that reports false leaves the subtree unchanged |
| AvlNode.DeleteAVL | Unit-Test/UnitTest1.cs:180-210 | deletion from an AVL tree gives an AVL tree without the value, reports true exactly when the value was present, and shrinks the height by at most one |
| AvlNode.DeleteLeftAVL | Unit-Test/UnitTest1.cs:180-195 | the same, for a value smaller than the node's value (deleted below the left child, then rebalanced) |
| AvlNode.DeleteRightAVL | Unit-Test/UnitTest1.cs:180-195 | the same, for a value greater than the node's value |
| AvlNode.DeleteTwoChildrenAVL | Unit-Test/UnitTest1.cs:197-210 | deleting the value of a node with two children, which takes its in-order successor's value, keeps the AVL shape and removes exactly that value |
| AvlNode.RotateRight | Unit-Test/UnitTest1.cs:68-77 | the left child becomes the root and the old root its right child |
| AvlNode.RotateLeft | Unit-Test/UnitTest1.cs:138-149 | the right child becomes the root and the old root its left child |
| AvlNode.RotateRightInOrder | Unit-Test/UnitTest1.cs:68-77 | a right rotation keeps the in-order sequence of values |
| AvlNode.RotateLeftInOrder | Unit-Test/UnitTest1.cs:138-149 | a left rotation keeps the in-order sequence of values |
| AvlNode.RotateRightElements | Unit-Test/UnitTest1.cs:68-77 | a right rotation keeps the stored set and the search-tree order |
| AvlNode.RotateLeftElements | Unit-Test/UnitTest1.cs:138-149 | a left rotation keeps the stored set and the search-tree order |
| AvlNode.Rebalance | Unit-Test/UnitTest1.cs:138-162 | rebalancing always yields a node |
| AvlNode.RebalanceInOrder | Unit-Test/UnitTest1.cs:138-162 | rebalancing keeps the in-order sequence: left values, the node's value, right values |
| AvlNode.RebalanceElements | Unit-Test/UnitTest1.cs:138-162 | rebalancing keeps the stored set and, given ordered inputs, the search-tree order |
| AvlNode.RebalanceAVL | Unit-Test/UnitTest1.cs:138-162 | rebalancing two AVL subtrees whose heights differ by at most two gives an AVL subtree of the expected height |
| AvlNode.LeftHeavyShape | Unit-Test/UnitTest1.cs:68-77 | a node whose left side is two levels taller becomes height-consistent and balanced after rotation |
| AvlNode.LeftRightShape | Unit-Test/UnitTest1.cs:138-149 | the same for the double (left-right) rotation |
| AvlNode.RightHeavyShape | Unit-Test/UnitTest1.cs:138-149 | a node whose right side is two levels taller becomes height-consistent and balanced after rotation |
| AvlNode.RightLeftShape | Unit-Test/UnitTest1.cs:151-162 | the same for the double (right-left) rotation |

The `UnitTests` methods (`TestEmptyInsertion` … `TestDeleteBalance`) replay
`Unit-Test/UnitTest1.cs:12-210` call for call. The lemmas before them
(`TestSimpleInsertStep1` and so on) each state one intermediate tree of a
scenario.

## Left out

- Nodes are values, not objects. The model does not capture aliasing of
  node references or the in-place update of a node's children and height;
  a returned "node" is the subtree rooted at it.
- Keys are `int` rather than a generic `T`. The string scenario is replayed
  with each key's rank in ordinal order. `string.CompareTo` is
  culture-sensitive in .NET, but it orders these six lowercase ASCII words
  the same way.
- The `System.NullReferenceException` that `RootValue()` throws on an empty
  tree is the error result `Err(EmptyTree)`.
- `ToString`, `Clone`, `Merge`, `InRange`, `CountLargerThan`,
  `CountSmallerThan`, `Next` and the lazy `DFSInOrder` iterator are not
  modelled: no scenario uses them. `InOrder` is kept only as a
  specification function.
- The balance of an absent node is taken to be 0, and deletion replaces a
  two-child node's value by its in-order successor. Neither choice is
  observable in the scenarios.
- The O(log n) running time and thread safety are not modelled; neither is
  observable in the scenarios.
- The NUnit harness (`[SetUp]`, `[Test]`, `Assert.That`, `Assert.Throws`)
  is not modelled. Only the call sequences and the expected outcomes are
  kept.
- AvlNode.GetBalance: its contract states nothing on its own. Its meaning
  (left depth minus right depth, within -1..1 in an AVL tree) is proved by
  `BalanceOfAVL`.
