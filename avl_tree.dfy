/** The tree object callers hold: a root subtree and a count of stored
    values, updated in place by Insert and Delete. */
module AvlTree {
  import opened AvlNode

  datatype Error = EmptyTree

  datatype Result<T> = Ok(value: T) | Err(error: Error)

  class AVLTree {
    var root: Tree
    var count: nat

    /** The tree invariant: an AVL-shaped search tree holding `count` distinct values. */
    ghost predicate Valid()
      reads this
    {
      IsAVL(root) && count == |Elements(root)|
    }

    /** The set of stored values. */
    ghost function Contents(): set<int>
      reads this
    {
      Elements(root)
    }

    constructor ()
      ensures Valid() && root == Leaf && count == 0
    {
      root := Leaf;
      count := 0;
    }

    /** Number of distinct stored values, which is the number of nodes. */
    function Count(): (n: nat)
      reads this
      ensures Valid() ==> n == Size(root)
    {
      SizeIsCardinality(root);
      count
    }

    /** The value at the root; an empty tree is an error, not a default. */
    function RootValue(): (r: Result<int>)
      reads this
      ensures r.Err? <==> Contents() == {}
      ensures r.Ok? ==> r.value in Contents()
    {
      if root.Leaf? then Err(EmptyTree) else Ok(root.value)
    }

    /** The node holding `x`, or None when `x` is not stored. */
    function Find(x: int): (r: Option<Tree>)
      reads this
      ensures r.Some? ==> r.value.Node? && r.value.value == x
      ensures Valid() ==> (r.Some? <==> x in Contents())
    {
      FindCorrect(root, x);
      AvlNode.Find(root, x)
    }

    /** The node holding the least stored value, or None on an empty tree. */
    function FindMin(): (r: Option<Tree>)
      reads this
      ensures r.None? <==> Contents() == {}
      ensures r.Some? ==> r.value.Node? && r.value.value in Contents()
      ensures r.Some? && Valid() ==> forall y :: y in Contents() ==> r.value.value <= y
    {
      if root.Leaf? then None
      else
        FindMinIsLeast(root);
        AvlNode.FindMin(root)
    }

    /** The node holding the greatest stored value, or None on an empty tree. */
    function FindMax(): (r: Option<Tree>)
      reads this
      ensures r.None? <==> Contents() == {}
      ensures r.Some? ==> r.value.Node? && r.value.value in Contents()
      ensures r.Some? && Valid() ==> forall y :: y in Contents() ==> y <= r.value.value
    {
      if root.Leaf? then None
      else
        FindMaxIsGreatest(root);
        AvlNode.FindMax(root)
    }

    /** Adds `x` if absent; reports whether it did. */
    method Insert(x: int) returns (inserted: bool)
      requires Valid()
      modifies this
      ensures Valid()
      ensures (root, inserted) == InsertNode(old(root), x)
      ensures inserted <==> x !in old(Contents())
      ensures Contents() == old(Contents()) + {x}
      ensures count == if inserted then old(count) + 1 else old(count)
    {
      InsertAVL(root, x);
      InsertElements(root, x);
      var (t, added) := InsertNode(root, x);
      root := t;
      inserted := added;
      if inserted {
        count := count + 1;
      }
    }

    /** Removes `x` if present; reports whether it did. */
    method Delete(x: int) returns (deleted: bool)
      requires Valid()
      modifies this
      ensures Valid()
      ensures (root, deleted) == DeleteNode(old(root), x)
      ensures deleted <==> x in old(Contents())
      ensures Contents() == old(Contents()) - {x}
      ensures count == if deleted then old(count) - 1 else old(count)
    {
      DeleteAVL(root, x);
      var (t, removed) := DeleteNode(root, x);
      root := t;
      deleted := removed;
      if deleted {
        count := count - 1;
      }
    }
  }
}
