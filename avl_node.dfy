/** Subtrees of an AVL tree and the recursive operations on them.
    A subtree is a value: every operation that reshapes it returns the new
    root of the subtree, which the caller links into its own child slot.
    The operations are plain computations; what they mean (ordering,
    contents, balance, height) is stated by the lemmas beside them. */
module AvlNode {

  datatype Option<T> = None | Some(value: T)

  /** An absent child (`Leaf`) or a node with its value, its two children
      and the cached height of the subtree rooted at it. */
  datatype Tree = Leaf | Node(left: Tree, value: int, right: Tree, height: nat)

  /** Cached height; an absent child has height 0. */
  function Height(t: Tree): nat { if t.Leaf? then 0 else t.height }

  /** The height a node over `l` and `r` must cache: one more than the taller child. */
  function NodeHeight(l: Tree, r: Tree): nat {
    if Height(l) < Height(r) then Height(r) + 1 else Height(l) + 1
  }

  /** Height computed from the shape alone, against which the cache is judged. */
  function Depth(t: Tree): nat {
    match t
    case Leaf => 0
    case Node(l, _, r, _) => if Depth(l) < Depth(r) then Depth(r) + 1 else Depth(l) + 1
  }

  // ---------------------------------------------------------------------
  // Abstract views and invariants
  // ---------------------------------------------------------------------

  ghost function Elements(t: Tree): set<int> {
    match t
    case Leaf => {}
    case Node(l, v, r, _) => Elements(l) + {v} + Elements(r)
  }

  /** In-order (left, value, right) sequence of the stored values. */
  function InOrder(t: Tree): seq<int> {
    match t
    case Leaf => []
    case Node(l, v, r, _) => InOrder(l) + [v] + InOrder(r)
  }

  /** Number of nodes reachable from `t`. */
  function Size(t: Tree): nat {
    match t
    case Leaf => 0
    case Node(l, _, r, _) => Size(l) + 1 + Size(r)
  }

  /** Binary-search-tree ordering: everything left is smaller, everything right larger. */
  ghost predicate IsBST(t: Tree) {
    match t
    case Leaf => true
    case Node(l, v, r, _) =>
      && IsBST(l) && IsBST(r)
      && (forall y :: y in Elements(l) ==> y < v)
      && (forall y :: y in Elements(r) ==> v < y)
  }

  /** Every cached height is one more than the larger cached height of its children. */
  ghost predicate HeightOk(t: Tree) {
    match t
    case Leaf => true
    case Node(l, _, r, h) => h == NodeHeight(l, r) && HeightOk(l) && HeightOk(r)
  }

  /** The AVL condition: at every node the children's heights differ by at most one. */
  ghost predicate Balanced(t: Tree) {
    match t
    case Leaf => true
    case Node(l, _, r, _) => -1 <= Height(l) - Height(r) <= 1 && Balanced(l) && Balanced(r)
  }

  ghost predicate IsAVL(t: Tree) {
    IsBST(t) && HeightOk(t) && Balanced(t)
  }

  ghost predicate Ascending(s: seq<int>) {
    forall i, j :: 0 <= i < j < |s| ==> s[i] < s[j]
  }

  lemma {:induction false} HeightIsDepth(t: Tree)
    ensures HeightOk(t) ==> Height(t) == Depth(t)
  {
    match t
    case Leaf =>
    case Node(l, _, r, _) =>
      HeightIsDepth(l);
      HeightIsDepth(r);
  }

  /** Balance factor of a node: left height minus right height; 0 for an absent node. */
  function GetBalance(t: Tree): int {
    if t.Leaf? then 0 else Height(t.left) - Height(t.right)
  }

  /** The balance factor is the difference of the children's real heights, and an
      AVL tree's root never leans by more than one. */
  lemma BalanceOfAVL(t: Tree)
    ensures HeightOk(t) && t.Node? ==> GetBalance(t) == Depth(t.left) - Depth(t.right)
    ensures IsAVL(t) ==> -1 <= GetBalance(t) <= 1
  {
    if t.Node? {
      HeightIsDepth(t.left);
      HeightIsDepth(t.right);
    }
  }

  lemma {:induction false} InOrderAscending(t: Tree)
    requires IsBST(t)
    ensures Ascending(InOrder(t))
    ensures forall y :: y in InOrder(t) <==> y in Elements(t)
  {
    match t
    case Leaf =>
    case Node(l, v, r, _) =>
      InOrderAscending(l);
      InOrderAscending(r);
      var a, b := InOrder(l), InOrder(r);
      var s := InOrder(t);
      assert s == a + [v] + b;
      forall i, j | 0 <= i < j < |s| ensures s[i] < s[j] {
        if j < |a| {
          assert s[i] == a[i] && s[j] == a[j];
        } else if j == |a| {
          assert s[i] == a[i] && a[i] in Elements(l);
        } else if i == |a| {
          assert s[j] == b[j - |a| - 1] && b[j - |a| - 1] in Elements(r);
        } else if i < |a| {
          assert s[i] == a[i] && a[i] in Elements(l);
          assert s[j] == b[j - |a| - 1] && b[j - |a| - 1] in Elements(r);
        } else {
          assert s[i] == b[i - |a| - 1] && s[j] == b[j - |a| - 1];
        }
      }
  }

  lemma {:induction false} SizeIsCardinality(t: Tree)
    ensures IsBST(t) ==> Size(t) == |Elements(t)|
  {
    match t
    case Leaf =>
    case Node(l, v, r, _) =>
      if !IsBST(t) { return; }
      SizeIsCardinality(l);
      SizeIsCardinality(r);
      assert Elements(l) * Elements(r) == {} by {
        forall y | y in Elements(l) ensures y !in Elements(r) { }
      }
      assert v !in Elements(l) + Elements(r);
      assert |Elements(l) + Elements(r)| == |Elements(l)| + |Elements(r)|;
  }

  // ---------------------------------------------------------------------
  // Rotations and rebalancing
  // ---------------------------------------------------------------------

  /** A node over `l` and `r` with its height recomputed from theirs. */
  function MakeNode(l: Tree, v: int, r: Tree): Tree {
    Node(l, v, r, NodeHeight(l, r))
  }

  /** Right rotation: the left child becomes the root and the old root its right child. */
  function RotateRight(t: Tree): (r: Tree)
    requires t.Node? && t.left.Node?
    ensures r.Node? && r.value == t.left.value && r.right.Node? && r.right.value == t.value
  {
    var Node(Node(ll, lv, lr, _), v, rr, _) := t;
    MakeNode(ll, lv, MakeNode(lr, v, rr))
  }

  /** Left rotation: the right child becomes the root and the old root its left child. */
  function RotateLeft(t: Tree): (r: Tree)
    requires t.Node? && t.right.Node?
    ensures r.Node? && r.value == t.right.value && r.left.Node? && r.left.value == t.value
  {
    var Node(ll, v, Node(rl, rv, rr, _), _) := t;
    MakeNode(MakeNode(ll, v, rl), rv, rr)
  }

  /** The two ways of joining three sequences around two separators agree. */
  lemma Regroup(a: seq<int>, x: int, b: seq<int>, y: int, c: seq<int>)
    ensures a + [x] + (b + [y] + c) == (a + [x] + b) + [y] + c
  {
  }

  /** A right rotation keeps the in-order sequence. */
  lemma RotateRightInOrder(t: Tree)
    requires t.Node? && t.left.Node?
    ensures InOrder(RotateRight(t)) == InOrder(t)
  {
    var Node(Node(ll, lv, lr, _), v, rr, _) := t;
    var a, b, c := InOrder(ll), InOrder(lr), InOrder(rr);
    assert InOrder(MakeNode(lr, v, rr)) == b + [v] + c;
    assert InOrder(t) == (a + [lv] + b) + [v] + c;
    Regroup(a, lv, b, v, c);
  }

  /** A right rotation keeps the stored values and the search order. */
  lemma RotateRightElements(t: Tree)
    requires t.Node? && t.left.Node?
    ensures Elements(RotateRight(t)) == Elements(t)
    ensures IsBST(t) ==> IsBST(RotateRight(t))
  {
    var Node(Node(ll, lv, lr, _), v, rr, _) := t;
    assert lv in Elements(t.left) && Elements(lr) <= Elements(t.left);
    assert IsBST(t) ==> IsBST(t.left) && IsBST(MakeNode(lr, v, rr));
  }

  /** A left rotation keeps the in-order sequence. */
  lemma RotateLeftInOrder(t: Tree)
    requires t.Node? && t.right.Node?
    ensures InOrder(RotateLeft(t)) == InOrder(t)
  {
    var Node(ll, v, Node(rl, rv, rr, _), _) := t;
    var a, b, c := InOrder(ll), InOrder(rl), InOrder(rr);
    assert InOrder(MakeNode(ll, v, rl)) == a + [v] + b;
    assert InOrder(t) == a + [v] + (b + [rv] + c);
    Regroup(a, v, b, rv, c);
  }

  /** A left rotation keeps the stored values and the search order. */
  lemma RotateLeftElements(t: Tree)
    requires t.Node? && t.right.Node?
    ensures Elements(RotateLeft(t)) == Elements(t)
    ensures IsBST(t) ==> IsBST(RotateLeft(t))
  {
    var Node(ll, v, Node(rl, rv, rr, _), _) := t;
    assert rv in Elements(t.right) && Elements(rl) <= Elements(t.right);
    assert IsBST(t) ==> IsBST(t.right) && IsBST(MakeNode(ll, v, rl));
  }

  /** Links `l`, `v`, `r` into one node and, when the balance factor has left
      [-1, 1], restores it by a single or double rotation. */
  function Rebalance(l: Tree, v: int, r: Tree): (t: Tree)
    ensures t.Node?
  {
    var t := MakeNode(l, v, r);
    var b := GetBalance(t);
    if b > 1 then
      if GetBalance(l) >= 0 then RotateRight(t)
      else RotateRight(MakeNode(RotateLeft(l), v, r))
    else if b < -1 then
      if GetBalance(r) <= 0 then RotateLeft(t)
      else RotateLeft(MakeNode(l, v, RotateRight(r)))
    else t
  }

  /** Rebalancing keeps the in-order sequence: left values, then `v`, then right values. */
  lemma RebalanceInOrder(l: Tree, v: int, r: Tree)
    ensures InOrder(Rebalance(l, v, r)) == InOrder(l) + [v] + InOrder(r)
  {
    var t := MakeNode(l, v, r);
    if GetBalance(t) > 1 {
      if GetBalance(l) >= 0 {
        RotateRightInOrder(t);
      } else {
        RotateLeftInOrder(l);
        RotateRightInOrder(MakeNode(RotateLeft(l), v, r));
      }
    } else if GetBalance(t) < -1 {
      if GetBalance(r) <= 0 {
        RotateLeftInOrder(t);
      } else {
        RotateRightInOrder(r);
        RotateLeftInOrder(MakeNode(l, v, RotateRight(r)));
      }
    }
  }

  /** Rebalancing stores the values of `l`, `v` and `r`, and keeps the search order
      when `v` separates the two sides. */
  lemma RebalanceElements(l: Tree, v: int, r: Tree)
    ensures Elements(Rebalance(l, v, r)) == Elements(l) + {v} + Elements(r)
    ensures (&& IsBST(l) && IsBST(r)
             && (forall y :: y in Elements(l) ==> y < v)
             && (forall y :: y in Elements(r) ==> v < y))
            ==> IsBST(Rebalance(l, v, r))
  {
    var t := MakeNode(l, v, r);
    if GetBalance(t) > 1 {
      if GetBalance(l) >= 0 {
        RotateRightElements(t);
      } else {
        RotateLeftElements(l);
        RotateRightElements(MakeNode(RotateLeft(l), v, r));
      }
    } else if GetBalance(t) < -1 {
      if GetBalance(r) <= 0 {
        RotateLeftElements(t);
      } else {
        RotateRightElements(r);
        RotateLeftElements(MakeNode(l, v, RotateRight(r)));
      }
    }
  }

  /** Rebalancing two AVL subtrees whose heights differ by at most two gives an
      AVL subtree at most one level taller than the taller input; when no
      rotation is needed it is exactly one level taller. */
  lemma RebalanceAVL(l: Tree, v: int, r: Tree)
    requires IsAVL(l) && IsAVL(r)
    requires -2 <= Height(l) - Height(r) <= 2
    requires forall y :: y in Elements(l) ==> y < v
    requires forall y :: y in Elements(r) ==> v < y
    ensures IsAVL(Rebalance(l, v, r))
    ensures NodeHeight(l, r) - 1 <= Height(Rebalance(l, v, r)) <= NodeHeight(l, r)
    ensures -1 <= Height(l) - Height(r) <= 1 ==> Height(Rebalance(l, v, r)) == NodeHeight(l, r)
  {
    RebalanceElements(l, v, r);
    if Height(l) - Height(r) == 2 {
      LeftHeavyShape(l, v, r);
    } else if Height(r) - Height(l) == 2 {
      RightHeavyShape(l, v, r);
    }
  }

  /** Heights and balance after rebalancing a node whose left side is two levels taller. */
  lemma LeftHeavyShape(l: Tree, v: int, r: Tree)
    requires HeightOk(l) && Balanced(l) && HeightOk(r) && Balanced(r)
    requires Height(l) == Height(r) + 2
    ensures HeightOk(Rebalance(l, v, r)) && Balanced(Rebalance(l, v, r))
    ensures Height(l) <= Height(Rebalance(l, v, r)) <= Height(l) + 1
  {
    if GetBalance(l) >= 0 {
      var Node(ll, lv, lr, _) := l;
      var n := MakeNode(lr, v, r);
      assert Rebalance(l, v, r) == MakeNode(ll, lv, n);
      assert HeightOk(n) && Balanced(n);
    } else {
      LeftRightShape(l, v, r);
    }
  }

  /** The double (left-right) rotation case of LeftHeavyShape. */
  lemma LeftRightShape(l: Tree, v: int, r: Tree)
    requires HeightOk(l) && Balanced(l) && HeightOk(r) && Balanced(r)
    requires Height(l) == Height(r) + 2 && GetBalance(l) < 0
    ensures HeightOk(Rebalance(l, v, r)) && Balanced(Rebalance(l, v, r))
    ensures Height(l) <= Height(Rebalance(l, v, r)) <= Height(l) + 1
  {
    var Node(ll, lv, lr, _) := l;
    var Node(lrl, lrv, lrr, _) := lr;
    var a, c := MakeNode(ll, lv, lrl), MakeNode(lrr, v, r);
    assert Rebalance(l, v, r) == MakeNode(a, lrv, c);
    assert HeightOk(a) && Balanced(a) && HeightOk(c) && Balanced(c);
  }

  /** Heights and balance after rebalancing a node whose right side is two levels taller. */
  lemma RightHeavyShape(l: Tree, v: int, r: Tree)
    requires HeightOk(l) && Balanced(l) && HeightOk(r) && Balanced(r)
    requires Height(r) == Height(l) + 2
    ensures HeightOk(Rebalance(l, v, r)) && Balanced(Rebalance(l, v, r))
    ensures Height(r) <= Height(Rebalance(l, v, r)) <= Height(r) + 1
  {
    if GetBalance(r) <= 0 {
      var Node(rl, rv, rr, _) := r;
      var n := MakeNode(l, v, rl);
      assert Rebalance(l, v, r) == MakeNode(n, rv, rr);
      assert HeightOk(n) && Balanced(n);
    } else {
      RightLeftShape(l, v, r);
    }
  }

  /** The double (right-left) rotation case of RightHeavyShape. */
  lemma RightLeftShape(l: Tree, v: int, r: Tree)
    requires HeightOk(l) && Balanced(l) && HeightOk(r) && Balanced(r)
    requires Height(r) == Height(l) + 2 && GetBalance(r) > 0
    ensures HeightOk(Rebalance(l, v, r)) && Balanced(Rebalance(l, v, r))
    ensures Height(r) <= Height(Rebalance(l, v, r)) <= Height(r) + 1
  {
    var Node(rl, rv, rr, _) := r;
    var Node(rll, rlv, rlr, _) := rl;
    var a, c := MakeNode(l, v, rll), MakeNode(rlr, rv, rr);
    assert Rebalance(l, v, r) == MakeNode(a, rlv, c);
    assert HeightOk(a) && Balanced(a) && HeightOk(c) && Balanced(c);
  }

  // ---------------------------------------------------------------------
  // Queries
  // ---------------------------------------------------------------------

  /** The node holding `x`, found by comparison, or None. */
  function Find(t: Tree, x: int): (r: Option<Tree>)
    ensures r.Some? ==> r.value.Node? && r.value.value == x
  {
    match t
    case Leaf => None
    case Node(l, v, rr, _) =>
      if x < v then Find(l, x)
      else if v < x then Find(rr, x)
      else Some(t)
  }

  /** In a search tree, Find succeeds exactly for the stored values. */
  lemma {:induction false} FindCorrect(t: Tree, x: int)
    ensures IsBST(t) ==> (Find(t, x).Some? <==> x in Elements(t))
  {
    match t
    case Leaf =>
    case Node(l, v, rr, _) =>
      if x < v {
        FindCorrect(l, x);
      } else if v < x {
        FindCorrect(rr, x);
      }
  }

  /** The leftmost node, or None on an empty subtree. */
  function FindMin(t: Tree): (r: Option<Tree>)
    ensures r.None? <==> t.Leaf?
    ensures r.Some? ==> r.value.Node?
  {
    match t
    case Leaf => None
    case Node(l, _, _, _) => if l.Leaf? then Some(t) else FindMin(l)
  }

  /** The leftmost value is stored, and in a search tree it is the least one. */
  lemma {:induction false} FindMinIsLeast(t: Tree)
    requires t.Node?
    ensures FindMin(t).value.value in Elements(t)
    ensures IsBST(t) ==> forall y :: y in Elements(t) ==> FindMin(t).value.value <= y
  {
    if t.left.Node? {
      FindMinIsLeast(t.left);
    }
  }

  /** The rightmost node, or None on an empty subtree. */
  function FindMax(t: Tree): (r: Option<Tree>)
    ensures r.None? <==> t.Leaf?
    ensures r.Some? ==> r.value.Node?
  {
    match t
    case Leaf => None
    case Node(_, _, rr, _) => if rr.Leaf? then Some(t) else FindMax(rr)
  }

  /** The rightmost value is stored, and in a search tree it is the greatest one. */
  lemma {:induction false} FindMaxIsGreatest(t: Tree)
    requires t.Node?
    ensures FindMax(t).value.value in Elements(t)
    ensures IsBST(t) ==> forall y :: y in Elements(t) ==> y <= FindMax(t).value.value
  {
    if t.right.Node? {
      FindMaxIsGreatest(t.right);
    }
  }

  // ---------------------------------------------------------------------
  // Insertion and deletion
  // ---------------------------------------------------------------------

  /** Inserts `x` below `t`; the flag says whether it was absent. A present
      value leaves the subtree as it was. */
  function InsertNode(t: Tree, x: int): (r: (Tree, bool))
    ensures !r.1 ==> r.0 == t
  {
    match t
    case Leaf => (MakeNode(Leaf, x, Leaf), true)
    case Node(l, v, rr, _) =>
      if x < v then
        var (l', inserted) := InsertNode(l, x);
        if inserted then (Rebalance(l', v, rr), true) else (t, false)
      else if v < x then
        var (rr', inserted) := InsertNode(rr, x);
        if inserted then (Rebalance(l, v, rr'), true) else (t, false)
      else (t, false)
  }

  /** Insertion adds exactly `x` to the stored values. */
  lemma {:induction false} InsertElements(t: Tree, x: int)
    ensures Elements(InsertNode(t, x).0) == Elements(t) + {x}
  {
    match t
    case Leaf =>
    case Node(l, v, rr, _) =>
      if x < v {
        InsertElements(l, x);
        var (l', inserted) := InsertNode(l, x);
        if inserted { RebalanceElements(l', v, rr); }
      } else if v < x {
        InsertElements(rr, x);
        var (rr', inserted) := InsertNode(rr, x);
        if inserted { RebalanceElements(l, v, rr'); }
      }
  }

  /** Insertion into an AVL tree gives an AVL tree, reports whether `x` was
      absent, and grows the height by at most one. */
  lemma {:induction false} InsertAVL(t: Tree, x: int)
    requires IsAVL(t)
    ensures IsAVL(InsertNode(t, x).0)
    ensures InsertNode(t, x).1 <==> x !in Elements(t)
    ensures Height(t) <= Height(InsertNode(t, x).0) <= Height(t) + 1
  {
    match t
    case Leaf =>
    case Node(l, v, rr, _) =>
      if x < v {
        InsertAVL(l, x);
        InsertElements(l, x);
        var (l', inserted) := InsertNode(l, x);
        assert x in Elements(t) <==> x in Elements(l);
        if inserted {
          assert InsertNode(t, x) == (Rebalance(l', v, rr), true);
          RebalanceAVL(l', v, rr);
        }
      } else if v < x {
        InsertAVL(rr, x);
        InsertElements(rr, x);
        var (rr', inserted) := InsertNode(rr, x);
        assert x in Elements(t) <==> x in Elements(rr);
        if inserted {
          assert InsertNode(t, x) == (Rebalance(l, v, rr'), true);
          RebalanceAVL(l, v, rr');
        }
      }
  }

  /** Deletes `x` from `t`; the flag says whether it was present. A node with
      two children takes the value of its in-order successor (the minimum of
      its right subtree), which is then deleted from the right subtree. */
  function DeleteNode(t: Tree, x: int): (r: (Tree, bool))
    ensures !r.1 ==> r.0 == t
  {
    match t
    case Leaf => (Leaf, false)
    case Node(l, v, rr, _) =>
      if x < v then
        var (l', deleted) := DeleteNode(l, x);
        if deleted then (Rebalance(l', v, rr), true) else (t, false)
      else if v < x then
        var (rr', deleted) := DeleteNode(rr, x);
        if deleted then (Rebalance(l, v, rr'), true) else (t, false)
      else if l.Leaf? then (rr, true)
      else if rr.Leaf? then (l, true)
      else
        var successor := FindMin(rr).value.value;
        var (rr', _) := DeleteNode(rr, successor);
        (Rebalance(l, successor, rr'), true)
  }

  /** Deletion from an AVL tree gives an AVL tree without `x`, reports whether
      `x` was present, and shrinks the height by at most one. */
  lemma {:induction false} DeleteAVL(t: Tree, x: int)
    requires IsAVL(t)
    ensures IsAVL(DeleteNode(t, x).0)
    ensures DeleteNode(t, x).1 <==> x in Elements(t)
    ensures Elements(DeleteNode(t, x).0) == Elements(t) - {x}
    ensures Height(t) - 1 <= Height(DeleteNode(t, x).0) <= Height(t)
    decreases t, 1
  {
    match t
    case Leaf =>
    case Node(l, v, rr, _) =>
      if x < v {
        DeleteLeftAVL(t, x);
      } else if v < x {
        DeleteRightAVL(t, x);
      } else if l.Leaf? {
      } else if rr.Leaf? {
      } else {
        DeleteTwoChildrenAVL(t);
      }
  }

  /** Deletion below the left child, followed by rebalancing. */
  lemma {:induction false} DeleteLeftAVL(t: Tree, x: int)
    requires IsAVL(t) && t.Node? && x < t.value
    ensures IsAVL(DeleteNode(t, x).0)
    ensures DeleteNode(t, x).1 <==> x in Elements(t)
    ensures Elements(DeleteNode(t, x).0) == Elements(t) - {x}
    ensures Height(t) - 1 <= Height(DeleteNode(t, x).0) <= Height(t)
    decreases t, 0
  {
    var Node(l, v, rr, _) := t;
    DeleteAVL(l, x);
    var (l', deleted) := DeleteNode(l, x);
    assert x in Elements(t) <==> x in Elements(l);
    if deleted {
      assert DeleteNode(t, x) == (Rebalance(l', v, rr), true);
      RebalanceAVL(l', v, rr);
      RebalanceElements(l', v, rr);
    }
  }

  /** Deletion below the right child, followed by rebalancing. */
  lemma {:induction false} DeleteRightAVL(t: Tree, x: int)
    requires IsAVL(t) && t.Node? && t.value < x
    ensures IsAVL(DeleteNode(t, x).0)
    ensures DeleteNode(t, x).1 <==> x in Elements(t)
    ensures Elements(DeleteNode(t, x).0) == Elements(t) - {x}
    ensures Height(t) - 1 <= Height(DeleteNode(t, x).0) <= Height(t)
    decreases t, 0
  {
    var Node(l, v, rr, _) := t;
    DeleteAVL(rr, x);
    var (rr', deleted) := DeleteNode(rr, x);
    assert x in Elements(t) <==> x in Elements(rr);
    if deleted {
      assert DeleteNode(t, x) == (Rebalance(l, v, rr'), true);
      RebalanceAVL(l, v, rr');
      RebalanceElements(l, v, rr');
    }
  }

  /** The two-children case of deletion: the node takes its successor's value. */
  lemma {:induction false} DeleteTwoChildrenAVL(t: Tree)
    requires IsAVL(t) && t.Node? && t.left.Node? && t.right.Node?
    ensures IsAVL(DeleteNode(t, t.value).0)
    ensures Elements(DeleteNode(t, t.value).0) == Elements(t) - {t.value}
    ensures Height(t) - 1 <= Height(DeleteNode(t, t.value).0) <= Height(t)
    decreases t, 0
  {
    var Node(l, v, rr, _) := t;
    FindMinIsLeast(rr);
    var successor := FindMin(rr).value.value;
    DeleteAVL(rr, successor);
    var (rr', _) := DeleteNode(rr, successor);
    assert DeleteNode(t, v) == (Rebalance(l, successor, rr'), true);
    assert v < successor;
    assert forall y :: y in Elements(l) ==> y < successor;
    forall y | y in Elements(rr') ensures successor < y {
      assert y in Elements(rr) && y != successor;
    }
    RebalanceAVL(l, successor, rr');
    RebalanceElements(l, successor, rr');
  }
}
