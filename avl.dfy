/** The AVL tree of src/avl.rs: an ordered set of integer keys kept in an
    owned binary tree whose nodes cache their subtree height. Insertion and
    deletion descend recursively and pass every ancestor through `Balance` on
    the way back up, which refreshes the cached height and applies a single or
    double rotation when the balance factor reaches 2 or -2. */
module Avl {
  import opened Orders

  /** A link: `Leaf` is an absent child slot, `Node` an owned node with its
      cached subtree `height`. */
  datatype Tree = Leaf | Node(value: int, height: nat, left: Tree, right: Tree)

  function Max(a: nat, b: nat): nat
  {
    if a < b then b else a
  }

  /** `Node::height`: the cached height of a link, 0 when it is absent. */
  function Height(t: Tree): nat
  {
    if t.Leaf? then 0 else t.height
  }

  /** The keys stored in a tree. */
  function Elems(t: Tree): set<int>
  {
    match t
    case Leaf => {}
    case Node(x, _, l, r) => Elems(l) + {x} + Elems(r)
  }

  /** The number of nodes; in an ordered tree, the number of stored keys
      (`SizeIsCard`). */
  function Size(t: Tree): nat
  {
    match t
    case Leaf => 0
    case Node(_, _, l, r) => Size(l) + 1 + Size(r)
  }

  /** Search-tree ordering: left keys below the node's key, right keys above. */
  predicate Ordered(t: Tree)
  {
    match t
    case Leaf => true
    case Node(x, _, l, r) =>
      Ordered(l) && Ordered(r) &&
      (forall y :: y in Elems(l) ==> y < x) &&
      (forall y :: y in Elems(r) ==> x < y)
  }

  /** The height of a tree as counted from its shape (leaves at 1). */
  function ComputedHeight(t: Tree): nat
  {
    match t
    case Leaf => 0
    case Node(_, _, l, r) => 1 + Max(ComputedHeight(l), ComputedHeight(r))
  }

  /** Every cached height is one more than the larger cached child height. */
  predicate HeightsCorrect(t: Tree)
  {
    match t
    case Leaf => true
    case Node(_, h, l, r) =>
      HeightsCorrect(l) && HeightsCorrect(r) && h == 1 + Max(Height(l), Height(r))
  }

  /** The AVL balance invariant: sibling heights differ by at most one. */
  predicate Balanced(t: Tree)
  {
    match t
    case Leaf => true
    case Node(_, _, l, r) =>
      Balanced(l) && Balanced(r) && -1 <= Height(l) - Height(r) <= 1
  }

  /** The invariant the tree object keeps between operations. */
  predicate IsAvl(t: Tree)
  {
    Ordered(t) && HeightsCorrect(t) && Balanced(t)
  }

  /** Correct cached heights are the heights of the shape. */
  lemma {:induction false} CachedHeightIsComputed(t: Tree)
    requires HeightsCorrect(t)
    ensures Height(t) == ComputedHeight(t)
  {
    match t
    case Leaf =>
    case Node(_, _, l, r) =>
      CachedHeightIsComputed(l);
      CachedHeightIsComputed(r);
  }

  /** `balance_factor`: left height minus right height, from the cached heights. */
  function BalanceFactor(t: Tree): (b: int)
    requires t.Node?
    ensures Balanced(t) ==> -1 <= b <= 1
  {
    Height(t.left) - Height(t.right)
  }

  /** `update_height`: recompute one node's cached height from its children's.
      Only the height field changes, and it ends above both child heights. */
  function UpdateHeight(t: Tree): (r: Tree)
    requires t.Node?
    ensures r.Node? && r.value == t.value && r.left == t.left && r.right == t.right
    ensures Height(r.left) < Height(r) && Height(r.right) < Height(r)
    ensures Height(r) == Height(r.left) + 1 || Height(r) == Height(r.right) + 1
  {
    t.(height := 1 + Max(Height(t.left), Height(t.right)))
  }

  /** Refreshing a node over correct subtrees makes its own height correct. */
  lemma UpdateHeightRestores(t: Tree)
    requires t.Node? && HeightsCorrect(t.left) && HeightsCorrect(t.right)
    ensures HeightsCorrect(UpdateHeight(t))
    ensures Height(UpdateHeight(t)) == ComputedHeight(t)
    ensures Elems(UpdateHeight(t)) == Elems(t) && InOrder(UpdateHeight(t)) == InOrder(t)
  {
    CachedHeightIsComputed(UpdateHeight(t));
  }

  /** `rotate_right`: the left child is promoted, its right subtree moves under
      the old root, and both nodes get fresh heights, old root first. */
  function RotateRight(t: Tree): (r: Tree)
    requires t.Node? && t.left.Node?
    ensures r.Node? && r.right.Node?
    ensures InOrder(r) == InOrder(t) && Elems(r) == Elems(t)
    ensures Ordered(t) ==> Ordered(r)
    ensures HeightsCorrect(t.left.left) && HeightsCorrect(t.left.right) && HeightsCorrect(t.right)
            ==> HeightsCorrect(r)
  {
    var newRoot := t.left;
    var oldRoot := UpdateHeight(t.(left := newRoot.right));
    assert newRoot.value in Elems(newRoot) && Elems(newRoot.right) <= Elems(newRoot);
    assert Ordered(t) ==> Ordered(newRoot) && t.value > newRoot.value;
    assert Ordered(newRoot) ==> Ordered(newRoot.left) && Ordered(newRoot.right);
    assert Ordered(t) ==> Ordered(oldRoot);
    UpdateHeight(newRoot.(right := oldRoot))
  }

  /** `rotate_left`: the mirror image of `RotateRight`. */
  function RotateLeft(t: Tree): (r: Tree)
    requires t.Node? && t.right.Node?
    ensures r.Node? && r.left.Node?
    ensures InOrder(r) == InOrder(t) && Elems(r) == Elems(t)
    ensures Ordered(t) ==> Ordered(r)
    ensures HeightsCorrect(t.right.right) && HeightsCorrect(t.right.left) && HeightsCorrect(t.left)
            ==> HeightsCorrect(r)
  {
    var newRoot := t.right;
    var oldRoot := UpdateHeight(t.(right := newRoot.left));
    assert newRoot.value in Elems(newRoot) && Elems(newRoot.left) <= Elems(newRoot);
    assert Ordered(t) ==> Ordered(newRoot) && t.value < newRoot.value;
    assert Ordered(newRoot) ==> Ordered(newRoot.left) && Ordered(newRoot.right);
    assert Ordered(t) ==> Ordered(oldRoot);
    UpdateHeight(newRoot.(left := oldRoot))
  }

  /** `balance`: refresh the height, then rotate once or twice when the balance
      factor is exactly 2 or -2. Each `unwrap` of the source is a precondition
      of a rotation here, and each follows from the factor alone. */
  function Balance(t: Tree): (r: Tree)
    requires t.Node?
    ensures r.Node?
    ensures InOrder(r) == InOrder(t) && Elems(r) == Elems(t)
    ensures Ordered(t) ==> Ordered(r)
    ensures BalanceFactor(t) != 2 && BalanceFactor(t) != -2 ==> r == UpdateHeight(t)
  {
    var n := UpdateHeight(t);
    var bf := BalanceFactor(n);
    if bf == 2 then
      var n' := if BalanceFactor(n.left) < 0 then n.(left := RotateLeft(n.left)) else n;
      RotateRight(n')
    else if bf == -2 then
      var n' := if BalanceFactor(n.right) > 0 then n.(right := RotateRight(n.right)) else n;
      RotateLeft(n')
    else
      n
  }

  /** Left-left case: a left-heavy node whose left child does not lean right
      is fixed by one right rotation, ending at the refreshed height or one
      below it. */
  lemma BalanceLeftLeft(t: Tree)
    requires t.Node? && HeightsCorrect(t.left) && HeightsCorrect(t.right)
    requires Balanced(t.left) && Balanced(t.right)
    requires BalanceFactor(t) == 2 && BalanceFactor(t.left) >= 0
    ensures HeightsCorrect(Balance(t)) && Balanced(Balance(t))
    ensures Height(Balance(t)) <= Height(UpdateHeight(t)) <= Height(Balance(t)) + 1
  {
    var n := UpdateHeight(t);
    var l := n.left;
    var hr := Height(n.right);
    assert Height(l) == hr + 2;
    assert Balance(t) == RotateRight(n);
    assert RotateRight(n) == Node(l.value, 1 + Max(Height(l.left), 1 + Max(Height(l.right), hr)), l.left,
                                  Node(n.value, 1 + Max(Height(l.right), hr), l.right, n.right));
  }

  /** Left-right case: a left-heavy node whose left child leans right is fixed
      by a left rotation of that child and a right rotation of the node,
      ending one below the refreshed height. */
  lemma BalanceLeftRight(t: Tree)
    requires t.Node? && HeightsCorrect(t.left) && HeightsCorrect(t.right)
    requires Balanced(t.left) && Balanced(t.right)
    requires BalanceFactor(t) == 2 && BalanceFactor(t.left) < 0
    ensures HeightsCorrect(Balance(t)) && Balanced(Balance(t))
    ensures Height(Balance(t)) + 1 == Height(UpdateHeight(t))
  {
    var n := UpdateHeight(t);
    var l := n.left;
    var hr := Height(n.right);
    var lr := l.right;
    assert Height(l) == hr + 2;
    assert Height(lr) == hr + 1 && Height(l.left) == hr;
    var a := RotateLeft(l);
    assert a == Node(lr.value, hr + 2, Node(l.value, hr + 1, l.left, lr.left), lr.right);
    assert Balance(t) == RotateRight(n.(left := a));
    assert RotateRight(n.(left := a)) == Node(lr.value, hr + 2, Node(l.value, hr + 1, l.left, lr.left),
                                              Node(n.value, hr + 1, lr.right, n.right));
  }

  /** Right-right case: the mirror image of `BalanceLeftLeft`. */
  lemma BalanceRightRight(t: Tree)
    requires t.Node? && HeightsCorrect(t.left) && HeightsCorrect(t.right)
    requires Balanced(t.left) && Balanced(t.right)
    requires BalanceFactor(t) == -2 && BalanceFactor(t.right) <= 0
    ensures HeightsCorrect(Balance(t)) && Balanced(Balance(t))
    ensures Height(Balance(t)) <= Height(UpdateHeight(t)) <= Height(Balance(t)) + 1
  {
    var n := UpdateHeight(t);
    var r := n.right;
    var hl := Height(n.left);
    assert Height(r) == hl + 2;
    assert Balance(t) == RotateLeft(n);
    assert RotateLeft(n) == Node(r.value, 1 + Max(1 + Max(hl, Height(r.left)), Height(r.right)),
                                 Node(n.value, 1 + Max(hl, Height(r.left)), n.left, r.left), r.right);
  }

  /** Right-left case: the mirror image of `BalanceLeftRight`. */
  lemma BalanceRightLeft(t: Tree)
    requires t.Node? && HeightsCorrect(t.left) && HeightsCorrect(t.right)
    requires Balanced(t.left) && Balanced(t.right)
    requires BalanceFactor(t) == -2 && BalanceFactor(t.right) > 0
    ensures HeightsCorrect(Balance(t)) && Balanced(Balance(t))
    ensures Height(Balance(t)) + 1 == Height(UpdateHeight(t))
  {
    var n := UpdateHeight(t);
    var r := n.right;
    var hl := Height(n.left);
    var rl := r.left;
    assert Height(r) == hl + 2;
    assert Height(rl) == hl + 1 && Height(r.right) == hl;
    var a := RotateRight(r);
    assert a == Node(rl.value, hl + 2, rl.left, Node(r.value, hl + 1, rl.right, r.right));
    assert Balance(t) == RotateLeft(n.(right := a));
    assert RotateLeft(n.(right := a)) == Node(rl.value, hl + 2, Node(n.value, hl + 1, n.left, rl.left),
                                              Node(r.value, hl + 1, rl.right, r.right));
  }

  /** `balance` restores the AVL invariant at a node whose AVL subtrees differ
      in height by at most two; it leaves the shape alone unless they differ
      by exactly two, and then the height drops by at most one. */
  lemma BalanceRestores(t: Tree)
    requires t.Node? && HeightsCorrect(t.left) && HeightsCorrect(t.right)
    requires Balanced(t.left) && Balanced(t.right)
    requires -2 <= BalanceFactor(t) <= 2
    ensures HeightsCorrect(Balance(t)) && Balanced(Balance(t))
    ensures Height(Balance(t)) <= Height(UpdateHeight(t)) <= Height(Balance(t)) + 1
    ensures -1 <= BalanceFactor(t) <= 1 ==> Balance(t) == UpdateHeight(t)
  {
    if BalanceFactor(t) == 2 {
      if BalanceFactor(t.left) < 0 {
        BalanceLeftRight(t);
      } else {
        BalanceLeftLeft(t);
      }
    } else if BalanceFactor(t) == -2 {
      if BalanceFactor(t.right) > 0 {
        BalanceRightLeft(t);
      } else {
        BalanceRightRight(t);
      }
    }
  }

  /** `insert_internal`: descend by comparison, overwrite an equal key, or
      hang a new leaf of height 1 at the absent slot reached; every node on the
      way back up is passed through `Balance`. */
  function InsertInternal(t: Tree, v: int): (r: Tree)
    ensures r.Node?
    ensures Elems(r) == Elems(t) + {v}
    ensures Ordered(t) ==> Ordered(r)
  {
    match t
    case Leaf => Node(v, 1, Leaf, Leaf)
    case Node(x, _, l, rt) =>
      if v < x then Balance(t.(left := InsertInternal(l, v)))
      else if v > x then Balance(t.(right := InsertInternal(rt, v)))
      else Balance(t.(value := v))
  }

  /** Insertion keeps cached heights correct and the tree balanced, and grows
      its height by at most one. */
  lemma {:induction false} InsertKeepsAvl(t: Tree, v: int)
    requires HeightsCorrect(t) && Balanced(t)
    ensures HeightsCorrect(InsertInternal(t, v)) && Balanced(InsertInternal(t, v))
    ensures Height(t) <= Height(InsertInternal(t, v)) <= Height(t) + 1
  {
    match t
    case Leaf =>
    case Node(x, _, l, rt) =>
      if v < x {
        InsertKeepsAvl(l, v);
        BalanceRestores(t.(left := InsertInternal(l, v)));
      } else if v > x {
        InsertKeepsAvl(rt, v);
        BalanceRestores(t.(right := InsertInternal(rt, v)));
      } else {
        BalanceRestores(t.(value := v));
      }
  }

  /** Re-inserting a stored key gives back the very same tree: no node is
      created and no rotation happens. */
  lemma {:induction false} InsertPresentIsIdentity(t: Tree, v: int)
    requires IsAvl(t) && v in Elems(t)
    ensures InsertInternal(t, v) == t
  {
    match t
    case Leaf =>
    case Node(x, _, l, rt) =>
      if v < x {
        InsertPresentIsIdentity(l, v);
      } else if v > x {
        InsertPresentIsIdentity(rt, v);
      }
  }

  /** The key of the left-most node: the in-order successor search's answer. */
  function MinValue(t: Tree): (m: int)
    requires t.Node?
    ensures m in Elems(t)
    ensures Ordered(t) ==> forall y :: y in Elems(t) ==> m <= y
  {
    if t.left.Leaf? then t.value else MinValue(t.left)
  }

  /** The successor loop: follow left links from `t` down to the left-most node. */
  method Successor(t: Tree) returns (m: int)
    requires t.Node?
    ensures m == MinValue(t)
    ensures m in Elems(t)
    ensures Ordered(t) ==> forall y :: y in Elems(t) ==> m <= y
  {
    var parent := t;
    while parent.left.Node?
      invariant parent.Node? && MinValue(parent) == MinValue(t)
      decreases parent
    {
      parent := parent.left;
    }
    m := parent.value;
  }

  /** `remove_internal`: splice out a node with an absent child; otherwise copy
      the right subtree's minimum into the node and delete it there. Every
      surviving node on the way back up is passed through `Balance`. */
  function RemoveInternal(t: Tree, v: int): (r: Tree)
    ensures Elems(r) <= Elems(t)
  {
    match t
    case Leaf => Leaf
    case Node(x, _, l, rt) =>
      if v < x then Balance(t.(left := RemoveInternal(l, v)))
      else if v > x then Balance(t.(right := RemoveInternal(rt, v)))
      else if l.Leaf? then rt
      else if rt.Leaf? then l
      else
        var m := MinValue(rt);
        Balance(t.(value := m, right := RemoveInternal(rt, m)))
  }

  /** Deletion keeps the search-tree ordering and removes exactly `v`; in the
      two-child case the copied successor lies between the two subtrees. */
  lemma {:induction false} RemoveKeepsOrder(t: Tree, v: int)
    requires Ordered(t)
    ensures Ordered(RemoveInternal(t, v))
    ensures Elems(RemoveInternal(t, v)) == Elems(t) - {v}
  {
    match t
    case Leaf =>
    case Node(x, _, l, rt) =>
      if v < x {
        RemoveKeepsOrder(l, v);
        assert Ordered(t.(left := RemoveInternal(l, v)));
      } else if v > x {
        RemoveKeepsOrder(rt, v);
        assert Ordered(t.(right := RemoveInternal(rt, v)));
      } else if l.Leaf? {
      } else if rt.Leaf? {
      } else {
        var m := MinValue(rt);
        RemoveKeepsOrder(rt, m);
        SuccessorCopyKeepsOrder(t, RemoveInternal(rt, m));
      }
  }

  /** Copying the right subtree's minimum into a node and replacing the right
      subtree by one without that minimum keeps left < node < right and drops
      exactly the node's old key. */
  lemma SuccessorCopyKeepsOrder(t: Tree, right': Tree)
    requires t.Node? && t.right.Node? && Ordered(t)
    requires Ordered(right') && Elems(right') == Elems(t.right) - {MinValue(t.right)}
    ensures Ordered(t.(value := MinValue(t.right), right := right'))
    ensures Elems(t.(value := MinValue(t.right), right := right')) == Elems(t) - {t.value}
  {
    var m := MinValue(t.right);
    assert t.value < m;
    assert forall y :: y in Elems(right') ==> m < y;
  }

  /** Deletion keeps cached heights correct and the tree balanced, and lowers
      its height by at most one. */
  lemma {:induction false} RemoveKeepsAvl(t: Tree, v: int)
    requires HeightsCorrect(t) && Balanced(t)
    ensures HeightsCorrect(RemoveInternal(t, v)) && Balanced(RemoveInternal(t, v))
    ensures Height(t) <= Height(RemoveInternal(t, v)) + 1
    ensures Height(RemoveInternal(t, v)) <= Height(t)
  {
    match t
    case Leaf =>
    case Node(x, _, l, rt) =>
      if v < x {
        RemoveKeepsAvl(l, v);
        BalanceRestores(t.(left := RemoveInternal(l, v)));
      } else if v > x {
        RemoveKeepsAvl(rt, v);
        BalanceRestores(t.(right := RemoveInternal(rt, v)));
      } else if l.Leaf? {
      } else if rt.Leaf? {
      } else {
        var m := MinValue(rt);
        RemoveKeepsAvl(rt, m);
        BalanceRestores(t.(value := m, right := RemoveInternal(rt, m)));
      }
  }

  /** Removing a key that is not stored gives back the very same tree. */
  lemma {:induction false} RemoveAbsentIsIdentity(t: Tree, v: int)
    requires HeightsCorrect(t) && Balanced(t) && v !in Elems(t)
    ensures RemoveInternal(t, v) == t
  {
    match t
    case Leaf =>
    case Node(x, _, l, rt) =>
      if v < x {
        RemoveAbsentIsIdentity(l, v);
      } else {
        RemoveAbsentIsIdentity(rt, v);
      }
  }

  /** `remove_internal` as the code runs it, with the successor loop. */
  method RemoveNode(t: Tree, v: int) returns (r: Tree)
    ensures r == RemoveInternal(t, v)
    decreases t
  {
    match t
    case Leaf =>
      r := Leaf;
    case Node(x, _, l, rt) =>
      if v < x {
        var l' := RemoveNode(l, v);
        r := Balance(t.(left := l'));
      } else if v > x {
        var rt' := RemoveNode(rt, v);
        r := Balance(t.(right := rt'));
      } else if l.Leaf? {
        r := rt;
      } else if rt.Leaf? {
        r := l;
      } else {
        var m := Successor(rt);
        var rt' := RemoveNode(rt, m);
        r := Balance(t.(value := m, right := rt'));
      }
  }

  /** Left subtree, node, right subtree. */
  function InOrder(t: Tree): seq<int>
  {
    match t
    case Leaf => []
    case Node(x, _, l, r) => InOrder(l) + [x] + InOrder(r)
  }

  lemma {:induction false} InOrderElems(t: Tree)
    ensures forall y :: y in InOrder(t) <==> y in Elems(t)
  {
    match t
    case Leaf =>
    case Node(x, _, l, r) =>
      InOrderElems(l);
      InOrderElems(r);
  }

  /** The traversal of an ordered tree is strictly ascending. */
  lemma {:induction false} InOrderSorted(t: Tree)
    requires Ordered(t)
    ensures StrictlyIncreasing(InOrder(t))
  {
    match t
    case Leaf =>
    case Node(x, _, l, r) =>
      InOrderSorted(l);
      InOrderSorted(r);
      InOrderElems(l);
      InOrderElems(r);
      Join(InOrder(l), x, InOrder(r));
  }

  /** `in_order_helper`: append the traversal of `t` to the accumulator. */
  method InOrderHelper(t: Tree, acc: seq<int>) returns (res: seq<int>)
    ensures res == acc + InOrder(t)
  {
    match t
    case Leaf =>
      res := acc;
    case Node(x, _, l, rt) =>
      res := InOrderHelper(l, acc);
      res := res + [x];
      res := InOrderHelper(rt, res);
  }

  function Fib(n: nat): nat
  {
    if n < 2 then n else Fib(n - 1) + Fib(n - 2)
  }

  lemma {:induction false} FibMonotone(i: nat, j: nat)
    requires i <= j
    ensures Fib(i) <= Fib(j)
    decreases j
  {
    if i < j {
      FibMonotone(i, j - 1);
      if j >= 2 { assert Fib(j) == Fib(j - 1) + Fib(j - 2); }
    }
  }

  /** The integer form of the logarithmic height bound: a balanced tree of
      height h with correct heights has at least Fib(h + 2) - 1 nodes. */
  lemma {:induction false} SizeLowerBound(t: Tree)
    requires HeightsCorrect(t) && Balanced(t)
    ensures Fib(Height(t) + 2) <= Size(t) + 1
  {
    match t
    case Leaf =>
    case Node(_, h, l, r) =>
      SizeLowerBound(l);
      SizeLowerBound(r);
      assert Fib(h + 2) == Fib(h + 1) + Fib(h);
      if Height(l) < Height(r) {
        FibMonotone(h, Height(l) + 2);
      } else {
        FibMonotone(h, Height(r) + 2);
      }
  }

  /** In an ordered tree the keys are distinct, so there is one node per key. */
  lemma {:induction false} SizeIsCard(t: Tree)
    requires Ordered(t)
    ensures Size(t) == |Elems(t)|
  {
    match t
    case Leaf =>
    case Node(x, _, l, r) =>
      SizeIsCard(l);
      SizeIsCard(r);
      forall y | y in Elems(r)
        ensures y !in Elems(l) + {x}
      {
        assert x < y;
      }
      assert Elems(l) !! {x} && (Elems(l) + {x}) !! Elems(r);
  }

  /** The height bound in terms of stored keys: an AVL tree of height h holds
      at least Fib(h + 2) - 1 keys. */
  lemma KeyCountLowerBound(t: Tree)
    requires IsAvl(t)
    ensures Fib(Height(t) + 2) <= |Elems(t)| + 1
  {
    SizeLowerBound(t);
    SizeIsCard(t);
  }

  /** The tree object: one root slot, kept an AVL tree by every operation. */
  class AvlTree {
    var root: Tree

    ghost predicate Valid()
      reads this
    {
      IsAvl(root)
    }

    ghost function Contents(): set<int>
      reads this
    {
      Elems(root)
    }

    constructor ()
      ensures Valid() && Contents() == {}
    {
      root := Leaf;
    }

    method Insert(v: int)
      requires Valid()
      modifies this
      ensures Valid()
      ensures root == InsertInternal(old(root), v)
      ensures Contents() == old(Contents()) + {v}
    {
      InsertKeepsAvl(root, v);
      root := InsertInternal(root, v);
    }

    method Remove(v: int)
      requires Valid()
      modifies this
      ensures Valid()
      ensures root == RemoveInternal(old(root), v)
      ensures Contents() == old(Contents()) - {v}
    {
      RemoveKeepsAvl(root, v);
      RemoveKeepsOrder(root, v);
      root := RemoveNode(root, v);
    }

    /** `contains`: a cursor descends from the root by comparison. */
    method Contains(v: int) returns (b: bool)
      requires Valid()
      ensures b <==> v in Contents()
    {
      var cur := root;
      while cur.Node?
        invariant Ordered(cur)
        invariant v in Elems(root) <==> v in Elems(cur)
        decreases cur
      {
        if v < cur.value {
          cur := cur.left;
        } else if v > cur.value {
          cur := cur.right;
        } else {
          return true;
        }
      }
      return false;
    }

    method InOrderTraversal() returns (s: seq<int>)
      requires Valid()
      ensures s == InOrder(root)
      ensures StrictlyIncreasing(s)
      ensures forall y :: y in s <==> y in Contents()
    {
      s := InOrderHelper(root, []);
      InOrderSorted(root);
      InOrderElems(root);
    }
  }
}
