/** The unbalanced binary search tree of src/tree/bst.rs: an ordered set of
    integer keys kept in an owned binary tree, with recursive insertion,
    successor-based deletion, recursive search and in-order traversal. */
module Bst {
  import opened Orders

  /** A link: `Leaf` is an absent child slot, `Node` an owned node. */
  datatype Tree = Leaf | Node(value: int, left: Tree, right: Tree)

  /** The keys stored in a tree. */
  function Elems(t: Tree): set<int>
  {
    match t
    case Leaf => {}
    case Node(x, l, r) => Elems(l) + {x} + Elems(r)
  }

  /** Search-tree ordering: left keys below the node's key, right keys above. */
  predicate Ordered(t: Tree)
  {
    match t
    case Leaf => true
    case Node(x, l, r) =>
      Ordered(l) && Ordered(r) &&
      (forall y :: y in Elems(l) ==> y < x) &&
      (forall y :: y in Elems(r) ==> x < y)
  }

  /** Left subtree, node, right subtree. */
  function InOrder(t: Tree): seq<int>
  {
    match t
    case Leaf => []
    case Node(x, l, r) => InOrder(l) + [x] + InOrder(r)
  }

  lemma {:induction false} InOrderElems(t: Tree)
    ensures forall y :: y in InOrder(t) <==> y in Elems(t)
  {
    match t
    case Leaf =>
    case Node(x, l, r) =>
      InOrderElems(l);
      InOrderElems(r);
  }

  /** The traversal of an ordered tree is strictly ascending. */
  lemma {:induction false} InOrderSorted(t: Tree)
    requires Ordered(t)
    ensures StrictlyIncreasing(InOrder(t))
  {
    match t
    case Leaf =>
    case Node(x, l, r) =>
      InOrderSorted(l);
      InOrderSorted(r);
      InOrderElems(l);
      InOrderElems(r);
      Join(InOrder(l), x, InOrder(r));
  }

  /** An ordered tree's traversal is the one ascending listing of its keys. */
  lemma InOrderDetermined(t: Tree, s: seq<int>)
    requires Ordered(t) && StrictlyIncreasing(s)
    requires forall y :: y in s <==> y in Elems(t)
    ensures InOrder(t) == s
  {
    InOrderSorted(t);
    InOrderElems(t);
    Unique(InOrder(t), s);
  }

  /** The key of the left-most node: the in-order successor search's answer. */
  function MinValue(t: Tree): (m: int)
    requires t.Node?
    ensures m in Elems(t)
    ensures Ordered(t) ==> forall y :: y in Elems(t) ==> m <= y
  {
    if t.left.Leaf? then t.value else MinValue(t.left)
  }

  /** The successor loop: follow left links from `t` down to the left-most node. */
  method Successor(t: Tree) returns (m: int)
    requires t.Node?
    ensures m == MinValue(t)
    ensures m in Elems(t)
    ensures Ordered(t) ==> forall y :: y in Elems(t) ==> m <= y
  {
    var parent := t;
    while parent.left.Node?
      invariant parent.Node? && MinValue(parent) == MinValue(t)
      decreases parent
    {
      parent := parent.left;
    }
    m := parent.value;
  }

  /** `insert_internal`: descend by comparison, overwrite an equal key, or
      hang a new leaf at the absent slot reached. */
  function InsertInternal(t: Tree, v: int): (r: Tree)
    ensures r.Node?
    ensures Elems(r) == Elems(t) + {v}
    ensures Ordered(t) ==> Ordered(r)
  {
    match t
    case Leaf => Node(v, Leaf, Leaf)
    case Node(x, l, rt) =>
      if v < x then t.(left := InsertInternal(l, v))
      else if v > x then t.(right := InsertInternal(rt, v))
      else t.(value := v)
  }

  /** Inserting leaves an ordered tree unchanged exactly when the key is there. */
  lemma {:induction false} InsertUnchangedIffPresent(t: Tree, v: int)
    requires Ordered(t)
    ensures InsertInternal(t, v) == t <==> v in Elems(t)
  {
    match t
    case Leaf =>
    case Node(x, l, rt) =>
      if v < x {
        if v in Elems(t) { InsertUnchangedIffPresent(l, v); }
      } else if v > x {
        if v in Elems(t) { InsertUnchangedIffPresent(rt, v); }
      }
  }

  /** `remove_internal`: splice out a node with an absent child; otherwise
      copy the right subtree's minimum into the node and delete it there. */
  function RemoveInternal(t: Tree, v: int): (r: Tree)
    ensures Elems(r) <= Elems(t)
    ensures Ordered(t) ==> Ordered(r) && Elems(r) == Elems(t) - {v}
  {
    match t
    case Leaf => Leaf
    case Node(x, l, rt) =>
      if v < x then t.(left := RemoveInternal(l, v))
      else if v > x then t.(right := RemoveInternal(rt, v))
      else if l.Leaf? then rt
      else if rt.Leaf? then l
      else
        var m := MinValue(rt);
        t.(value := m, right := RemoveInternal(rt, m))
  }

  /** Removing a key that is not stored gives back the same tree. */
  lemma {:induction false} RemoveAbsentIsIdentity(t: Tree, v: int)
    requires v !in Elems(t)
    ensures RemoveInternal(t, v) == t
  {
    match t
    case Leaf =>
    case Node(x, l, rt) =>
      if v < x {
        RemoveAbsentIsIdentity(l, v);
      } else {
        RemoveAbsentIsIdentity(rt, v);
      }
  }

  /** `remove_internal` as the code runs it, with the successor loop. */
  method RemoveNode(t: Tree, v: int) returns (r: Tree)
    ensures r == RemoveInternal(t, v)
    decreases t
  {
    match t
    case Leaf =>
      r := Leaf;
    case Node(x, l, rt) =>
      if v < x {
        var l' := RemoveNode(l, v);
        r := t.(left := l');
      } else if v > x {
        var rt' := RemoveNode(rt, v);
        r := t.(right := rt');
      } else if l.Leaf? {
        r := rt;
      } else if rt.Leaf? {
        r := l;
      } else {
        var m := Successor(rt);
        var rt' := RemoveNode(rt, m);
        r := t.(value := m, right := rt');
      }
  }

  /** `s` occurs in `t`: it is `t` or lies below one of its children. */
  predicate Subtree(s: Tree, t: Tree)
  {
    s == t || (t.Node? && (Subtree(s, t.left) || Subtree(s, t.right)))
  }

  /** `search_internal`: the subtree rooted at the node holding `v`, or `Leaf`. */
  function SearchInternal(t: Tree, v: int): (r: Tree)
    ensures r.Node? ==> r.value == v && Subtree(r, t) && Elems(r) <= Elems(t)
    ensures Ordered(t) ==> (r.Node? <==> v in Elems(t))
  {
    match t
    case Leaf => Leaf
    case Node(x, l, rt) =>
      if v < x then SearchInternal(l, v)
      else if v > x then SearchInternal(rt, v)
      else t
  }

  /** `in_order_helper`: append the traversal of `t` to the accumulator. */
  method InOrderHelper(t: Tree, acc: seq<int>) returns (res: seq<int>)
    ensures res == acc + InOrder(t)
  {
    match t
    case Leaf =>
      res := acc;
    case Node(x, l, rt) =>
      res := InOrderHelper(l, acc);
      res := res + [x];
      res := InOrderHelper(rt, res);
  }

  /** The tree object: one root slot, kept ordered by every operation. */
  class BstTree {
    var root: Tree

    ghost predicate Valid()
      reads this
    {
      Ordered(root)
    }

    ghost function Contents(): set<int>
      reads this
    {
      Elems(root)
    }

    constructor ()
      ensures Valid() && Contents() == {}
    {
      root := Leaf;
    }

    method Insert(v: int)
      requires Valid()
      modifies this
      ensures Valid()
      ensures root == InsertInternal(old(root), v)
      ensures Contents() == old(Contents()) + {v}
    {
      root := InsertInternal(root, v);
    }

    method Remove(v: int)
      requires Valid()
      modifies this
      ensures Valid()
      ensures root == RemoveInternal(old(root), v)
      ensures Contents() == old(Contents()) - {v}
    {
      root := RemoveNode(root, v);
    }

    method Search(v: int) returns (r: Tree)
      requires Valid()
      ensures r == SearchInternal(root, v)
      ensures r.Node? <==> v in Contents()
      ensures r.Node? ==> r.value == v && Subtree(r, root)
    {
      r := SearchInternal(root, v);
    }

    method InOrderTraversal() returns (s: seq<int>)
      requires Valid()
      ensures s == InOrder(root)
      ensures StrictlyIncreasing(s)
      ensures forall y :: y in s <==> y in Contents()
    {
      s := InOrderHelper(root, []);
      InOrderSorted(root);
      InOrderElems(root);
    }
  }
}
