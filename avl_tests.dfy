/** The unit test of src/avl.rs and the AVL half of the demo in src/main.rs,
    replayed against the contracts of the tree object: each expected outcome
    is proved from the operations' postconditions alone. */
module AvlTests {
  import opened Orders
  import opened Avl

  /** Insert the keys one after another, as the test and the demo do. */
  method InsertAll(tree: AvlTree, keys: seq<int>)
    requires tree.Valid()
    modifies tree
    ensures tree.Valid()
    ensures tree.Contents() == old(tree.Contents()) + set k | k in keys
  {
    for i := 0 to |keys|
      invariant tree.Valid()
      invariant tree.Contents() == old(tree.Contents()) + set k | k in keys[..i]
    {
      assert keys[..i + 1] == keys[..i] + [keys[i]];
      tree.Insert(keys[i]);
    }
    assert keys[..|keys|] == keys;
  }

  /** Remove one key, seen by the client only through the set of keys. This
      repeats part of `AvlTree.Remove`'s contract on purpose: it hides the
      tie to `RemoveInternal`, which the client proofs do not need and which
      makes them much more expensive to check. */
  method RemoveKey(tree: AvlTree, v: int)
    requires tree.Valid()
    modifies tree
    ensures tree.Valid()
    ensures tree.Contents() == old(tree.Contents()) - {v}
  {
    tree.Remove(v);
  }

  /** A fresh tree holding exactly the given keys, inserted in order. */
  method Build(keys: seq<int>) returns (tree: AvlTree)
    ensures fresh(tree) && tree.Valid()
    ensures forall k :: k in tree.Contents() <==> k in keys
  {
    tree := new AvlTree();
    InsertAll(tree, keys);
  }

  /** The test of src/avl.rs: insert 2, 1, 3; then 3 is found, 4 is not, and
      the traversal is [1, 2, 3]. */
  method TestAvlInsert()
  {
    var tree := Build([2, 1, 3]);
    var has3 := tree.Contains(3);
    var has4 := tree.Contains(4);
    assert has3 && !has4;
    var s := tree.InOrderTraversal();
    Unique(s, [1, 2, 3]);
  }

  /** Its second half: after removing 3, 3 is gone, 2 stays and the
      traversal is [1, 2]. */
  method TestAvlRemove()
  {
    var tree := Build([2, 1, 3]);
    RemoveKey(tree, 3);
    var has3 := tree.Contains(3);
    var has2 := tree.Contains(2);
    assert !has3 && has2;
    var s := tree.InOrderTraversal();
    Unique(s, [1, 2]);
  }

  /** The demo, first listing: after inserting 5, 3, 7, 10, 20 the traversal
      is [3, 5, 7, 10, 20]. */
  method DemoInsert()
  {
    var tree := Build([5, 3, 7, 10, 20]);
    var s := tree.InOrderTraversal();
    Unique(s, [3, 5, 7, 10, 20]);
  }

  /** The demo, second listing: after removing 3 the traversal is
      [5, 7, 10, 20]. */
  method DemoRemove()
  {
    var tree := Build([5, 3, 7, 10, 20]);
    RemoveKey(tree, 3);
    var s := tree.InOrderTraversal();
    Unique(s, [5, 7, 10, 20]);
  }

  /** After the demo's removal 7 is still found and 100 never was. */
  method DemoContains()
  {
    var tree := Build([5, 3, 7, 10, 20]);
    RemoveKey(tree, 3);
    var has7 := tree.Contains(7);
    var has100 := tree.Contains(100);
    assert has7 && !has100;
  }
}
