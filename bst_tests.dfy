/** The unit test of src/tree/bst.rs and the search-tree half of the demo in
    src/main.rs, replayed against the contracts of the tree object: each
    expected outcome is proved from the operations' postconditions alone. */
module BstTests {
  import opened Orders
  import opened Bst

  /** Insert the keys one after another, as the test and the demo do. */
  method InsertAll(tree: BstTree, keys: seq<int>)
    requires tree.Valid()
    modifies tree
    ensures tree.Valid()
    ensures tree.Contents() == old(tree.Contents()) + set k | k in keys
  {
    for i := 0 to |keys|
      invariant tree.Valid()
      invariant tree.Contents() == old(tree.Contents()) + set k | k in keys[..i]
    {
      assert keys[..i + 1] == keys[..i] + [keys[i]];
      tree.Insert(keys[i]);
    }
    assert keys[..|keys|] == keys;
  }

  /** A fresh tree holding exactly the given keys, inserted in order. */
  method Build(keys: seq<int>) returns (bst: BstTree)
    ensures fresh(bst) && bst.Valid()
    ensures forall k :: k in bst.Contents() <==> k in keys
  {
    bst := new BstTree();
    InsertAll(bst, keys);
  }

  /** The test of src/tree/bst.rs: after inserting 3, 4, 1, 2, 5, 6 the key 4
      is found and the traversal lists 1 to 6. */
  method TestBstInsert()
  {
    var bst := Build([3, 4, 1, 2, 5, 6]);
    var found := bst.Search(4);
    assert found.Node? && found.value == 4;
    var s := bst.InOrderTraversal();
    Unique(s, [1, 2, 3, 4, 5, 6]);
  }

  /** Its second half: removing 5 drops it from the traversal and the search. */
  method TestBstRemove()
  {
    var bst := Build([3, 4, 1, 2, 5, 6]);
    bst.Remove(5);
    var s := bst.InOrderTraversal();
    Unique(s, [1, 2, 3, 4, 6]);
    var found := bst.Search(5);
    assert found == Leaf;
  }

  /** The demo, first listing: after inserting 5, 3, 7, 10, 20 the traversal
      is [3, 5, 7, 10, 20]. */
  method DemoInsert()
  {
    var bst := Build([5, 3, 7, 10, 20]);
    var s := bst.InOrderTraversal();
    Unique(s, [3, 5, 7, 10, 20]);
  }

  /** The demo, second listing: after removing 3 the traversal is
      [5, 7, 10, 20]. */
  method DemoRemove()
  {
    var bst := Build([5, 3, 7, 10, 20]);
    bst.Remove(3);
    var s := bst.InOrderTraversal();
    Unique(s, [5, 7, 10, 20]);
  }
}
