/** A concrete run that shows the defect of search.go BreadthFirst as
    written, next to the corrected traversal. */
module SearchFindings {
  import opened Wrappers
  import opened Sparse
  import opened Nodes
  import opened Tries
  import opened Search

  /** BreadthFirst as written never calls back on the node it starts from:
      on a fresh trie the callback is not called at all, although the
      subtree holds the root, while the corrected traversal calls back on
      the root. */
  lemma BreadthFirstSkipsRoot<E>(callback: SearchNode<int> -> Option<E>)
    ensures var root := NewTrie<int>().root;
      && Subtree(root, 0, 0) == [Start(root)]
      && BreadthFirst(root, callback) == ([], None)
      && BreadthFirstCorrected(root, callback).0 == [Start(root)]
  {
    var root := NewTrie<int>().root;
    assert root == Branch(0, Slots({}, []));
    assert Children(Some(root)) == [];
    assert SubtreesBelow(root, 0, 1) == [];
    assert Kids(Start(root)) == [];
    assert Drain([], callback) == ([], None);
    var q := [Start(root)];
    assert q[1..] + Kids(q[0]) == [];
    var r := BreadthFirstCorrected(root, callback);
    assert multiset(r.0) <= multiset{Start(root)};
  }
}
