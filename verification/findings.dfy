/** Concrete runs of the model that show two defects of trie.go as written,
    next to the corrected operations doing what the map semantics asks. */
module Findings {
  import opened Chars
  import opened Wrappers
  import opened Sparse
  import opened Nodes
  import opened Mutation
  import opened Splits
  import opened Tries

  /** Set [0] := 1, Set [1] := 2: a root branch on position 0 with the two
      leaves side by side. */
  lemma TwoLeaves()
    ensures var t0: Trie<int> := NewTrie();
      && Set(t0, [0], 1) == Ok((Trie(Branch(0, Slots({1}, [Leaf([0], 1)]))), false))
      && Set(Trie(Branch(0, Slots({1}, [Leaf([0], 1)]))), [1], 2)
         == Ok((Trie(Branch(0, Slots({1, 2}, [Leaf([0], 1), Leaf([1], 2)]))), false))
  {
    var t0: Trie<int> := NewTrie();
    assert t0.root == Branch(0, Slots({}, []));
    assert CharAt([0], 0) == 1;
    assert Descend(t0.root, [0]) == (t0.root, 1, None);
    assert Rank({}, 1) == 0;
    var s1 := Put(t0.root.slots, 1, Leaf([0], 1));
    assert s1 == Add(t0.root.slots, 1, Leaf([0], 1));
    assert s1 == Slots({1}, [Leaf([0], 1)]);
    assert Graft(t0.root, [0], Leaf([0], 1)) == Branch(0, s1);

    var r1 := Branch(0, s1);
    assert CharAt([1], 0) == 2;
    assert Rank({1}, 2) == 1;
    assert Descend(r1, [1]) == (r1, 2, None);
    var s2 := Put(s1, 2, Leaf([1], 2));
    assert s2 == Add(s1, 2, Leaf([1], 2));
    assert s2 == Slots({1, 2}, [Leaf([0], 1), Leaf([1], 2)]);
    assert Graft(r1, [1], Leaf([1], 2)) == Branch(0, s2);
  }

  /** The trie after Set [0] := 1 and Set [1] := 2 is a good trie. */
  lemma TwoLeavesGood()
    ensures Good(Trie(Branch(0, Slots({1, 2}, [Leaf([0], 1), Leaf([1], 2)]))))
    ensures Contents(Branch(0, Slots({1, 2}, [Leaf([0], 1), Leaf([1], 2)]))) == map[[0] := 1, [1] := 2]
  {
    TwoLeaves();
    var t0: Trie<int> := NewTrie();
    var t1 := Trie(Branch(0, Slots({1}, [Leaf([0], 1)])));
    SetRefines(t0, [0], 1);
    assert Rank({1}, 2) == 1;
    assert Descend(t1.root, [1]) == (t1.root, 2, None);
    assert LeftKey(t1.root) == Ok([0]);
    assert CriticalIndex([1], [0]) == 0;
    SetRefines(t1, [1], 2);
  }

  /** Delete as written contracts the root: after Set [0], Set [1] and
      Delete [0] the root is the leaf of [1], and the next Get dereferences
      a nil Branch. */
  lemma DeleteLosesRoot()
    ensures var t2 := Trie(Branch(0, Slots({1, 2}, [Leaf([0], 1), Leaf([1], 2)])));
      && Good(t2)
      && Delete(t2, [0]) == Ok((Trie(Leaf([1], 2)), true))
      && Get(Trie(Leaf([1], 2)), [1]) == Err(NilBranch)
  {
    TwoLeavesGood();
    PruneTwoLeaves();
  }

  /** The prune under Delete [0]: the root is left with the leaf of [1]
      alone and is contracted into it. */
  lemma PruneTwoLeaves()
    ensures var root := Branch(0, Slots({1, 2}, [Leaf([0], 1), Leaf([1], 2)]));
      && Structured(root)
      && Descend(root, [0]) == (root, 1, Some(Leaf([0], 1)))
      && Prune(root, [0], true) == Leaf([1], 2)
  {
    var root := Branch(0, Slots({1, 2}, [Leaf([0], 1), Leaf([1], 2)]));
    assert Structured(root) by { TwoLeavesGood(); }
    assert Rank({1, 2}, 1) == 0;
    assert Lookup(root.slots, 1) == Some(Leaf([0], 1));
    assert Descend(root, [0]) == (root, 1, Some(Leaf([0], 1)));
    var s := Remove(root.slots, 1);
    assert s == Slots({2}, [Leaf([1], 2)]);
  }

  /** On the same trie the corrected Delete keeps the root branch, and Get
      still finds [1]. */
  lemma DeleteCorrectedKeepsRoot()
    ensures var t2 := Trie(Branch(0, Slots({1, 2}, [Leaf([0], 1), Leaf([1], 2)])));
      && Good(t2)
      && DeleteCorrected(t2, [0]).Ok?
      && Get(DeleteCorrected(t2, [0]).value.0, [1]) == Ok(Some(2))
  {
    TwoLeavesGood();
    var t2 := Trie(Branch(0, Slots({1, 2}, [Leaf([0], 1), Leaf([1], 2)])));
    DeleteCorrectedRefines(t2, [0]);
    GetRefines(DeleteCorrected(t2, [0]).value.0, [1]);
  }

  const Abc: Key := [0, 1, 2]
  const Abd: Key := [0, 1, 3]
  const Axe: Key := [0, 4, 5]
  const Axc: Key := [0, 4, 2]

  /** Set Abc := 1 on the empty trie: one leaf under the root. */
  lemma SetFirst()
    ensures var t0: Trie<int> := NewTrie();
      Set(t0, Abc, 1) == Ok((Trie(Branch(0, Slots({1}, [Leaf(Abc, 1)]))), false))
  {
    var t0: Trie<int> := NewTrie();
    var l1 := Leaf(Abc, 1);
    assert t0.root == Branch(0, Slots({}, []));
    assert CharAt(Abc, 0) == 1;
    assert Descend(t0.root, Abc) == (t0.root, 1, None);
    assert Rank({}, 1) == 0;
    var s1 := Put(t0.root.slots, 1, l1);
    assert s1 == Add(t0.root.slots, 1, l1);
    assert s1 == Slots({1}, [l1]);
    assert Graft(t0.root, Abc, l1) == Branch(0, s1);
  }

  /** Set Abd := 2 next: a twig on position 2 takes both leaves. */
  lemma SetSecond()
    ensures var r1 := Branch(0, Slots({1}, [Leaf(Abc, 1)]));
      var tw1 := Branch(2, Slots({3, 4}, [Leaf(Abc, 1), Leaf(Abd, 2)]));
      && Structured(r1)
      && Set(Trie(r1), Abd, 2) == Ok((Trie(Branch(0, Slots({1}, [tw1]))), false))
  {
    var l1 := Leaf(Abc, 1);
    var l2 := Leaf(Abd, 2);
    var s1 := Slots({1}, [l1]);
    var r1 := Branch(0, s1);
    SetFirst();
    assert CharAt(Abd, 0) == 1;
    assert Rank({1}, 1) == 0;
    assert Lookup(s1, 1) == Some(l1);
    assert Descend(r1, Abd) == (r1, 1, Some(l1));
    SplitSecond();
  }

  /** The split insert of Abd against the leaf of Abc. */
  lemma SplitSecond()
    ensures var r1 := Branch(0, Slots({1}, [Leaf(Abc, 1)]));
      var tw1 := Branch(2, Slots({3, 4}, [Leaf(Abc, 1), Leaf(Abd, 2)]));
      && Structured(r1)
      && Split(r1, Abd, 2, Abc) == Ok(Branch(0, Slots({1}, [tw1])))
  {
    var l1 := Leaf(Abc, 1);
    var s1 := Slots({1}, [l1]);
    var r1 := Branch(0, s1);
    SetFirst();
    assert Rank({1}, 1) == 0;
    assert Lookup(s1, 1) == Some(l1);
    assert CriticalIndex(Abd, Abc) == 2;
    assert Abc[..2] == [0, 1];
    assert CharAt([0, 1], 0) == 1;
    assert Descend(r1, [0, 1]) == (r1, 1, Some(l1));
    assert CharAt(Abc, 2) == 3 && CharAt(Abd, 2) == 4;
    TwigSecond();
    GraftSecond();
  }

  /** The twig of the second Set. */
  lemma TwigSecond()
    ensures CharAt(Abd, 2) == 4
    ensures Twig(2, Abd, 2, 3, Leaf(Abc, 1)) == Branch(2, Slots({3, 4}, [Leaf(Abc, 1), Leaf(Abd, 2)]))
  {
    var p := Pair(4, Leaf(Abd, 2), 3, Leaf(Abc, 1));
    assert p.present == {3, 4};
    assert p.children == [Leaf(Abc, 1), Leaf(Abd, 2)];
  }

  /** Storing the twig of the second Set in the root's slot 1. */
  lemma GraftSecond()
    ensures var tw1 := Branch(2, Slots({3, 4}, [Leaf(Abc, 1), Leaf(Abd, 2)]));
      var r1 := Branch(0, Slots({1}, [Leaf(Abc, 1)]));
      && Structured(r1) && Structured(tw1)
      && Graft(r1, [0, 1], tw1) == Branch(0, Slots({1}, [tw1]))
  {
    var l1 := Leaf(Abc, 1);
    var s1 := Slots({1}, [l1]);
    var r1 := Branch(0, s1);
    SetFirst();
    TwigSecond();
    var tw1 := Branch(2, Slots({3, 4}, [Leaf(Abc, 1), Leaf(Abd, 2)]));
    assert Rank({1}, 1) == 0;
    assert Lookup(s1, 1) == Some(l1);
    assert CharAt([0, 1], 0) == 1;
    assert !Continues(r1, [0, 1]);
    var s2 := Put(s1, 1, tw1);
    assert Remove(s1, 1) == Slots({}, []);
    assert s2 == Add(Slots({}, []), 1, tw1);
    assert s2 == Slots({1}, [tw1]);
  }

  /** Set Axe := 3 next: Axe shares only its first byte with the keys
      under the twig, yet its slot 6 there is empty, so the unguarded
      simple insert puts it into the twig. */
  lemma SetThird()
    ensures var tw1 := Branch(2, Slots({3, 4}, [Leaf(Abc, 1), Leaf(Abd, 2)]));
      var tw1' := Branch(2, Slots({3, 4, 6}, [Leaf(Abc, 1), Leaf(Abd, 2), Leaf(Axe, 3)]));
      var t2 := Trie(Branch(0, Slots({1}, [tw1])));
      && Structured(t2.root)
      && SkipsPrefix(t2, Axe)
      && Set(t2, Axe, 3) == Ok((Trie(Branch(0, Slots({1}, [tw1']))), false))
  {
    var tw1 := Branch(2, Slots({3, 4}, [Leaf(Abc, 1), Leaf(Abd, 2)]));
    var t2 := Trie(Branch(0, Slots({1}, [tw1])));
    DescendThird();
    assert LeftKey(tw1) == Ok(Abc);
    assert CriticalIndex(Axe, Abc) == 1;
    SetBySimple(t2, Axe, 3);
    GraftThird();
  }

  /** The descent of Axe ends in the twig at its empty slot 6. */
  lemma DescendThird()
    ensures var tw1 := Branch(2, Slots({3, 4}, [Leaf(Abc, 1), Leaf(Abd, 2)]));
      var r2 := Branch(0, Slots({1}, [tw1]));
      && Structured(r2)
      && Descend(r2, Axe) == (tw1, 6, None)
  {
    GraftSecond();
    var tw1 := Branch(2, Slots({3, 4}, [Leaf(Abc, 1), Leaf(Abd, 2)]));
    var s2 := Slots({1}, [tw1]);
    var r2 := Branch(0, s2);
    assert CharAt(Axe, 0) == 1 && CharAt(Axe, 2) == 6;
    assert Rank({1}, 1) == 0;
    assert Lookup(s2, 1) == Some(tw1);
    assert Continues(r2, Axe);
    assert Lookup(tw1.slots, 6) == None;
    assert Descend(tw1, Axe) == (tw1, 6, None);
  }

  /** Set reaching an empty slot runs the simple insert there. */
  lemma SetBySimple<V>(t: Trie<V>, key: Key, v: V)
    requires t.root.Branch? && Structured(t.root)
    requires Descend(t.root, key).2.None?
    ensures Set(t, key, v) == Ok((Trie(Graft(t.root, key, Leaf(key, v))), false))
  {
  }

  /** Storing the leaf of Axe in slot 6 of the twig. */
  lemma GraftThird()
    ensures var tw1 := Branch(2, Slots({3, 4}, [Leaf(Abc, 1), Leaf(Abd, 2)]));
      var tw1' := Branch(2, Slots({3, 4, 6}, [Leaf(Abc, 1), Leaf(Abd, 2), Leaf(Axe, 3)]));
      var r2 := Branch(0, Slots({1}, [tw1]));
      && Structured(r2)
      && Graft(r2, Axe, Leaf(Axe, 3)) == Branch(0, Slots({1}, [tw1']))
  {
    var tw1 := Branch(2, Slots({3, 4}, [Leaf(Abc, 1), Leaf(Abd, 2)]));
    var tw1' := Branch(2, Slots({3, 4, 6}, [Leaf(Abc, 1), Leaf(Abd, 2), Leaf(Axe, 3)]));
    var s2 := Slots({1}, [tw1]);
    var r2 := Branch(0, s2);
    assert Structured(r2) && Structured(tw1) by { GraftSecond(); }
    assert CharAt(Axe, 0) == 1;
    assert Rank({1}, 1) == 0;
    assert Lookup(s2, 1) == Some(tw1);
    assert Continues(r2, Axe);
    GraftThirdTwig();
    PutSingle(1, tw1, tw1');
  }

  /** The third key lands in the twig of the first two. */
  lemma GraftThirdTwig()
    ensures var tw1 := Branch(2, Slots({3, 4}, [Leaf(Abc, 1), Leaf(Abd, 2)]));
      && Structured(tw1)
      && Graft(tw1, Axe, Leaf(Axe, 3)) == Branch(2, Slots({3, 4, 6}, [Leaf(Abc, 1), Leaf(Abd, 2), Leaf(Axe, 3)]))
  {
    var tw1 := Branch(2, Slots({3, 4}, [Leaf(Abc, 1), Leaf(Abd, 2)]));
    assert Structured(tw1) by { TwigSecond(); }
    var tw1' := Branch(2, Slots({3, 4, 6}, [Leaf(Abc, 1), Leaf(Abd, 2), Leaf(Axe, 3)]));
    ThirdPut();
    assert CharAt(Axe, 2) == 6;
    assert !Continues(tw1, Axe) by {
      assert Lookup(tw1.slots, 6) == None;
    }
    GraftHere(tw1, Axe, Leaf(Axe, 3));
  }

  /** Slot 6 of the twig is above its two present characters, so the leaf
      of Axe is appended. */
  lemma ThirdPut()
    ensures var s := Slots({3, 4}, [Leaf(Abc, 1), Leaf(Abd, 2)]);
      && Valid(s)
      && Put(s, 6, Leaf(Axe, 3)) == Slots({3, 4, 6}, [Leaf(Abc, 1), Leaf(Abd, 2), Leaf(Axe, 3)])
  {
    var s := Slots({3, 4}, [Leaf(Abc, 1), Leaf(Abd, 2)]);
    PutAbove(s, 6, Leaf(Axe, 3));
    assert s.children + [Leaf(Axe, 3)] == [Leaf(Abc, 1), Leaf(Abd, 2), Leaf(Axe, 3)];
    assert s.present + {6} == {3, 4, 6};
  }

  /** The twig deciding on Abc, Abd and Axe after the third Set. */
  function Tw1(): Node<int>
  {
    Branch(2, Slots({3, 4, 6}, [Leaf(Abc, 1), Leaf(Abd, 2), Leaf(Axe, 3)]))
  }

  /** The branch on position 1 that the fourth Set puts above it. */
  function Tw2(): Node<int>
  {
    Branch(1, Slots({2, 5}, [Tw1(), Leaf(Axc, 4)]))
  }

  /** The trie after the third Set is structured. */
  lemma ThirdStructured()
    ensures Structured(Tw1()) && Structured(Branch(0, Slots({1}, [Tw1()])))
  {
    GraftThird();
    assert Rank({1}, 1) == 0;
    assert Lookup(Slots({1}, [Tw1()]), 1) == Some(Tw1());
  }

  /** Set Axc := 4 next: the leaf reached is Abc's, the critical index is
      1, and a branch on position 1 is put above the whole twig, routing
      Axe's byte 4 to the new leaf of Axc. */
  lemma SetFourth()
    ensures var r3 := Branch(0, Slots({1}, [Tw1()]));
      && Structured(r3)
      && Set(Trie(r3), Axc, 4) == Ok((Trie(Branch(0, Slots({1}, [Tw2()]))), false))
  {
    DescendFourth();
    SplitFourth();
    SetBySplit(Trie(Branch(0, Slots({1}, [Tw1()]))), Axc, 4, Abc, 1);
  }

  /** Set reaching the leaf of another key runs the split insert against
      that key. */
  lemma SetBySplit<V>(t: Trie<V>, key: Key, v: V, w: Key, x: V)
    requires t.root.Branch? && Structured(t.root) && w != key
    requires Descend(t.root, key).2 == Some(Leaf(w, x))
    requires Split(t.root, key, v, w).Ok?
    ensures Set(t, key, v) == Ok((Trie(Split(t.root, key, v, w).value), false))
  {
    assert LeftKey(Leaf(w, x)) == Ok(w);
  }

  /** The descent of Axc ends at the leaf of Abc in the twig. */
  lemma DescendFourth()
    ensures var r3 := Branch(0, Slots({1}, [Tw1()]));
      && Structured(r3)
      && Descend(r3, Axc) == (Tw1(), 3, Some(Leaf(Abc, 1)))
  {
    ThirdStructured();
    var s3 := Slots({1}, [Tw1()]);
    var r3 := Branch(0, s3);
    assert CharAt(Axc, 0) == 1 && CharAt(Axc, 2) == 3;
    assert Rank({1}, 1) == 0;
    assert Lookup(s3, 1) == Some(Tw1());
    assert Continues(r3, Axc);
    assert Rank({3, 4, 6}, 3) == 0;
    assert Lookup(Tw1().slots, 3) == Some(Leaf(Abc, 1));
    assert Descend(Tw1(), Axc) == (Tw1(), 3, Some(Leaf(Abc, 1)));
  }

  /** The split insert of Axc against the leaf of Abc. */
  lemma SplitFourth()
    ensures var r3 := Branch(0, Slots({1}, [Tw1()]));
      && Structured(r3)
      && Split(r3, Axc, 4, Abc) == Ok(Branch(0, Slots({1}, [Tw2()])))
  {
    ThirdStructured();
    var s3 := Slots({1}, [Tw1()]);
    var r3 := Branch(0, s3);
    assert CriticalIndex(Axc, Abc) == 1;
    assert Abc[..1] == [0];
    assert CharAt([0], 0) == 1;
    assert Rank({1}, 1) == 0;
    assert Lookup(s3, 1) == Some(Tw1());
    assert !Continues(r3, [0]);
    assert Descend(r3, [0]) == (r3, 1, Some(Tw1()));
    assert CharAt(Abc, 1) == 2 && CharAt(Axc, 1) == 5;
    TwigFourth();
    GraftFourth();
  }

  /** The branch of the fourth Set. */
  lemma TwigFourth()
    ensures Structured(Tw1()) && CharAt(Axc, 1) == 5
    ensures Twig(1, Axc, 4, 2, Tw1()) == Tw2()
  {
    ThirdStructured();
    var p := Pair(5, Leaf(Axc, 4), 2, Tw1());
    assert p.present == {2, 5};
    assert p.children == [Tw1(), Leaf(Axc, 4)];
  }

  /** Storing that branch in the root's slot 1. */
  lemma GraftFourth()
    ensures var r3 := Branch(0, Slots({1}, [Tw1()]));
      && Structured(r3) && Structured(Tw2())
      && Graft(r3, [0], Tw2()) == Branch(0, Slots({1}, [Tw2()]))
  {
    ThirdStructured();
    TwigFourth();
    var s3 := Slots({1}, [Tw1()]);
    var r3 := Branch(0, s3);
    assert CharAt([0], 0) == 1;
    assert Rank({1}, 1) == 0;
    assert Lookup(s3, 1) == Some(Tw1());
    assert !Continues(r3, [0]);
    PutSingle(1, Tw1(), Tw2());
  }

  /** After the four Sets, Get of Axe misses: the descent routes Axe's
      byte 4 at position 1 to the leaf of Axc. */
  lemma GetMissesAxe()
    ensures var r4 := Branch(0, Slots({1}, [Tw2()]));
      && Structured(r4)
      && Get(Trie(r4), Axe) == Ok(None)
  {
    var s4 := Slots({1}, [Tw2()]);
    var r4 := Branch(0, s4);
    assert Structured(r4) by { GraftFourth(); }
    assert CharAt(Axe, 0) == 1 && CharAt(Axe, 1) == 5;
    assert Rank({1}, 1) == 0;
    assert Lookup(s4, 1) == Some(Tw2());
    assert Continues(r4, Axe);
    assert Rank({2, 5}, 5) == 1;
    assert Lookup(Tw2().slots, 5) == Some(Leaf(Axc, 4));
    assert Descend(r4, Axe) == (Tw2(), 5, Some(Leaf(Axc, 4)));
  }

  /** A graft whose descent stops at the top branch stores into its slot. */
  lemma GraftHere<V>(n: Node<V>, p: Key, x: Node<V>)
    requires n.Branch? && Structured(n) && Structured(x) && !Continues(n, p)
    ensures Graft(n, p, x) == Branch(n.index, Put(n.slots, CharAt(p, n.index), x))
  {
  }

  /** Replacing the only child of an array with one present character. */
  lemma PutSingle<T>(c: Char, x: T, y: T)
    ensures Valid(Slots({c}, [x]))
    ensures Put(Slots({c}, [x]), c, y) == Slots({c}, [y])
  {
    var s := Slots({c}, [x]);
    assert Rank({c}, c) == 0 by {
      RankIsCount({c}, c);
      assert Below({c}, c) == {};
    }
    assert Rank({}, c) == 0 by {
      RankIsCount({}, c);
      assert Below({}, c) == {};
    }
    var e: Slots<T> := Slots({}, []);
    assert Remove(s, c) == e;
    assert Add(e, c, y) == Slots({c}, [y]);
  }

  /** Set as written loses a key: Set Abc, Abd, Axe, Axc in turn, each
      succeeding, and then Get of Axe reports it absent. The third Set is
      the case the corrected Set guards against. */
  lemma SetLosesKey()
    ensures var t0: Trie<int> := NewTrie();
      var t1 := Trie(Branch(0, Slots({1}, [Leaf(Abc, 1)])));
      var t2 := Trie(Branch(0, Slots({1}, [Branch(2, Slots({3, 4}, [Leaf(Abc, 1), Leaf(Abd, 2)]))])));
      var t3 := Trie(Branch(0, Slots({1}, [Tw1()])));
      var t4 := Trie(Branch(0, Slots({1}, [Tw2()])));
      && Structured(t1.root) && Structured(t2.root) && Structured(t3.root) && Structured(t4.root)
      && Set(t0, Abc, 1) == Ok((t1, false))
      && Set(t1, Abd, 2) == Ok((t2, false))
      && SkipsPrefix(t2, Axe)
      && Set(t2, Axe, 3) == Ok((t3, false))
      && Set(t3, Axc, 4) == Ok((t4, false))
      && Get(t4, Axe) == Ok(None)
  {
    SetFirst();
    SetSecond();
    SetThird();
    SetFourth();
    GetMissesAxe();
  }

  /** The corrected Set on the same four pairs keeps Axe: Get finds it. */
  lemma SetCorrectedKeepsKey()
    ensures var t0: Trie<int> := NewTrie();
      var r1 := SetCorrected(t0, Abc, 1);
      && r1.Ok? && Good(r1.value.0)
      && var r2 := SetCorrected(r1.value.0, Abd, 2);
      && r2.Ok? && Good(r2.value.0)
      && var r3 := SetCorrected(r2.value.0, Axe, 3);
      && r3.Ok? && Good(r3.value.0)
      && var r4 := SetCorrected(r3.value.0, Axc, 4);
      && r4.Ok? && Good(r4.value.0)
      && Get(r4.value.0, Axe) == Ok(Some(3))
  {
    var t0: Trie<int> := NewTrie();
    SetCorrectedRefines(t0, Abc, 1);
    var t1 := SetCorrected(t0, Abc, 1).value.0;
    SetCorrectedRefines(t1, Abd, 2);
    var t2 := SetCorrected(t1, Abd, 2).value.0;
    SetCorrectedRefines(t2, Axe, 3);
    var t3 := SetCorrected(t2, Axe, 3).value.0;
    SetCorrectedRefines(t3, Axc, 4);
    var t4 := SetCorrected(t3, Axc, 4).value.0;
    GetRefines(t4, Axe);
    assert Axe != Axc;
  }
}
