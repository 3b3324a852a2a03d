/** The in-place mutations of trie.go, as functional subtree replacement:
    replacing the child in one slot of a branch, "Descend, then store a node
    in the slot reached" (Graft), and "Descend, then remove the slot reached,
    contracting a branch left with one child" (Prune). */
module Mutation {
  import opened Chars
  import opened Wrappers
  import opened Sparse
  import opened Nodes

  /** The keys stored under the slot for `c`; none when the slot is empty. */
  ghost function SlotKeys<V>(n: Node<V>, c: Char): set<Key>
    requires n.Branch? && Valid(n.slots)
  {
    if c in n.slots.present then Contents(Lookup(n.slots, c).value).Keys else {}
  }

  lemma SharePrefixSubset(a: set<Key>, b: set<Key>, j: nat)
    requires SharePrefix(a, j) && b <= a
    ensures SharePrefix(b, j)
  {
  }

  lemma SlotKeysPresent<V>(n: Node<V>, c: Char)
    requires n.Branch? && Valid(n.slots) && c in n.slots.present
    ensures SlotKeys(n, c) == Contents(Lookup(n.slots, c).value).Keys
  {
  }

  /** Keys that share `L` bytes with a stored key `w` may join a set sharing a
      prefix of length `j <= L`. */
  lemma SharePrefixExtend(a: set<Key>, b: set<Key>, j: nat, w: Key, l: nat)
    requires SharePrefix(a, j) && w in a && j <= l <= |w|
    requires forall k :: k in b ==> |k| >= l && k[..l] == w[..l]
    ensures SharePrefix(a + b, j)
  {
    forall k | k in b
      ensures k[..j] == w[..j]
    {
      assert k[..j] == k[..l][..j];
      assert w[..j] == w[..l][..j];
    }
  }

  /** Storing a node whose keys belong in slot `c` keeps a branch routed. */
  lemma PutRoutes<V>(n: Node<V>, c: Char, x: Node<V>)
    requires n.Branch? && Valid(n.slots) && RoutesAt(n)
    requires forall k :: k in Contents(x) ==> CharAt(k, n.index) == c
    ensures RoutesAt(Branch(n.index, Put(n.slots, c, x)))
  {
    var r := Branch(n.index, Put(n.slots, c, x));
    forall d: Char, k: Key | d in r.slots.present && k in Contents(Lookup(r.slots, d).value)
      ensures CharAt(k, r.index) == d
    {
      if d != c {
        assert Lookup(r.slots, d) == Lookup(n.slots, d);
      }
    }
  }

  /** Storing a node whose keys belong in slot `c` swaps the pairs of that
      slot for the node's and keeps all other pairs. */
  lemma PutContents<V>(n: Node<V>, c: Char, x: Node<V>)
    requires n.Branch? && Valid(n.slots) && RoutesAt(n)
    requires forall k :: k in Contents(x) ==> CharAt(k, n.index) == c
    ensures Contents(Branch(n.index, Put(n.slots, c, x))) == (Contents(n) - SlotKeys(n, c)) + Contents(x)
  {
    var r := Branch(n.index, Put(n.slots, c, x));
    var m := (Contents(n) - SlotKeys(n, c)) + Contents(x);
    forall k
      ensures k in Contents(r) <==> k in m
      ensures k in Contents(r) ==> Contents(r)[k] == m[k]
    {
      PutContentsAt(n, c, x, k);
    }
    SameMap(Contents(r), m);
  }

  /** PutContents for one key. */
  lemma PutContentsAt<V>(n: Node<V>, c: Char, x: Node<V>, k: Key)
    requires n.Branch? && Valid(n.slots) && RoutesAt(n)
    requires forall k :: k in Contents(x) ==> CharAt(k, n.index) == c
    ensures var r := Branch(n.index, Put(n.slots, c, x));
      var m := (Contents(n) - SlotKeys(n, c)) + Contents(x);
      && (k in Contents(r) <==> k in m)
      && (k in Contents(r) ==> Contents(r)[k] == m[k])
  {
    var r := Branch(n.index, Put(n.slots, c, x));
    PutRoutes(n, c, x);
    ContentsRoute(r, k);
    ContentsRoute(n, k);
    var d := CharAt(k, n.index);
    if d != c {
      assert Lookup(r.slots, d) == Lookup(n.slots, d);
      assert k !in Contents(x);
      if c in n.slots.present {
        assert k !in Contents(Lookup(n.slots, c).value);
      }
    }
  }

  /** Replacing the child of one slot of a well-formed branch by a
      well-formed node whose keys belong in that slot keeps the branch well
      formed and swaps the slot's pairs for the node's. */
  lemma PutWellFormed<V>(n: Node<V>, c: Char, x: Node<V>)
    requires n.Branch? && WellFormed(n) && WellFormed(x)
    requires forall k :: k in Contents(x) ==> CharAt(k, n.index) == c
    requires x.Branch? ==> x.index > n.index && |x.slots.children| >= 2
    requires SharePrefix(Contents(n).Keys + Contents(x).Keys, n.index)
    ensures WellFormed(Branch(n.index, Put(n.slots, c, x)))
    ensures Contents(Branch(n.index, Put(n.slots, c, x))) == (Contents(n) - SlotKeys(n, c)) + Contents(x)
  {
    var r := Branch(n.index, Put(n.slots, c, x));
    PutRoutes(n, c, x);
    PutContents(n, c, x);
    forall d: Char | d in r.slots.present
      ensures Structured(Lookup(r.slots, d).value)
      ensures WellFormed(Lookup(r.slots, d).value)
      ensures Lookup(r.slots, d).value.Branch? ==>
        Lookup(r.slots, d).value.index > r.index && |Lookup(r.slots, d).value.slots.children| >= 2
    {
      if d != c {
        assert Lookup(r.slots, d) == Lookup(n.slots, d);
      }
    }
    assert Structured(r);
    assert Contents(r).Keys <= Contents(n).Keys + Contents(x).Keys;
    assert SharePrefix(Contents(r).Keys, r.index);
  }

  lemma PutStructured<V>(n: Node<V>, c: Char, x: Node<V>)
    requires n.Branch? && Structured(n) && Structured(x)
    ensures Structured(Branch(n.index, Put(n.slots, c, x)))
  {
    var r := Branch(n.index, Put(n.slots, c, x));
    forall d: Char | d in r.slots.present
      ensures Structured(Lookup(r.slots, d).value)
    {
      if d != c {
        assert Lookup(r.slots, d) == Lookup(n.slots, d);
      }
    }
  }

  /** Descends along `p` as node.go Descend does and stores `x` in the slot
      reached, keeping every branch on the way: an Add when the slot is empty
      (trie.go addLeaf), a Remove then an Add when it is occupied (trie.go:85-86);
      overwriting a leaf's value in place (trie.go:45) is storing a new leaf. */
  function Graft<V>(n: Node<V>, p: Key, x: Node<V>): (r: Node<V>)
    requires n.Branch? && Structured(n) && Structured(x)
    ensures r.Branch? && r.index == n.index && Structured(r)
    ensures |r.slots.children| >= |n.slots.children|
    decreases n
  {
    var c := CharAt(p, n.index);
    var y := if Continues(n, p) then Graft(Lookup(n.slots, c).value, p, x) else x;
    PutStructured(n, c, y);
    Branch(n.index, Put(n.slots, c, y))
  }

  /** Keys `keys` may be stored at the end of `p`'s descent: at every branch
      on the way they show `p`'s character and share the branch's prefix. */
  ghost predicate Fits<V>(n: Node<V>, p: Key, keys: set<Key>)
    requires n.Branch? && Structured(n)
    decreases n
  {
    && (forall k :: k in keys ==> CharAt(k, n.index) == CharAt(p, n.index))
    && SharePrefix(Contents(n).Keys + keys, n.index)
    && (Continues(n, p) ==> Fits(Lookup(n.slots, CharAt(p, n.index)).value, p, keys))
  }

  /** Storing a fitting node at the end of a descent keeps the tree well
      formed and replaces exactly the pairs of the slot reached. */
  lemma {:induction false} GraftSound<V>(n: Node<V>, p: Key, x: Node<V>)
    requires n.Branch? && WellFormed(n) && WellFormed(x)
    requires Fits(n, p, Contents(x).Keys)
    requires x.Branch? ==> x.index > Descend(n, p).0.index && |x.slots.children| >= 2
    ensures WellFormed(Graft(n, p, x))
    ensures Contents(Graft(n, p, x)) ==
      (Contents(n) - SlotKeys(Descend(n, p).0, Descend(n, p).1)) + Contents(x)
    decreases n
  {
    var c := CharAt(p, n.index);
    if Continues(n, p) {
      var child := Lookup(n.slots, c).value;
      var y := Graft(child, p, x);
      GraftSound(child, p, x);
      GraftStep(n, p, x, y);
    } else {
      PutWellFormed(n, c, x);
    }
  }

  /** Removing a slot's pairs and then a subset of them again from a map
      containing them is removing that subset once. */
  lemma ReplaceCompose<V>(whole: map<Key, V>, part: map<Key, V>, gone: set<Key>, added: map<Key, V>)
    requires forall k :: k in part ==> k in whole && whole[k] == part[k]
    requires gone <= part.Keys
    ensures (whole - part.Keys) + ((part - gone) + added) == (whole - gone) + added
  {
  }

  /** One level of GraftSound: the branch on the descent takes back its
      grafted child. */
  lemma GraftStep<V>(n: Node<V>, p: Key, x: Node<V>, y: Node<V>)
    requires n.Branch? && WellFormed(n) && WellFormed(x) && Continues(n, p)
    requires Fits(n, p, Contents(x).Keys)
    requires var child := Lookup(n.slots, CharAt(p, n.index)).value;
      && y == Graft(child, p, x)
      && WellFormed(y)
      && Contents(y) == (Contents(child) - SlotKeys(Descend(child, p).0, Descend(child, p).1)) + Contents(x)
    ensures WellFormed(Graft(n, p, x))
    ensures Contents(Graft(n, p, x)) ==
      (Contents(n) - SlotKeys(Descend(n, p).0, Descend(n, p).1)) + Contents(x)
  {
    var c := CharAt(p, n.index);
    var child := Lookup(n.slots, c).value;
    assert Descend(n, p) == Descend(child, p);
    assert Graft(n, p, x) == Branch(n.index, Put(n.slots, c, y));
    assert y.Branch? && y.index > n.index && |y.slots.children| >= 2;
    DescendInside(child, p);
    var (b, bc, _) := Descend(child, p);
    if bc in b.slots.present {
      ContentsOfChild(b, bc);
    }
    ContentsOfChild(n, c);
    var gone := SlotKeys(b, bc);
    assert gone <= Contents(child).Keys;
    assert forall k :: k in Contents(y) ==> CharAt(k, n.index) == c;
    assert Contents(y).Keys <= Contents(n).Keys + Contents(x).Keys;
    SlotKeysPresent(n, c);
    assert SharePrefix(Contents(n).Keys + Contents(x).Keys, n.index);
    SharePrefixSubset(Contents(n).Keys + Contents(x).Keys, Contents(n).Keys + Contents(y).Keys, n.index);
    PutWellFormed(n, c, y);
    ReplaceCompose(Contents(n), Contents(child), gone, Contents(x));
  }

  /** Keys sharing `l` bytes with a key `w` stored under the branch that
      `p`'s descent ends at, where `p` shares them too, fit that descent
      provided they show `p`'s character at that last branch. */
  lemma {:induction false} FitsByPrefix<V>(n: Node<V>, p: Key, keys: set<Key>, w: Key, l: nat)
    requires n.Branch? && WellFormed(n)
    requires l <= |p| && l <= |w| && p[..l] == w[..l]
    requires w in Contents(Descend(n, p).0)
    requires Descend(n, p).0.index <= l
    requires forall k :: k in keys ==> |k| >= l && k[..l] == w[..l]
    requires forall k :: k in keys ==> CharAt(k, Descend(n, p).0.index) == CharAt(p, Descend(n, p).0.index)
    ensures Fits(n, p, keys)
    decreases n
  {
    DescendInside(n, p);
    SharePrefixExtend(Contents(n).Keys, keys, n.index, w, l);
    if Continues(n, p) {
      forall k | k in keys
        ensures CharAt(k, n.index) == CharAt(p, n.index)
      {
        CharAtPrefix(k, w, l, n.index);
        CharAtPrefix(p, w, l, n.index);
      }
      FitsByPrefix(Lookup(n.slots, CharAt(p, n.index)).value, p, keys, w, l);
    }
  }

  /** Dropping one slot keeps a branch well formed and drops exactly the
      slot's pairs. */
  lemma RemoveWellFormed<V>(n: Node<V>, c: Char)
    requires n.Branch? && WellFormed(n) && c in n.slots.present
    ensures WellFormed(Branch(n.index, Remove(n.slots, c)))
    ensures Contents(Branch(n.index, Remove(n.slots, c))) == Contents(n) - SlotKeys(n, c)
  {
    var r := Branch(n.index, Remove(n.slots, c));
    assert Structured(r) && RoutesAt(r) by {
      assert forall d: Char :: d in r.slots.present ==> Lookup(r.slots, d) == Lookup(n.slots, d);
    }
    var m := Contents(n) - SlotKeys(n, c);
    assert Contents(r) == m by {
      forall k
        ensures k in Contents(r) <==> k in m
        ensures k in Contents(r) ==> Contents(r)[k] == m[k]
      {
        ContentsRoute(r, k);
        ContentsRoute(n, k);
      }
      SameMap(Contents(r), m);
    }
    assert SharePrefix(Contents(r).Keys, r.index) by {
      SharePrefixSubset(Contents(n).Keys, Contents(r).Keys, n.index);
    }
    assert forall d: Char :: d in r.slots.present ==> Lookup(r.slots, d) == Lookup(n.slots, d);
  }

  /** A branch of two children, one the leaf of `key`, contracts into its
      other child, which holds every pair but that of `key`. */
  lemma ContractWellFormed<V>(n: Node<V>, c: Char, key: Key)
    requires n.Branch? && WellFormed(n) && c in n.slots.present
    requires Lookup(n.slots, c).value.Leaf? && Lookup(n.slots, c).value.key == key
    requires |Remove(n.slots, c).children| == 1
    ensures var z := Remove(n.slots, c).children[0];
      && WellFormed(z)
      && Contents(z) == Contents(n) - {key}
      && (z.Branch? ==> z.index > n.index && |z.slots.children| >= 2)
  {
    var s := Remove(n.slots, c);
    var d := ChildChars(s)[0];
    var z := s.children[0];
    assert d != c && d in n.slots.present && Lookup(n.slots, d) == Some(z) by {
      assert Lookup(s, d) == Some(z);
    }
    assert s.present == {d} by {
      OnlyChild(s);
    }
    var m := Contents(n) - {key};
    forall k
      ensures k in Contents(z) <==> k in m
      ensures k in Contents(z) ==> Contents(z)[k] == m[k]
    {
      ContentsRoute(n, k);
    }
    SameMap(Contents(z), m);
  }

  /** Maps with the same keys and the same value at each key are equal. */
  lemma SameMap<V>(a: map<Key, V>, b: map<Key, V>)
    requires forall k :: k in a <==> k in b
    requires forall k :: k in a ==> a[k] == b[k]
    ensures a == b
  {
  }

  /** Descends along `key` as node.go Descend does and removes the key's slot
      from the branch reached (trie.go:97); when that leaves the branch with
      exactly one child and `contract` holds, the branch is replaced by that
      child (trie.go:99-106). Below the top `contract` always holds. */
  function Prune<V>(n: Node<V>, key: Key, contract: bool): (r: Node<V>)
    requires n.Branch? && Structured(n)
    requires Descend(n, key).2.Some?
    ensures Structured(r)
    decreases n
  {
    var c := CharAt(key, n.index);
    if Continues(n, key) then
      var y := Prune(Lookup(n.slots, c).value, key, true);
      PutStructured(n, c, y);
      Branch(n.index, Put(n.slots, c, y))
    else
      var s := Remove(n.slots, c);
      assert forall d: Char :: d in s.present ==> Lookup(s, d) == Lookup(n.slots, d);
      if contract && |s.children| == 1 then
        assert Lookup(s, ChildChars(s)[0]) == Some(s.children[0]);
        s.children[0]
      else Branch(n.index, s)
  }

  /** Pruning the leaf of a stored key drops exactly that pair and keeps the
      tree well formed; without contraction at the top the top branch stays
      in place, and a contracted subtree keeps at least two children. */
  lemma {:induction false} PruneSound<V>(n: Node<V>, key: Key, contract: bool)
    requires n.Branch? && WellFormed(n)
    requires IsLeaf(Descend(n, key).2) && Descend(n, key).2.value.key == key
    ensures var r := Prune(n, key, contract);
      && WellFormed(r)
      && Contents(r) == Contents(n) - {key}
      && (r.Branch? ==> r.index >= n.index)
      && (!contract ==> r.Branch? && r.index == n.index)
      && (contract && |n.slots.children| >= 2 && r.Branch? ==> |r.slots.children| >= 2)
    decreases n
  {
    var c := CharAt(key, n.index);
    if Continues(n, key) {
      var child := Lookup(n.slots, c).value;
      assert Descend(n, key) == Descend(child, key);
      PruneSound(child, key, true);
      PruneStep(n, key, contract, Prune(child, key, true));
    } else {
      PruneHere(n, key, contract);
    }
  }

  /** PruneSound where the descent stops at the top branch: its slot for
      the key holds the key's leaf and is removed. */
  lemma PruneHere<V>(n: Node<V>, key: Key, contract: bool)
    requires n.Branch? && WellFormed(n) && !Continues(n, key)
    requires IsLeaf(Descend(n, key).2) && Descend(n, key).2.value.key == key
    ensures var r := Prune(n, key, contract);
      && WellFormed(r)
      && Contents(r) == Contents(n) - {key}
      && (r.Branch? ==> r.index >= n.index)
      && (!contract ==> r.Branch? && r.index == n.index)
      && (contract && |n.slots.children| >= 2 && r.Branch? ==> |r.slots.children| >= 2)
  {
    var c := CharAt(key, n.index);
    var s := Remove(n.slots, c);
    assert c in n.slots.present && Lookup(n.slots, c).value.Leaf? && Lookup(n.slots, c).value.key == key;
    assert SlotKeys(n, c) == {key} by {
      SlotKeysPresent(n, c);
      assert Contents(Lookup(n.slots, c).value) == map[key := Lookup(n.slots, c).value.value];
    }
    if contract && |s.children| == 1 {
      assert Prune(n, key, contract) == s.children[0];
      ContractWellFormed(n, c, key);
    } else {
      assert Prune(n, key, contract) == Branch(n.index, s);
      RemoveWellFormed(n, c);
    }
  }

  /** One level of PruneSound: the branch on the descent takes back its
      pruned child. */
  lemma PruneStep<V>(n: Node<V>, key: Key, contract: bool, y: Node<V>)
    requires n.Branch? && WellFormed(n) && Continues(n, key)
    requires IsLeaf(Descend(n, key).2) && Descend(n, key).2.value.key == key
    requires var child := Lookup(n.slots, CharAt(key, n.index)).value;
      && y == Prune(child, key, true)
      && WellFormed(y)
      && Contents(y) == Contents(child) - {key}
      && (y.Branch? ==> y.index >= child.index)
      && (y.Branch? ==> |y.slots.children| >= 2)
    ensures var r := Prune(n, key, contract);
      && WellFormed(r)
      && Contents(r) == Contents(n) - {key}
      && r.Branch? && r.index == n.index
      && |r.slots.children| == |n.slots.children|
  {
    var c := CharAt(key, n.index);
    var child := Lookup(n.slots, c).value;
    var r := Branch(n.index, Put(n.slots, c, y));
    assert Prune(n, key, contract) == r;
    assert key in Contents(child) by {
      assert Descend(n, key) == Descend(child, key);
      DescendFinds(child, key);
    }
    assert WellFormed(r) && Contents(r) == (Contents(n) - SlotKeys(n, c)) + Contents(y) by {
      PrunedChildFits(n, c, y, key);
      PutWellFormed(n, c, y);
    }
    assert SlotKeys(n, c) == Contents(child).Keys;
    assert forall k :: k in Contents(child) ==> k in Contents(n) && Contents(n)[k] == Contents(child)[k] by {
      ContentsOfChild(n, c);
    }
    RemoveCompose(Contents(n), Contents(child), key);
  }

  /** Removing a slot's pairs and then putting back all but one of them is
      removing that one. */
  lemma RemoveCompose<V>(whole: map<Key, V>, part: map<Key, V>, key: Key)
    requires forall k :: k in part ==> k in whole && whole[k] == part[k]
    requires key in part
    ensures (whole - part.Keys) + (part - {key}) == whole - {key}
  {
  }

  /** A child from which one stored key was dropped still fits its slot. */
  lemma PrunedChildFits<V>(n: Node<V>, c: Char, y: Node<V>, key: Key)
    requires n.Branch? && WellFormed(n) && c in n.slots.present
    requires var child := Lookup(n.slots, c).value;
      && child.Branch?
      && key in Contents(child)
      && WellFormed(y)
      && Contents(y) == Contents(child) - {key}
      && (y.Branch? ==> y.index >= child.index && |y.slots.children| >= 2)
    ensures forall k :: k in Contents(y) ==> CharAt(k, n.index) == c
    ensures y.Branch? ==> y.index > n.index && |y.slots.children| >= 2
    ensures SharePrefix(Contents(n).Keys + Contents(y).Keys, n.index)
    ensures SlotKeys(n, c) == Contents(Lookup(n.slots, c).value).Keys
    ensures forall k :: k in Contents(Lookup(n.slots, c).value) ==>
      k in Contents(n) && Contents(n)[k] == Contents(Lookup(n.slots, c).value)[k]
  {
    ContentsOfChild(n, c);
    SlotKeysPresent(n, c);
    assert Contents(n).Keys + Contents(y).Keys == Contents(n).Keys;
  }
}
