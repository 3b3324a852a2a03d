/** The trie operations of trie.go: Get, Set and Delete on a root node, as
    pure functions returning the new trie. A Go panic is an `Err` carrying
    the reason. */
module Tries {
  import opened Chars
  import opened Wrappers
  import opened Sparse
  import opened Nodes
  import opened Mutation
  import opened Splits

  /** trie.go Trie: a wrapper around the root node. */
  datatype Trie<V> = Trie(root: Node<V>)

  /** The trie has the shape NewTrie builds (trie.go:18), kept well formed:
      the root is a branch deciding on position 0. */
  ghost predicate Good<V>(t: Trie<V>)
  {
    t.root.Branch? && t.root.index == 0 && WellFormed(t.root)
  }

  /** trie.go NewTrie: an empty root branch on position 0 (TerminalChar). */
  function NewTrie<V>(): (t: Trie<V>)
    ensures Good(t)
    ensures Contents(t.root) == map[]
  {
    var t := Trie(NewBranch(TerminalChar));
    EmptyContents(t.root);
    t
  }

  /** A branch with no children stores nothing, and every key set shares
      the empty prefix. */
  lemma EmptyContents<V>(n: Node<V>)
    requires n.Branch? && Valid(n.slots) && n.slots.present == {}
    ensures Contents(n) == map[]
    ensures WellFormed(n)
  {
    forall k | k in Contents(n)
      ensures false
    {
      ContentsRoute(n, k);
    }
  }

  /** trie.go Get: descend along the key and report the value of the leaf
      reached if that leaf holds the key itself. */
  function Get<V>(t: Trie<V>, key: Key): (r: Result<Option<V>, Panic>)
    requires Structured(t.root)
    ensures r.Err? <==> !t.root.Branch?
    ensures r.Err? ==> r.error == NilBranch
  {
    if !t.root.Branch? then Err(NilBranch)
    else
      var (_, _, child) := Descend(t.root, key);
      if IsLeaf(child) && child.value.key == key then Ok(Some(child.value.value))
      else Ok(None)
  }

  /** On a well-formed trie Get is map lookup: it finds exactly the stored
      keys, with their values. */
  lemma GetRefines<V>(t: Trie<V>, key: Key)
    requires t.root.Branch? && WellFormed(t.root)
    ensures Get(t, key) == Ok(if key in Contents(t.root) then Some(Contents(t.root)[key]) else None)
  {
    DescendFinds(t.root, key);
  }

  /** The leftmost walk of trie.go:56-60: from a node, follow the first
      child until a leaf is reached and return that leaf's key. A branch
      without children makes the walk index an empty slice. */
  function LeftKey<V>(n: Node<V>): (r: Result<Key, Panic>)
    requires Structured(n)
    ensures r.Err? ==> r.error == EmptyBranch
    decreases n
  {
    match n
    case Leaf(k, _) => Ok(k)
    case Branch(_, s) =>
      if |s.children| == 0 then Err(EmptyBranch)
      else
        assert Lookup(s, ChildChars(s)[0]) == Some(s.children[0]);
        LeftKey(s.children[0])
  }

  /** On a routed tree the leftmost walk returns a stored key. */
  lemma {:induction false} LeftKeyStored<V>(n: Node<V>)
    requires Routed(n)
    ensures LeftKey(n).Ok? ==> LeftKey(n).value in Contents(n)
    decreases n
  {
    if n.Branch? && |n.slots.children| > 0 {
      var d := ChildChars(n.slots)[0];
      assert Lookup(n.slots, d) == Some(n.slots.children[0]);
      LeftKeyStored(n.slots.children[0]);
      ContentsOfChild(n, d);
    }
  }

  /** On a well-formed tree the walk from a leaf or a non-empty branch
      never reaches an empty branch: every branch below holds at least two
      children. */
  lemma {:induction false} LeftKeyFound<V>(n: Node<V>)
    requires WellFormed(n)
    requires n.Branch? ==> |n.slots.children| >= 1
    ensures LeftKey(n).Ok? && LeftKey(n).value in Contents(n)
    decreases n
  {
    WellFormedIsRouted(n);
    LeftKeyStored(n);
    if n.Branch? {
      var d := ChildChars(n.slots)[0];
      assert Lookup(n.slots, d) == Some(n.slots.children[0]);
      LeftKeyFound(n.slots.children[0]);
    }
  }

  /** trie.go Set as written. Descend along the key; an empty slot takes a
      new leaf (simple insert, trie.go:35-41); the key's own leaf gets the
      new value (update, trie.go:42-47); otherwise the nearest stored key
      is found by the leftmost walk and the split insert runs
      (trie.go:49-87). The flag tells whether the key was updated. */
  function Set<V>(t: Trie<V>, key: Key, v: V): (r: Result<(Trie<V>, bool), Panic>)
    requires Structured(t.root)
    ensures r.Err? && r.error == NilBranch <==> !t.root.Branch?
    ensures r.Ok? ==> r.value.0.root.Branch? && r.value.0.root.index == t.root.index
    ensures r.Ok? ==> Structured(r.value.0.root)
  {
    if !t.root.Branch? then Err(NilBranch)
    else
      var (_, _, child) := Descend(t.root, key);
      if child.None? then Ok((Trie(Graft(t.root, key, Leaf(key, v))), false))
      else if child.value.Leaf? && child.value.key == key then
        Ok((Trie(Graft(t.root, key, Leaf(key, v))), true))
      else
        match LeftKey(child.value)
        case Err(e) => Err(e)
        case Ok(w) =>
          match Split(t.root, key, v, w)
          case Err(e) => Err(e)
          case Ok(root) => Ok((Trie(root), false))
  }

  /** The case where Set as written goes wrong: the slot is empty but the
      key does not share the bytes before the critical index of the branch
      reached with the keys stored under it. */
  ghost predicate SkipsPrefix<V>(t: Trie<V>, key: Key)
    requires Structured(t.root)
  {
    && t.root.Branch?
    && var (b, _, child) := Descend(t.root, key);
    && child.None?
    && |b.slots.children| > 0
    && LeftKey(b).Ok?
    && CriticalIndex(key, LeftKey(b).value) < b.index
  }

  /** Set with the simple insert guarded: when the slot is empty, the key
      is compared with a stored key of the branch reached, and a split
      insert runs when they differ before the branch's critical index. */
  function SetCorrected<V>(t: Trie<V>, key: Key, v: V): (r: Result<(Trie<V>, bool), Panic>)
    requires Structured(t.root)
    ensures r.Err? && r.error == NilBranch <==> !t.root.Branch?
    ensures r.Ok? ==> r.value.0.root.Branch? && r.value.0.root.index == t.root.index
    ensures r.Ok? ==> Structured(r.value.0.root)
  {
    if !t.root.Branch? then Err(NilBranch)
    else
      var (b, _, child) := Descend(t.root, key);
      if child.None? then
        if |b.slots.children| == 0 then Ok((Trie(Graft(t.root, key, Leaf(key, v))), false))
        else
          match LeftKey(b)
          case Err(e) => Err(e)
          case Ok(w) =>
            if CriticalIndex(key, w) >= b.index then Ok((Trie(Graft(t.root, key, Leaf(key, v))), false))
            else
              match Split(t.root, key, v, w)
              case Err(e) => Err(e)
              case Ok(root) => Ok((Trie(root), false))
      else if child.value.Leaf? && child.value.key == key then
        Ok((Trie(Graft(t.root, key, Leaf(key, v))), true))
      else
        match LeftKey(child.value)
        case Err(e) => Err(e)
        case Ok(w) =>
          match Split(t.root, key, v, w)
          case Err(e) => Err(e)
          case Ok(root) => Ok((Trie(root), false))
  }

  /** Set as written and the corrected Set agree except in the case the
      guard catches. */
  lemma SetAgrees<V>(t: Trie<V>, key: Key, v: V)
    requires Structured(t.root) && !SkipsPrefix(t, key)
    requires t.root.Branch? ==> WellFormed(t.root)
    ensures Set(t, key, v) == SetCorrected(t, key, v)
  {
    if t.root.Branch? {
      var (b, _, child) := Descend(t.root, key);
      if child.None? && |b.slots.children| > 0 {
        DescendInside(t.root, key);
        LeftKeyFound(b);
      }
    }
  }

  /** Storing the key's leaf in the slot its descent reaches, when that
      slot is empty or holds the key's own leaf and the key fits the
      descent, is map update. */
  lemma LeafGraftSound<V>(root: Node<V>, key: Key, v: V)
    requires root.Branch? && WellFormed(root) && Fits(root, key, {key})
    requires var child := Descend(root, key).2;
      child.None? || (child.value.Leaf? && child.value.key == key)
    ensures WellFormed(Graft(root, key, Leaf(key, v)))
    ensures Contents(Graft(root, key, Leaf(key, v))) == Contents(root)[key := v]
  {
    assert Contents(Leaf(key, v)).Keys == {key};
    GraftSound(root, key, Leaf(key, v));
    var (b, c, child) := Descend(root, key);
    if child.Some? {
      SlotKeysPresent(b, c);
    }
    UpdateCompose(Contents(root), SlotKeys(b, c), key, v);
  }

  /** Dropping at most the key and then adding the key's pair is updating
      the key. */
  lemma UpdateCompose<V>(m: map<Key, V>, gone: set<Key>, key: Key, v: V)
    requires gone <= {key}
    ensures (m - gone) + map[key := v] == m[key := v]
  {
  }

  /** A result of Set that meets the map semantics: success, the
      NewTrie shape, the pair stored, and the update flag telling
      whether the key was stored before. */
  ghost predicate Refines<V>(t: Trie<V>, key: Key, v: V, r: Result<(Trie<V>, bool), Panic>)
  {
    && r.Ok?
    && Good(r.value.0)
    && Contents(r.value.0.root) == Contents(t.root)[key := v]
    && r.value.1 == (key in Contents(t.root))
  }

  /** The corrected Set on a trie in the NewTrie shape succeeds, keeps
      that shape, stores the pair and reports an update exactly when the
      key was already stored. */
  lemma SetCorrectedRefines<V>(t: Trie<V>, key: Key, v: V)
    requires Good(t)
    ensures Refines(t, key, v, SetCorrected(t, key, v))
  {
    var (b, c, child) := Descend(t.root, key);
    if child.None? {
      if |b.slots.children| == 0 {
        SetIntoEmpty(t, key, v);
      } else {
        SetIntoSlot(t, key, v);
      }
    } else if child.value.Leaf? && child.value.key == key {
      SetUpdate(t, key, v);
    } else {
      SetSplit(t, key, v);
    }
  }

  lemma SetIntoEmpty<V>(t: Trie<V>, key: Key, v: V)
    requires Good(t)
    requires Descend(t.root, key).2.None? && |Descend(t.root, key).0.slots.children| == 0
    ensures Refines(t, key, v, SetCorrected(t, key, v))
  {
    var root := t.root;
    var (b, c, child) := Descend(root, key);
    DescendInside(root, key);
    DescendFinds(root, key);
    assert b == root;
    EmptyContents(root);
    assert Contents(root).Keys + {key} == {key};
    assert Fits(root, key, {key});
    LeafGraftSound(root, key, v);
  }

  lemma SetIntoSlot<V>(t: Trie<V>, key: Key, v: V)
    requires Good(t)
    requires Descend(t.root, key).2.None? && |Descend(t.root, key).0.slots.children| > 0
    ensures Refines(t, key, v, SetCorrected(t, key, v))
  {
    var root := t.root;
    var (b, c, child) := Descend(root, key);
    assert key !in Contents(root) by {
      DescendFinds(root, key);
    }
    DescendInside(root, key);
    LeftKeyFound(b);
    var w := LeftKey(b).value;
    if CriticalIndex(key, w) >= b.index {
      assert SetCorrected(t, key, v) == Ok((Trie(Graft(root, key, Leaf(key, v))), false));
      SlotGraftSound(root, key, v, w);
    } else {
      SplitSound(root, key, v, w);
    }
  }

  /** The simple insert is sound when the stored key found below the branch
      reached agrees with the key up to that branch's critical index. */
  lemma SlotGraftSound<V>(root: Node<V>, key: Key, v: V, w: Key)
    requires root.Branch? && WellFormed(root) && Descend(root, key).2.None?
    requires w in Contents(Descend(root, key).0)
    requires CriticalIndex(key, w) >= Descend(root, key).0.index
    ensures WellFormed(Graft(root, key, Leaf(key, v)))
    ensures Contents(Graft(root, key, Leaf(key, v))) == Contents(root)[key := v]
  {
    SlotFits(root, key, w);
    LeafGraftSound(root, key, v);
  }

  /** Such a key fits its own descent. */
  lemma SlotFits<V>(root: Node<V>, key: Key, w: Key)
    requires root.Branch? && WellFormed(root)
    requires w in Contents(Descend(root, key).0)
    requires CriticalIndex(key, w) >= Descend(root, key).0.index
    ensures Fits(root, key, {key})
  {
    var j := Descend(root, key).0.index;
    PrefixShorter(key, w, CriticalIndex(key, w), j);
    FitsByPrefix(root, key, {key}, w, j);
  }

  lemma SetUpdate<V>(t: Trie<V>, key: Key, v: V)
    requires Good(t)
    requires IsLeaf(Descend(t.root, key).2) && Descend(t.root, key).2.value.key == key
    ensures Refines(t, key, v, SetCorrected(t, key, v))
  {
    var root := t.root;
    DescendInside(root, key);
    DescendFinds(root, key);
    FitsByPrefix(root, key, {key}, key, |key|);
    LeafGraftSound(root, key, v);
  }

  lemma SetSplit<V>(t: Trie<V>, key: Key, v: V)
    requires Good(t)
    requires var child := Descend(t.root, key).2;
      child.Some? && !(child.value.Leaf? && child.value.key == key)
    ensures Refines(t, key, v, SetCorrected(t, key, v))
  {
    var root := t.root;
    var (b, c, child) := Descend(root, key);
    DescendInside(root, key);
    DescendFinds(root, key);
    assert child.value.Branch? ==> |child.value.slots.children| >= 2;
    LeftKeyFound(child.value);
    SplitSound(root, key, v, LeftKey(child.value).value);
  }

  /** Outside the case the guard catches, Set as written also refines map
      update on a trie in the NewTrie shape. */
  lemma SetRefines<V>(t: Trie<V>, key: Key, v: V)
    requires Good(t) && !SkipsPrefix(t, key)
    ensures Refines(t, key, v, Set(t, key, v))
  {
    SetAgrees(t, key, v);
    SetCorrectedRefines(t, key, v);
  }

  /** trie.go Delete as written: descend along the key; if the leaf reached
      holds the key, remove its slot and contract the branch reached into
      its only remaining child, the root included (trie.go:90-108). The
      flag tells whether the key was deleted. */
  function Delete<V>(t: Trie<V>, key: Key): (r: Result<(Trie<V>, bool), Panic>)
    requires Structured(t.root)
    ensures r.Err? <==> !t.root.Branch?
    ensures r.Err? ==> r.error == NilBranch
    ensures r.Ok? && !r.value.1 ==> r.value.0 == t
  {
    if !t.root.Branch? then Err(NilBranch)
    else
      var (_, _, n) := Descend(t.root, key);
      if !(IsLeaf(n) && n.value.key == key) then Ok((t, false))
      else Ok((Trie(Prune(t.root, key, true)), true))
  }

  /** Delete that never contracts the root: the root stays a branch on
      position 0. */
  function DeleteCorrected<V>(t: Trie<V>, key: Key): (r: Result<(Trie<V>, bool), Panic>)
    requires Structured(t.root)
    ensures r.Err? <==> !t.root.Branch?
    ensures r.Err? ==> r.error == NilBranch
    ensures r.Ok? && !r.value.1 ==> r.value.0 == t
  {
    if !t.root.Branch? then Err(NilBranch)
    else
      var (_, _, n) := Descend(t.root, key);
      if !(IsLeaf(n) && n.value.key == key) then Ok((t, false))
      else Ok((Trie(Prune(t.root, key, false)), true))
  }

  /** Delete as written removes exactly the key, keeps the tree well formed
      and reports whether the key was stored, but the new root may be a
      leaf or a branch on a later position. */
  lemma DeleteRefines<V>(t: Trie<V>, key: Key)
    requires t.root.Branch? && WellFormed(t.root)
    ensures Delete(t, key).Ok?
    ensures var (t', deleted) := Delete(t, key).value;
      && WellFormed(t'.root)
      && Contents(t'.root) == Contents(t.root) - {key}
      && deleted == (key in Contents(t.root))
      && (t'.root.Branch? ==> t'.root.index >= t.root.index)
  {
    DescendFinds(t.root, key);
    if key in Contents(t.root) {
      PruneSound(t.root, key, true);
    } else {
      assert Contents(t.root) - {key} == Contents(t.root);
    }
  }

  /** The corrected Delete on a trie in the NewTrie shape keeps that
      shape, removes exactly the key and reports whether it was stored. */
  lemma DeleteCorrectedRefines<V>(t: Trie<V>, key: Key)
    requires Good(t)
    ensures DeleteCorrected(t, key).Ok?
    ensures var (t', deleted) := DeleteCorrected(t, key).value;
      && Good(t')
      && Contents(t'.root) == Contents(t.root) - {key}
      && deleted == (key in Contents(t.root))
  {
    DescendFinds(t.root, key);
    if key in Contents(t.root) {
      PruneSound(t.root, key, false);
    } else {
      assert Contents(t.root) - {key} == Contents(t.root);
    }
  }

  /** The two Deletes differ only in contracting the root: when the key's
      leaf hangs directly off a root with two children, Delete as written
      replaces the root by the other child. */
  lemma DeleteContractsRoot<V>(t: Trie<V>, key: Key)
    requires Good(t) && |t.root.slots.children| == 2
    requires var child := Lookup(t.root.slots, CharAt(key, 0));
      child.Some? && child.value.Leaf? && child.value.key == key
    ensures Delete(t, key).Ok?
    ensures var r := Delete(t, key).value.0.root;
      var s := Remove(t.root.slots, CharAt(key, 0));
      r == s.children[0] && (r.Branch? ==> r.index > 0)
  {
    ContractWellFormed(t.root, CharAt(key, 0), key);
  }
}
