/** The split insert of trie.go Set (trie.go:62-87): given a stored key `w`
    near the new key, a new branch (the twig) deciding on their critical
    index takes the new leaf and the subtree holding `w`, and replaces that
    subtree in the trie. */
module Splits {
  import opened Chars
  import opened Wrappers
  import opened Sparse
  import opened Nodes
  import opened Mutation

  /** The new branch of trie.go:79-83: deciding on `ci`, with the leaf of
      `key` in its slot and `other` in the slot `cc`. */
  function Twig<V>(ci: nat, key: Key, v: V, cc: Char, other: Node<V>): (r: Node<V>)
    requires CharAt(key, ci) != cc && Structured(other)
    ensures r.Branch? && r.index == ci && Structured(r)
    ensures r.slots.present == {CharAt(key, ci), cc} && |r.slots.children| == 2
    ensures Lookup(r.slots, CharAt(key, ci)) == Some(Leaf(key, v))
    ensures Lookup(r.slots, cc) == Some(other)
  {
    var ck := CharAt(key, ci);
    var s := Pair(ck, Leaf(key, v), cc, other);
    TwigStructured(Branch(ci, s), ck, cc);
    Branch(ci, s)
  }

  lemma TwigStructured<V>(t: Node<V>, ck: Char, cc: Char)
    requires t.Branch? && Valid(t.slots) && t.slots.present == {ck, cc}
    requires Structured(Lookup(t.slots, ck).value) && Structured(Lookup(t.slots, cc).value)
    ensures Structured(t)
  {
    forall d: Char | d in t.slots.present
      ensures Structured(Lookup(t.slots, d).value)
    {
      if d == ck {
      } else {
        assert d == cc;
      }
    }
  }

  /** The keys below a subtree holding `w`, deciding past `ci`, all share
      `w`'s first `ci` bytes and its character at `ci`. */
  lemma BelowCritical<V>(other: Node<V>, w: Key, ci: nat)
    requires WellFormed(other) && w in Contents(other) && ci <= |w|
    requires other.Branch? ==> other.index > ci
    ensures forall k :: k in Contents(other) ==>
      |k| >= ci && k[..ci] == w[..ci] && CharAt(k, ci) == CharAt(w, ci)
  {
    if other.Branch? {
      var j := other.index;
      forall k | k in Contents(other)
        ensures |k| >= ci && k[..ci] == w[..ci] && CharAt(k, ci) == CharAt(w, ci)
      {
        assert k[..ci] == k[..j][..ci];
        assert w[..ci] == w[..j][..ci];
        CharAtPrefix(k, w, j, ci);
      }
    }
  }

  /** The twig over the subtree holding `w` is well formed and holds that
      subtree's pairs plus the new one; all its keys share `w`'s first `ci`
      bytes. */
  lemma TwigWellFormed<V>(key: Key, v: V, w: Key, other: Node<V>)
    requires key != w && WellFormed(other) && w in Contents(other)
    requires other.Branch? ==> other.index > CriticalIndex(key, w) && |other.slots.children| >= 2
    ensures var ci := CriticalIndex(key, w);
      var t := Twig(ci, key, v, CharAt(w, ci), other);
      && WellFormed(t)
      && Contents(t) == Contents(other)[key := v]
      && (forall k :: k in Contents(t) ==> |k| >= ci && k[..ci] == w[..ci])
  {
    var ci := CriticalIndex(key, w);
    var cc := CharAt(w, ci);
    var ck := CharAt(key, ci);
    CriticalCharsDiffer(key, w);
    var t := Twig(ci, key, v, cc, other);
    BelowCritical(other, w, ci);
    TwigContents(t, key, v, other, ck, cc);
    TwigChildren(t, key, v, other, ck, cc);
    assert forall k :: k in Contents(t) ==> |k| >= ci && k[..ci] == w[..ci];
    PrefixOfOne(Contents(t).Keys, w, ci);
  }

  /** Keys that all share the first `j` bytes of one key share them with
      each other. */
  lemma PrefixOfOne(keys: set<Key>, w: Key, j: nat)
    requires j <= |w|
    requires forall k :: k in keys ==> |k| >= j && k[..j] == w[..j]
    ensures SharePrefix(keys, j)
  {
  }

  /** Both children of the twig are well formed, and the one that is a
      branch decides past the twig's index on at least two children. */
  lemma TwigChildren<V>(t: Node<V>, key: Key, v: V, other: Node<V>, ck: Char, cc: Char)
    requires t.Branch? && Valid(t.slots) && t.slots.present == {ck, cc}
    requires Lookup(t.slots, ck) == Some(Leaf(key, v)) && Lookup(t.slots, cc) == Some(other)
    requires WellFormed(other)
    requires other.Branch? ==> other.index > t.index && |other.slots.children| >= 2
    ensures forall d: Char :: d in t.slots.present ==>
      && WellFormed(Lookup(t.slots, d).value)
      && (Lookup(t.slots, d).value.Branch? ==>
            Lookup(t.slots, d).value.index > t.index && |Lookup(t.slots, d).value.slots.children| >= 2)
  {
    forall d: Char | d in t.slots.present
      ensures WellFormed(Lookup(t.slots, d).value)
      ensures Lookup(t.slots, d).value.Branch? ==>
        Lookup(t.slots, d).value.index > t.index && |Lookup(t.slots, d).value.slots.children| >= 2
    {
      if d != ck {
        assert d == cc;
      }
    }
  }

  /** A routed twig holds the pairs of its subtree plus the new one. */
  lemma TwigContents<V>(t: Node<V>, key: Key, v: V, other: Node<V>, ck: Char, cc: Char)
    requires t.Branch? && Valid(t.slots) && t.slots.present == {ck, cc} && ck != cc
    requires CharAt(key, t.index) == ck
    requires Lookup(t.slots, ck) == Some(Leaf(key, v)) && Lookup(t.slots, cc) == Some(other)
    requires forall k :: k in Contents(other) ==> CharAt(k, t.index) == cc
    ensures RoutesAt(t)
    ensures Contents(t) == Contents(other)[key := v]
  {
    forall d: Char, k: Key | d in t.slots.present && k in Contents(Lookup(t.slots, d).value)
      ensures CharAt(k, t.index) == d
    {
      if d != ck {
        assert d == cc;
      }
    }
    var m := Contents(other)[key := v];
    forall k
      ensures k in Contents(t) <==> k in m
      ensures k in Contents(t) ==> Contents(t)[k] == m[k]
    {
      ContentsRoute(t, k);
    }
  }

  /** trie.go:62-87 once the nearest stored key `w` is known: compute the
      critical index of the two keys, descend along `w`'s bytes before it,
      and store there a twig holding the new leaf and the child found. */
  function Split<V>(root: Node<V>, key: Key, v: V, w: Key): (r: Result<Node<V>, Panic>)
    requires root.Branch? && Structured(root)
    ensures r.Ok? ==> r.value.Branch? && r.value.index == root.index && Structured(r.value)
    ensures r.Err? ==> r.error == NoChildAtCriticalIndex || r.error == SlotCollision
  {
    var ci := CriticalIndex(key, w);
    var cc := CharAt(w, ci);
    var path := w[..ci];
    var (_, _, child) := Descend(root, path);
    if child.None? then Err(NoChildAtCriticalIndex)
    else if CharAt(key, ci) == cc then Err(SlotCollision)
    else Ok(Graft(root, path, Twig(ci, key, v, cc, child.value)))
  }

  /** The descent along the bytes of a stored key `w` before its critical
      index with `key` ends above that index at a branch whose child for
      `w` holds `w`, provided `w` sits where `key`'s own descent ended:
      under the branch it reached when that branch decides past the
      critical index, or else under the child it reached. */
  lemma {:induction false} SplitDescent<V>(n: Node<V>, key: Key, w: Key)
    requires n.Branch? && WellFormed(n) && key != w
    requires n.index <= CriticalIndex(key, w)
    requires w in Contents(Descend(n, key).0)
    requires CriticalIndex(key, w) < Descend(n, key).0.index
      || (Descend(n, key).2.Some? && w in Contents(Descend(n, key).2.value))
    ensures var ci := CriticalIndex(key, w);
      var (b2, _, child2) := Descend(n, w[..ci]);
      b2.index < ci && child2.Some? && w in Contents(child2.value)
    decreases n
  {
    var ci := CriticalIndex(key, w);
    var path := w[..ci];
    SplitAbove(n, key, w);
    if Continues(n, path) {
      var ch := Lookup(n.slots, CharAt(key, n.index)).value;
      assert Continues(n, key);
      assert Descend(n, key) == Descend(ch, key);
      assert Descend(n, path) == Descend(ch, path);
      SplitDescent(ch, key, w);
    } else {
      DescendInside(n, key);
      ContentsRoute(n, w);
    }
  }

  /** Each branch SplitDescent passes decides before the critical index, on
      a character the two keys share. */
  lemma SplitAbove<V>(n: Node<V>, key: Key, w: Key)
    requires n.Branch? && WellFormed(n) && key != w
    requires n.index <= CriticalIndex(key, w)
    requires w in Contents(Descend(n, key).0)
    requires CriticalIndex(key, w) < Descend(n, key).0.index
      || (Descend(n, key).2.Some? && w in Contents(Descend(n, key).2.value))
    ensures n.index < CriticalIndex(key, w)
    ensures CharAt(w[..CriticalIndex(key, w)], n.index) == CharAt(key, n.index)
    ensures CharAt(w, n.index) == CharAt(key, n.index)
  {
    var ci := CriticalIndex(key, w);
    DescendInside(n, key);
    CriticalCharsDiffer(key, w);
    if !Continues(n, key) {
      assert Descend(n, key).0 == n;
    }
    assert n.index != ci;
    CharAtPrefix(key, w, ci, n.index);
    CharAtPrefix(w[..ci], w, ci, n.index);
  }

  /** Swapping a part of a map for that part with one more pair is adding
      the pair to the whole map. */
  lemma InsertCompose<V>(whole: map<Key, V>, part: map<Key, V>, key: Key, v: V)
    requires forall k :: k in part ==> k in whole && whole[k] == part[k]
    ensures (whole - part.Keys) + part[key := v] == whole[key := v]
  {
  }

  /** Under the conditions of SplitDescent the split insert succeeds, keeps
      the trie well formed with the same root index, and adds the new pair. */
  lemma SplitSound<V>(root: Node<V>, key: Key, v: V, w: Key)
    requires root.Branch? && WellFormed(root) && key != w
    requires root.index <= CriticalIndex(key, w)
    requires w in Contents(Descend(root, key).0)
    requires CriticalIndex(key, w) < Descend(root, key).0.index
      || (Descend(root, key).2.Some? && w in Contents(Descend(root, key).2.value))
    ensures Split(root, key, v, w).Ok?
    ensures WellFormed(Split(root, key, v, w).value)
    ensures Contents(Split(root, key, v, w).value) == Contents(root)[key := v]
  {
    var ci := CriticalIndex(key, w);
    var cc := CharAt(w, ci);
    var path := w[..ci];
    SplitChild(root, key, w);
    var (b2, ch2, child2) := Descend(root, path);
    CriticalCharsDiffer(key, w);
    TwigWellFormed(key, v, w, child2.value);
    var twig := Twig(ci, key, v, cc, child2.value);
    TwigFits(root, w, ci, twig);
    assert Split(root, key, v, w) == Ok(Graft(root, path, twig));
    GraftSound(root, path, twig);
    SlotKeysPresent(b2, ch2);
    InsertCompose(Contents(root), Contents(child2.value), key, v);
  }

  /** The twig's keys fit the descent along `w`'s prefix: they share `w`'s
      bytes before the critical index. */
  lemma TwigFits<V>(root: Node<V>, w: Key, ci: nat, twig: Node<V>)
    requires root.Branch? && WellFormed(root) && ci <= |w|
    requires w in Contents(Descend(root, w[..ci]).0)
    requires Descend(root, w[..ci]).0.index < ci
    requires forall k :: k in Contents(twig) ==> |k| >= ci && k[..ci] == w[..ci]
    ensures Fits(root, w[..ci], Contents(twig).Keys)
  {
    var path := w[..ci];
    var b2 := Descend(root, path).0;
    forall k | k in Contents(twig).Keys
      ensures CharAt(k, b2.index) == CharAt(path, b2.index)
    {
      CharAtPrefix(k, w, ci, b2.index);
      CharAtPrefix(path, w, ci, b2.index);
    }
    FitsByPrefix(root, path, Contents(twig).Keys, w, ci);
  }

  /** The child the descent along `w`'s prefix finds: it holds `w`, is well
      formed, decides past the critical index with at least two children
      when it is a branch, and holds only pairs of the trie. */
  lemma SplitChild<V>(root: Node<V>, key: Key, w: Key)
    requires root.Branch? && WellFormed(root) && key != w
    requires root.index <= CriticalIndex(key, w)
    requires w in Contents(Descend(root, key).0)
    requires CriticalIndex(key, w) < Descend(root, key).0.index
      || (Descend(root, key).2.Some? && w in Contents(Descend(root, key).2.value))
    ensures var ci := CriticalIndex(key, w);
      var (b2, ch2, child2) := Descend(root, w[..ci]);
      && b2.index < ci
      && child2.Some? && w in Contents(child2.value) && w in Contents(b2)
      && WellFormed(child2.value)
      && (child2.value.Branch? ==> child2.value.index > ci && |child2.value.slots.children| >= 2)
      && (forall k :: k in Contents(child2.value) ==> k in Contents(root) && Contents(root)[k] == Contents(child2.value)[k])
  {
    var ci := CriticalIndex(key, w);
    var path := w[..ci];
    SplitDescent(root, key, w);
    var (b2, ch2, child2) := Descend(root, path);
    DescendInside(root, path);
    assert child2.value.Branch? ==> |child2.value.slots.children| >= 2;
  }
}
