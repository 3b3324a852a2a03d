/** Trie nodes (node.go): a Branch deciding on one key position with a sparse
    array of children, or a Leaf holding a complete key and its value. An
    absent child (Go's nil) is `None` of an `Option<Node<V>>`. */
module Nodes {
  import opened Chars
  import opened Wrappers
  import opened Sparse

  /** A sum type, so a node is never both a Branch and a Leaf, as node.go:20
      asks of the Go struct by convention. */
  datatype Node<V> =
    | Branch(index: nat, slots: Slots<Node<V>>)
    | Leaf(key: Key, value: V)

  /** Why an operation of trie.go panics. */
  datatype Panic =
      /** The root node has no Branch (it was contracted into a leaf), so
          node.go Descend dereferences a nil Branch (node.go:87-88). */
    | NilBranch
      /** The leftmost walk reached a branch without children and indexed
          children[0] (trie.go:59). */
    | EmptyBranch
      /** The descent to the critical index found an empty slot
          (trie.go:74-76). */
    | NoChildAtCriticalIndex
      /** The new leaf and the existing child would share one slot of the
          new branch. Go does not check this (node.go Add sets a bit that
          is already set); the model refuses it instead. It cannot happen
          from a well-formed trie. */
    | SlotCollision

  /** A fresh branch deciding on position `index`, with no children
      (node.go NewBranch). */
  function NewBranch<V>(index: nat): (n: Node<V>)
    ensures n.Branch? && n.index == index && Valid(n.slots)
    ensures forall c: Char :: Lookup(n.slots, c).None?
  {
    Branch(index, Empty())
  }

  /** node.go IsLeaf: a present node that is a leaf; nil is not one. */
  predicate IsLeaf<V>(n: Option<Node<V>>)
  {
    n.Some? && n.value.Leaf?
  }

  /** node.go IsBranch: a present node that is a branch; nil is not one. */
  predicate IsBranch<V>(n: Option<Node<V>>)
  {
    n.Some? && n.value.Branch?
  }

  /** node.go Children: a branch's children in slot order, none for a leaf or
      for nil. */
  function Children<V>(n: Option<Node<V>>): (r: seq<Node<V>>)
    ensures IsBranch(n) ==> r == n.value.slots.children
    ensures !IsBranch(n) ==> r == []
  {
    if IsBranch(n) then n.value.slots.children else []
  }

  /** The children of a branch come out in increasing character order: the
      i-th child is the one stored for the i-th smallest present character,
      and there is one child per present character. */
  lemma ChildrenInOrder<V>(n: Option<Node<V>>)
    requires IsBranch(n) ==> Valid(n.value.slots)
    ensures IsBranch(n) ==> |Children(n)| == |n.value.slots.present|
    ensures IsBranch(n) ==> forall i :: 0 <= i < |Children(n)| ==>
      Lookup(n.value.slots, ChildChars(n.value.slots)[i]) == Some(Children(n)[i])
    ensures !IsBranch(n) ==> Children(n) == []
  {
  }

  /** node.go lookup on a node: a leaf (whose Branch field is nil) has no
      child for any character. */
  function LookupChild<V>(n: Node<V>, c: Char): (r: Option<Node<V>>)
    requires n.Branch? ==> Valid(n.slots)
    ensures n.Leaf? ==> r.None?
    ensures n.Branch? ==> (r.Some? <==> c in n.slots.present)
    ensures n.Branch? && r.Some? ==>
      ChildIndex(n.slots, c) < |n.slots.children| && r.value == n.slots.children[ChildIndex(n.slots, c)]
  {
    if n.Leaf? then None else Lookup(n.slots, c)
  }

  /** The key/value pairs stored in the leaves of a subtree: the abstract map
      the trie implements. */
  ghost function Contents<V>(n: Node<V>): map<Key, V>
    decreases n, 1
  {
    match n
    case Leaf(k, v) => map[k := v]
    case Branch(_, _) => ContentsFrom(n, 0)
  }

  /** The pairs stored under the slots of characters `c` and above. */
  ghost function ContentsFrom<V>(n: Node<V>, c: nat): map<Key, V>
    requires n.Branch?
    decreases n, 0, BranchingFactor - c
  {
    if c >= BranchingFactor then map[]
    else
      var rest := ContentsFrom(n, c + 1);
      var k := Rank(n.slots.present, c);
      if c in n.slots.present && k < |n.slots.children| then
        Contents(n.slots.children[k]) + rest
      else rest
  }

  /** Every key stored under the slot for `c` shows `c` at the branch's
      critical index: the tree invariant stated at node.go:26-29. */
  ghost predicate RoutesAt<V>(n: Node<V>)
    requires n.Branch? && Valid(n.slots)
  {
    forall c: Char, k: Key :: c in n.slots.present && k in Contents(Lookup(n.slots, c).value) ==>
      CharAt(k, n.index) == c
  }

  /** All keys of a set are at least `j` long and share their first `j` bytes. */
  ghost predicate SharePrefix(keys: set<Key>, j: nat)
  {
    && (forall a :: a in keys ==> |a| >= j)
    && (forall a, b :: a in keys && b in keys ==> a[..j] == b[..j])
  }

  /** Every sparse array of a subtree is well formed. */
  ghost predicate Structured<V>(n: Node<V>)
    decreases n
  {
    match n
    case Leaf(_, _) => true
    case Branch(_, s) =>
      && Valid(s)
      && (forall c: Char :: c in s.present ==> Structured(Lookup(s, c).value))
  }

  /** The node.go:26-29 invariant at every branch of a subtree, with
      well-formed sparse arrays. */
  ghost predicate Routed<V>(n: Node<V>)
    decreases n
  {
    match n
    case Leaf(_, _) => true
    case Branch(_, s) =>
      && Structured(n)
      && (forall c: Char :: c in s.present ==> Routed(Lookup(s, c).value))
      && RoutesAt(n)
  }

  /** The full invariant of a subtree: sparse arrays well formed, keys routed
      by their character at each critical index, critical indices strictly
      increasing downwards, every branch below the top holding at least two
      children, and all keys under a branch sharing the prefix before its
      critical index. */
  ghost predicate WellFormed<V>(n: Node<V>)
    decreases n
  {
    match n
    case Leaf(_, _) => true
    case Branch(j, s) =>
      && Structured(n)
      && (forall c: Char :: c in s.present ==> WellFormed(Lookup(s, c).value))
      && RoutesAt(n)
      && (forall c: Char :: c in s.present && Lookup(s, c).value.Branch? ==>
            Lookup(s, c).value.index > j && |Lookup(s, c).value.slots.children| >= 2)
      && SharePrefix(Contents(n).Keys, j)
  }

  lemma {:induction false} ContentsFromRoute<V>(n: Node<V>, c0: nat, k: Key)
    requires n.Branch? && Valid(n.slots) && RoutesAt(n)
    requires c0 <= BranchingFactor
    ensures var d := CharAt(k, n.index);
      k in ContentsFrom(n, c0) <==> c0 <= d && d in n.slots.present && k in Contents(Lookup(n.slots, d).value)
    ensures var d := CharAt(k, n.index);
      k in ContentsFrom(n, c0) ==> ContentsFrom(n, c0)[k] == Contents(Lookup(n.slots, d).value)[k]
    decreases BranchingFactor - c0
  {
    if c0 < BranchingFactor {
      ContentsFromRoute(n, c0 + 1, k);
      var rest := ContentsFrom(n, c0 + 1);
      if c0 in n.slots.present {
        RankStrict(n.slots.present, c0, BranchingFactor);
        RankAll(n.slots.present);
        var ch := n.slots.children[Rank(n.slots.present, c0)];
        assert Lookup(n.slots, c0 as Char).value == ch;
        assert ContentsFrom(n, c0) == Contents(ch) + rest;
      } else {
        assert ContentsFrom(n, c0) == rest;
      }
    }
  }

  /** A key is stored under a routed branch exactly when it is stored under
      the child for the character it shows at the critical index, with the
      same value. */
  lemma ContentsRoute<V>(n: Node<V>, k: Key)
    requires n.Branch? && Valid(n.slots) && RoutesAt(n)
    ensures var d := CharAt(k, n.index);
      k in Contents(n) <==> d in n.slots.present && k in Contents(Lookup(n.slots, d).value)
    ensures var d := CharAt(k, n.index);
      k in Contents(n) ==> Contents(n)[k] == Contents(Lookup(n.slots, d).value)[k]
  {
    ContentsFromRoute(n, 0, k);
  }

  /** The stored pairs of a routed branch are the disjoint union of its
      children's. */
  lemma ContentsOfChild<V>(n: Node<V>, c: Char)
    requires n.Branch? && Valid(n.slots) && RoutesAt(n) && c in n.slots.present
    ensures forall k :: k in Contents(Lookup(n.slots, c).value) ==>
      k in Contents(n) && Contents(n)[k] == Contents(Lookup(n.slots, c).value)[k]
  {
    forall k | k in Contents(Lookup(n.slots, c).value)
      ensures k in Contents(n) && Contents(n)[k] == Contents(Lookup(n.slots, c).value)[k]
    {
      ContentsRoute(n, k);
    }
  }

  /** The full invariant implies the routing invariant of node.go:26-29. */
  lemma {:induction false} WellFormedIsRouted<V>(n: Node<V>)
    requires WellFormed(n)
    ensures Routed(n)
    decreases n
  {
    if n.Branch? {
      forall c: Char | c in n.slots.present
        ensures Routed(Lookup(n.slots, c).value)
      {
        WellFormedIsRouted(Lookup(n.slots, c).value);
      }
    }
  }

  /** Whether node.go Descend moves on from branch `n`: the child for the
      key's character is a branch deciding no further than the key's end. */
  predicate Continues<V>(n: Node<V>, key: Key)
    requires n.Branch? && Valid(n.slots)
  {
    var child := Lookup(n.slots, CharAt(key, n.index));
    IsBranch(child) && child.value.index <= |key|
  }

  /** node.go Descend: the deepest edge branch --char--> child reached by
      following the key's character at each critical index. */
  function Descend<V>(n: Node<V>, key: Key): (r: (Node<V>, Char, Option<Node<V>>))
    requires n.Branch? && Structured(n)
    ensures r.0.Branch? && Structured(r.0)
    ensures r.1 == CharAt(key, r.0.index)
    ensures r.2 == Lookup(r.0.slots, r.1)
    ensures r.2.Some? ==> Structured(r.2.value)
    ensures IsBranch(r.2) ==> r.2.value.index > |key|
    ensures r.0 == n || r.0.index <= |key|
    decreases n
  {
    var c := CharAt(key, n.index);
    var child := Lookup(n.slots, c);
    if Continues(n, key) then Descend(child.value, key) else (n, c, child)
  }

  /** Descend stays inside the subtree: the branch it returns is well formed,
      holds only pairs of the start node, and, when Descend moved on from the
      start node, only keys that show the searched key's character there; the
      child it returns holds only keys routed like the searched key. */
  lemma {:induction false} DescendInside<V>(n: Node<V>, key: Key)
    requires n.Branch? && WellFormed(n)
    ensures var (b, c, child) := Descend(n, key);
      && WellFormed(b)
      && b.index >= n.index
      && (Continues(n, key) ==> b.index > n.index && |b.slots.children| >= 2)
      && (child.Some? ==> WellFormed(child.value))
      && (forall k :: k in Contents(b) ==> k in Contents(n) && Contents(n)[k] == Contents(b)[k])
      && (Continues(n, key) ==> forall k :: k in Contents(b) ==> CharAt(k, n.index) == CharAt(key, n.index))
      && (child.Some? ==> forall k :: k in Contents(child.value) ==>
            k in Contents(b) && Contents(b)[k] == Contents(child.value)[k] && CharAt(k, b.index) == c)
    decreases n
  {
    var c := CharAt(key, n.index);
    if Continues(n, key) {
      var child := Lookup(n.slots, c).value;
      DescendInside(child, key);
      ContentsOfChild(n, c);
    } else {
      if c in n.slots.present {
        ContentsOfChild(n, c);
      }
    }
  }

  /** Descend finds a key exactly when the key is stored: the child it
      returns is then the key's leaf. */
  lemma {:induction false} DescendFinds<V>(n: Node<V>, key: Key)
    requires n.Branch? && WellFormed(n)
    ensures var (b, c, child) := Descend(n, key);
      key in Contents(n) <==> IsLeaf(child) && child.value.key == key
    ensures var (b, c, child) := Descend(n, key);
      key in Contents(n) ==> Contents(n)[key] == child.value.value
    decreases n
  {
    var c := CharAt(key, n.index);
    ContentsRoute(n, key);
    if Continues(n, key) {
      var child := Lookup(n.slots, c).value;
      assert Descend(n, key) == Descend(child, key);
      DescendFinds(child, key);
    } else {
      assert Descend(n, key) == (n, c, Lookup(n.slots, c));
      if c in n.slots.present {
        var child := Lookup(n.slots, c).value;
        if child.Branch? {
          assert key !in Contents(child);
        }
      }
    }
  }
}
