/** The sparse child array inside a Branch (node.go): a presence bitmap over
    the 257 characters and a dense slice holding one child per present
    character, the child for `c` sitting at position rank(c). */
module Sparse {
  import opened Chars
  import opened Wrappers

  /** Presence set plus dense children; the bitmap of go-bitset is a set of
      characters here. */
  datatype Slots<T> = Slots(present: set<nat>, children: seq<T>)

  /** The number of present characters below `c`, counted one position at a
      time as go-bitset's CountRange(0, c) does. */
  function Rank(present: set<nat>, c: nat): nat
  {
    if c == 0 then 0 else Rank(present, c - 1) + (if c - 1 in present then 1 else 0)
  }

  /** The present characters strictly below `c`. */
  ghost function Below(present: set<nat>, c: nat): set<nat>
  {
    set x | x in present && x < c
  }

  lemma {:induction false} RankIsCount(present: set<nat>, c: nat)
    ensures Rank(present, c) == |Below(present, c)|
  {
    if c > 0 {
      RankIsCount(present, c - 1);
      if c - 1 in present {
        assert Below(present, c) == Below(present, c - 1) + {c - 1};
      } else {
        assert Below(present, c) == Below(present, c - 1);
      }
    } else {
      assert Below(present, c) == {};
    }
  }

  lemma {:induction false} RankMono(present: set<nat>, a: nat, b: nat)
    requires a <= b
    ensures Rank(present, a) <= Rank(present, b)
  {
    if a < b {
      RankMono(present, a, b - 1);
    }
  }

  /** A present character is counted by the rank of every higher character. */
  lemma RankStrict(present: set<nat>, a: nat, b: nat)
    requires a < b && a in present
    ensures Rank(present, a) < Rank(present, b)
  {
    RankMono(present, a + 1, b);
  }

  /** Adding `c` leaves the rank of `c` and every lower character unchanged and
      raises the rank of every higher one by one. */
  lemma {:induction false} RankInsert(present: set<nat>, c: nat, d: nat)
    requires c !in present
    ensures Rank(present + {c}, d) == Rank(present, d) + (if d > c then 1 else 0)
  {
    if d > 0 {
      RankInsert(present, c, d - 1);
    }
  }

  /** Removing `c` is the inverse of adding it. */
  lemma {:induction false} RankDelete(present: set<nat>, c: nat, d: nat)
    requires c in present
    ensures Rank(present - {c}, d) == Rank(present, d) - (if d > c then 1 else 0)
  {
    if d > 0 {
      RankDelete(present, c, d - 1);
      if d > c {
        RankStrict(present, c, d);
      }
    }
  }

  /** A well-formed sparse array: only characters are present and there is
      exactly one child per present character. */
  ghost predicate Valid<T>(s: Slots<T>)
  {
    && (forall c :: c in s.present ==> c < BranchingFactor)
    && |s.children| == |s.present|
  }

  /** Past the last character every present character is counted: the rank
      of the branching factor is the number of children of a well-formed
      array. */
  lemma RankAll(present: set<nat>)
    requires forall c :: c in present ==> c < BranchingFactor
    ensures Rank(present, BranchingFactor) == |present|
  {
    RankIsCount(present, BranchingFactor);
    assert Below(present, BranchingFactor) == present;
  }

  /** The array of a fresh branch (node.go NewBranch): nothing present. */
  function Empty<T>(): (s: Slots<T>)
    ensures Valid(s)
    ensures s.present == {} && |s.children| == 0
    ensures forall c: Char :: Lookup(s, c) == None && ChildIndex(s, c) == 0
  {
    Slots({}, [])
  }

  /** The position of `c`'s slot (node.go childIndex): the number of present
      characters strictly below `c`. */
  function ChildIndex<T>(s: Slots<T>, c: Char): (r: nat)
    ensures r == |set x | x in s.present && x < c|
  {
    RankIsCount(s.present, c);
    Rank(s.present, c)
  }

  /** The child stored for `c`, if `c` is present (node.go lookup). */
  function Lookup<T>(s: Slots<T>, c: Char): (r: Option<T>)
    requires Valid(s)
    ensures r.Some? <==> c in s.present
    ensures r.Some? ==> ChildIndex(s, c) < |s.children| && r.value == s.children[ChildIndex(s, c)]
  {
    if c in s.present then
      RankStrict(s.present, c, BranchingFactor);
      RankAll(s.present);
      Some(s.children[Rank(s.present, c)])
    else None
  }

  /** Inserts `x` as the child for an absent `c` (node.go Add). A nil node
      cannot be passed: `x` is a value, never an absent child. */
  function Add<T>(s: Slots<T>, c: Char, x: T): (r: Slots<T>)
    requires Valid(s) && c !in s.present
    ensures Valid(r)
    ensures r.present == s.present + {c}
    ensures |r.children| == |s.children| + 1
    ensures ChildIndex(s, c) < |r.children| && r.children[ChildIndex(s, c)] == x
    ensures Lookup(r, c) == Some(x)
    ensures forall d: Char :: d != c ==> Lookup(r, d) == Lookup(s, d)
  {
    var k := Rank(s.present, c);
    RankMono(s.present, c, BranchingFactor);
    RankAll(s.present);
    var r := Slots(s.present + {c}, s.children[..k] + [x] + s.children[k..]);
    RankInsert(s.present, c, c);
    forall d: Char | d != c
      ensures Lookup(r, d) == Lookup(s, d)
    {
      RankInsert(s.present, c, d);
      if d in s.present {
        if d < c {
          RankStrict(s.present, d, c);
        } else {
          RankMono(s.present, c, d);
        }
      }
    }
    r
  }

  /** Drops the child for a present `c`, closing the gap (node.go Remove). */
  function Remove<T>(s: Slots<T>, c: Char): (r: Slots<T>)
    requires Valid(s) && c in s.present
    ensures Valid(r)
    ensures r.present == s.present - {c}
    ensures |r.children| == |s.children| - 1
    ensures Lookup(r, c) == None
    ensures forall d: Char :: d != c ==> Lookup(r, d) == Lookup(s, d)
  {
    var k := Rank(s.present, c);
    RankStrict(s.present, c, BranchingFactor);
    RankAll(s.present);
    var r := Slots(s.present - {c}, s.children[..k] + s.children[k + 1..]);
    forall d: Char | d != c
      ensures Lookup(r, d) == Lookup(s, d)
    {
      RankDelete(s.present, c, d);
      if d in s.present {
        if d < c {
          RankStrict(s.present, d, c);
        } else {
          RankStrict(s.present, c, d);
          RankStrict(s.present, d, BranchingFactor);
        }
      }
    }
    r
  }

  /** The rank of `c` depends only on which characters below `c` are present. */
  lemma {:induction false} RankLocal(p: set<nat>, q: set<nat>, c: nat)
    requires forall x :: x < c ==> (x in p <==> x in q)
    ensures Rank(p, c) == Rank(q, c)
  {
    if c > 0 {
      RankLocal(p, q, c - 1);
    }
  }

  /** childIndex(c) is unaffected by the presence of `c` itself or of any
      higher character. */
  lemma ChildIndexIgnoresHigher<T>(s: Slots<T>, c: Char, d: nat)
    requires c <= d
    ensures ChildIndex(s.(present := s.present + {d}), c) == ChildIndex(s, c)
    ensures ChildIndex(s.(present := s.present - {d}), c) == ChildIndex(s, c)
  {
    RankLocal(s.present + {d}, s.present, c);
    RankLocal(s.present - {d}, s.present, c);
  }

  /** The present characters from `c` upwards, in increasing order. */
  function CharsFrom(present: set<nat>, c: nat): seq<Char>
    decreases BranchingFactor - c
  {
    if c >= BranchingFactor then []
    else (if c in present then [c as Char] else []) + CharsFrom(present, c + 1)
  }

  lemma {:induction false} CharsFromFacts(present: set<nat>, c: nat)
    requires c <= BranchingFactor
    ensures |CharsFrom(present, c)| == Rank(present, BranchingFactor) - Rank(present, c)
    ensures forall i :: 0 <= i < |CharsFrom(present, c)| ==>
      var x := CharsFrom(present, c)[i];
      c <= x && x in present && Rank(present, x) == Rank(present, c) + i
    ensures forall i, j :: 0 <= i < j < |CharsFrom(present, c)| ==>
      CharsFrom(present, c)[i] < CharsFrom(present, c)[j]
    decreases BranchingFactor - c
  {
    RankMono(present, c, BranchingFactor);
    if c < BranchingFactor {
      CharsFromFacts(present, c + 1);
    }
  }

  /** Every present character from `c` upwards is listed. */
  lemma {:induction false} CharsFromComplete(present: set<nat>, c: nat, x: nat)
    requires x in present && c <= x < BranchingFactor
    ensures x in CharsFrom(present, c)
    decreases BranchingFactor - c
  {
    if c < x {
      CharsFromComplete(present, c + 1, x);
    }
  }

  /** The present characters in slot order (node.go childChars): the i-th
      child is the child of the i-th smallest present character, so children
      are kept in strictly increasing character order. */
  function ChildChars<T>(s: Slots<T>): (r: seq<Char>)
    requires Valid(s)
    ensures |r| == |s.children|
    ensures forall i, j :: 0 <= i < j < |r| ==> r[i] < r[j]
    ensures forall i :: 0 <= i < |r| ==> r[i] in s.present && Lookup(s, r[i]) == Some(s.children[i])
  {
    CharsFromFacts(s.present, 0);
    SlotOrder(s, CharsFrom(s.present, 0));
    CharsFrom(s.present, 0)
  }

  /** The i-th present character in increasing order owns the i-th child. */
  lemma SlotOrder<T>(s: Slots<T>, r: seq<Char>)
    requires Valid(s) && r == CharsFrom(s.present, 0)
    ensures |r| == |s.children|
    ensures forall i :: 0 <= i < |r| ==> r[i] in s.present && Lookup(s, r[i]) == Some(s.children[i])
  {
    CharsFromFacts(s.present, 0);
    RankAll(s.present);
    forall i | 0 <= i < |r|
      ensures r[i] in s.present && Lookup(s, r[i]) == Some(s.children[i])
    {
      assert Rank(s.present, r[i]) == i;
      assert Lookup(s, r[i]) == Some(s.children[Rank(s.present, r[i])]);
    }
  }

  /** Stores `x` as the child for `c`, replacing any child already there: an
      Add for an absent character, a Remove then an Add for a present one. */
  function Put<T>(s: Slots<T>, c: Char, x: T): (r: Slots<T>)
    requires Valid(s)
    ensures Valid(r)
    ensures r.present == s.present + {c}
    ensures |r.children| == |s.children| + (if c in s.present then 0 else 1)
    ensures Lookup(r, c) == Some(x)
    ensures forall d: Char :: d != c ==> Lookup(r, d) == Lookup(s, d)
  {
    if c in s.present then Add(Remove(s, c), c, x) else Add(s, c, x)
  }

  /** Storing a child for a character above every present one appends it. */
  lemma PutAbove<T>(s: Slots<T>, c: Char, x: T)
    requires Valid(s) && forall d :: d in s.present ==> d < c
    ensures Put(s, c, x) == Slots(s.present + {c}, s.children + [x])
  {
    assert c !in s.present;
    RankIsCount(s.present, c);
    assert Below(s.present, c) == s.present;
    assert s.children[..|s.children|] == s.children;
  }

  /** An array with one child has exactly one present character. */
  lemma OnlyChild<T>(s: Slots<T>)
    requires Valid(s) && |s.children| == 1
    ensures s.present == {ChildChars(s)[0]}
  {
    var r := ChildChars(s);
    forall x | x in s.present
      ensures x == r[0]
    {
      CharsFromComplete(s.present, 0, x);
    }
  }

  /** A fresh array holding `x` for `a` and `y` for `b`. */
  function Pair<T>(a: Char, x: T, b: Char, y: T): (s: Slots<T>)
    requires a != b
    ensures Valid(s)
    ensures s.present == {a, b} && |s.children| == 2
    ensures Lookup(s, b) == Some(y)
    ensures Lookup(s, a) == Some(x)
  {
    var p := {a, b};
    RankIsCount(p, a);
    RankIsCount(p, b);
    if a < b then
      assert Below(p, a) == {} && Below(p, b) == {a};
      Slots(p, [x, y])
    else
      assert Below(p, b) == {} && Below(p, a) == {b};
      Slots(p, [y, x])
  }
}
