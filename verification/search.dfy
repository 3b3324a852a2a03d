/** The traversals of search.go: an iterative depth-first search that visits
    every node twice, and a breadth-first search over a FIFO queue. A
    traversal is the sequence of records handed to the callback; the
    callback is a function that may return an error, and the first error
    ends the traversal. */
module Search {
  import opened Wrappers
  import opened Nodes

  /** search.go Visit: which of the two depth-first visits a record is. */
  datatype Visit = Preorder | Postorder

  /** search.go SearchNode: a node with its depth below the start node, the
      critical index of its parent (0 for the start node) and the visit. */
  datatype SearchNode<V> = SearchNode(node: Node<V>, height: nat, parentIndex: nat, order: Visit)

  /** The record a traversal starts from: Go's zero values for height,
      parent index and visit. */
  function Start<V>(n: Node<V>): SearchNode<V>
  {
    SearchNode(n, 0, 0, Preorder)
  }

  /** The critical index of a node; a leaf has no children to hand it to. */
  function IndexOf<V>(n: Node<V>): (r: nat)
    ensures n.Branch? ==> r == n.index
  {
    if n.Branch? then n.index else 0
  }

  /** The records search.go push appends to the queue or stack for `sn`:
      one per child of `sn`'s node, in slot order, one level deeper than `sn`
      and carrying `sn`'s critical index as the parent index. A leaf has
      none. */
  function Kids<V>(sn: SearchNode<V>): (r: seq<SearchNode<V>>)
    ensures |r| == |Children(Some(sn.node))|
    ensures forall i :: 0 <= i < |r| ==>
      r[i] == SearchNode(Children(Some(sn.node))[i], sn.height + 1, IndexOf(sn.node), Preorder)
    ensures sn.node.Leaf? ==> r == []
  {
    Records(Children(Some(sn.node)), sn.height + 1, IndexOf(sn.node))
  }

  /** Preorder records of the nodes `ks`, in order, at height `h` under a
      parent deciding on `p`. */
  function Records<V>(ks: seq<Node<V>>, h: nat, p: nat): (r: seq<SearchNode<V>>)
    ensures |r| == |ks|
    ensures forall i :: 0 <= i < |r| ==> r[i] == SearchNode(ks[i], h, p, Preorder)
  {
    if |ks| == 0 then [] else [SearchNode(ks[0], h, p, Preorder)] + Records(ks[1..], h, p)
  }

  /** Every node of the subtree at `n`, each as the record the traversals
      give it: `n` first, then the subtrees of its children, last slot first. */
  ghost function Subtree<V>(n: Node<V>, h: nat, p: nat): seq<SearchNode<V>>
    decreases n, 1
  {
    [SearchNode(n, h, p, Preorder)] + SubtreesBelow(n, |Children(Some(n))|, h + 1)
  }

  /** The subtrees of the first `k` children of `n`, child k-1 first. */
  ghost function SubtreesBelow<V>(n: Node<V>, k: nat, h: nat): seq<SearchNode<V>>
    requires k <= |Children(Some(n))|
    decreases n, 0, k
  {
    if k == 0 then [] else Subtree(n.slots.children[k - 1], h, n.index) + SubtreesBelow(n, k - 1, h)
  }

  /** The depth-first visits from `n`: its preorder record, the visits of its
      children's subtrees in descending slot order (the stack pops the last
      pushed child first), its postorder record. */
  ghost function Dfs<V>(n: Node<V>, h: nat, p: nat): seq<SearchNode<V>>
    decreases n, 1
  {
    [SearchNode(n, h, p, Preorder)] + DfsBelow(n, |Children(Some(n))|, h + 1) + [SearchNode(n, h, p, Postorder)]
  }

  /** The depth-first visits of the first `k` children of `n`, child k-1 first. */
  ghost function DfsBelow<V>(n: Node<V>, k: nat, h: nat): seq<SearchNode<V>>
    requires k <= |Children(Some(n))|
    decreases n, 0, k
  {
    if k == 0 then [] else Dfs(n.slots.children[k - 1], h, n.index) + DfsBelow(n, k - 1, h)
  }

  /** The records of `rs` that `keep` accepts, in order. */
  function Filter<V>(rs: seq<SearchNode<V>>, keep: SearchNode<V> -> bool): (r: seq<SearchNode<V>>)
    ensures |r| <= |rs|
  {
    if |rs| == 0 then [] else (if keep(rs[0]) then [rs[0]] else []) + Filter(rs[1..], keep)
  }

  lemma {:induction false} FilterAppend<V>(a: seq<SearchNode<V>>, b: seq<SearchNode<V>>, keep: SearchNode<V> -> bool)
    ensures Filter(a + b, keep) == Filter(a, keep) + Filter(b, keep)
  {
    if |a| > 0 {
      assert (a + b)[1..] == a[1..] + b;
      FilterAppend(a[1..], b, keep);
    } else {
      assert a + b == b;
    }
  }

  predicate IsPre<V>(r: SearchNode<V>)
  {
    r.order == Preorder
  }

  predicate IsPost<V>(r: SearchNode<V>)
  {
    r.order == Postorder
  }

  function HeightIs<V>(d: nat): SearchNode<V> -> bool
  {
    (r: SearchNode<V>) => r.height == d
  }

  /** The records of `rs`, relabelled as preorder visits. */
  function AsPre<V>(rs: seq<SearchNode<V>>): (r: seq<SearchNode<V>>)
    ensures |r| == |rs|
  {
    if |rs| == 0 then [] else [rs[0].(order := Preorder)] + AsPre(rs[1..])
  }

  lemma {:induction false} AsPreAppend<V>(a: seq<SearchNode<V>>, b: seq<SearchNode<V>>)
    ensures AsPre(a + b) == AsPre(a) + AsPre(b)
  {
    if |a| > 0 {
      assert (a + b)[1..] == a[1..] + b;
      AsPreAppend(a[1..], b);
    } else {
      assert a + b == b;
    }
  }

  lemma FilterOne<V>(x: SearchNode<V>, keep: SearchNode<V> -> bool)
    ensures Filter([x], keep) == if keep(x) then [x] else []
  {
    assert [x][1..] == [];
  }

  /** The depth-first visits from `n` are bracketed by its own two visits:
      its preorder record first, its postorder record last, and everything
      between deeper than `n`. A leaf's preorder visit is immediately
      followed by its postorder visit. */
  lemma {:induction false} DfsBrackets<V>(n: Node<V>, h: nat, p: nat)
    ensures var d := Dfs(n, h, p);
      && d[0] == SearchNode(n, h, p, Preorder)
      && d[|d| - 1] == SearchNode(n, h, p, Postorder)
      && (forall i :: 0 < i < |d| - 1 ==> d[i].height > h)
      && (n.Leaf? ==> d == [SearchNode(n, h, p, Preorder), SearchNode(n, h, p, Postorder)])
    decreases n, 1
  {
    DfsBelowHeights(n, |Children(Some(n))|, h + 1);
  }

  lemma {:induction false} DfsBelowHeights<V>(n: Node<V>, k: nat, h: nat)
    requires k <= |Children(Some(n))|
    ensures forall i :: 0 <= i < |DfsBelow(n, k, h)| ==> DfsBelow(n, k, h)[i].height >= h
    decreases n, 0, k
  {
    if k > 0 {
      DfsBrackets(n.slots.children[k - 1], h, n.index);
      DfsBelowHeights(n, k - 1, h);
    }
  }

  /** The preorder visits of the depth-first search from `n` list every node
      of its subtree exactly once, and there are twice as many visits as
      nodes. */
  lemma {:induction false} DfsPreorder<V>(n: Node<V>, h: nat, p: nat)
    ensures Filter(Dfs(n, h, p), IsPre) == Subtree(n, h, p)
    ensures |Dfs(n, h, p)| == 2 * |Subtree(n, h, p)|
    decreases n, 1
  {
    var pre := SearchNode(n, h, p, Preorder);
    var post := SearchNode(n, h, p, Postorder);
    var below := DfsBelow(n, |Children(Some(n))|, h + 1);
    DfsBelowPreorder(n, |Children(Some(n))|, h + 1);
    FilterAppend([pre] + below, [post], IsPre);
    FilterAppend([pre], below, IsPre);
    FilterOne(pre, IsPre);
    FilterOne(post, IsPre);
  }

  lemma {:induction false} DfsBelowPreorder<V>(n: Node<V>, k: nat, h: nat)
    requires k <= |Children(Some(n))|
    ensures Filter(DfsBelow(n, k, h), IsPre) == SubtreesBelow(n, k, h)
    ensures |DfsBelow(n, k, h)| == 2 * |SubtreesBelow(n, k, h)|
    decreases n, 0, k
  {
    if k > 0 {
      var c := n.slots.children[k - 1];
      var a := Dfs(c, h, n.index);
      var b := DfsBelow(n, k - 1, h);
      var sa := Subtree(c, h, n.index);
      var sb := SubtreesBelow(n, k - 1, h);
      assert Filter(a, IsPre) == sa && |a| == 2 * |sa| by { DfsPreorder(c, h, n.index); }
      assert Filter(b, IsPre) == sb && |b| == 2 * |sb| by { DfsBelowPreorder(n, k - 1, h); }
      FilterAppend(a, b, IsPre);
    }
  }

  lemma {:induction false} FilterNone<V>(rs: seq<SearchNode<V>>, keep: SearchNode<V> -> bool)
    requires forall i :: 0 <= i < |rs| ==> !keep(rs[i])
    ensures Filter(rs, keep) == []
  {
    if |rs| > 0 {
      FilterNone(rs[1..], keep);
    }
  }

  /** Every node of a subtree is at least as deep as its top. */
  lemma {:induction false} SubtreeHeights<V>(n: Node<V>, h: nat, p: nat)
    ensures forall i :: 0 <= i < |Subtree(n, h, p)| ==> Subtree(n, h, p)[i].height >= h
    decreases n, 1
  {
    var k := |Children(Some(n))|;
    SubtreesBelowHeights(n, k, h + 1);
    assert Subtree(n, h, p) == [SearchNode(n, h, p, Preorder)] + SubtreesBelow(n, k, h + 1);
  }

  lemma {:induction false} SubtreesBelowHeights<V>(n: Node<V>, k: nat, h: nat)
    requires k <= |Children(Some(n))|
    ensures forall i :: 0 <= i < |SubtreesBelow(n, k, h)| ==> SubtreesBelow(n, k, h)[i].height >= h
    decreases n, 0, k
  {
    if k > 0 {
      SubtreesBelowHeights(n, k - 1, h);
      var c := n.slots.children[k - 1];
      SubtreeHeights(c, h, n.index);
      assert SubtreesBelow(n, k, h) == Subtree(c, h, n.index) + SubtreesBelow(n, k - 1, h);
    }
  }

  /** The records of the first `k` children of `n` at height `h`, child k-1
      first. */
  function Level<V>(n: Node<V>, k: nat, h: nat): (r: seq<SearchNode<V>>)
    requires k <= |Children(Some(n))|
    ensures |r| == k
    ensures forall i :: 0 <= i < k ==> r[i] == SearchNode(Children(Some(n))[k - 1 - i], h, IndexOf(n), Preorder)
  {
    seq(k, i requires 0 <= i < k => SearchNode(Children(Some(n))[k - 1 - i], h, IndexOf(n), Preorder))
  }

  lemma LevelCons<V>(n: Node<V>, k: nat, h: nat)
    requires 0 < k <= |Children(Some(n))|
    ensures n.Branch? && Level(n, k, h) == [SearchNode(n.slots.children[k - 1], h, n.index, Preorder)] + Level(n, k - 1, h)
  {
    var a := Level(n, k, h);
    var b := [SearchNode(n.slots.children[k - 1], h, n.index, Preorder)] + Level(n, k - 1, h);
    assert |a| == |b|;
    forall i | 0 <= i < |a|
      ensures a[i] == b[i]
    {
      if i > 0 {
        assert b[i] == Level(n, k - 1, h)[i - 1];
      }
    }
  }

  /** Among the subtrees of the first `k` children, the records at the
      children's own height are the children themselves, last slot first. */
  lemma {:induction false} SiblingsBelow<V>(n: Node<V>, k: nat, h: nat)
    requires k <= |Children(Some(n))|
    ensures Filter(SubtreesBelow(n, k, h), HeightIs(h)) == Level(n, k, h)
    decreases k
  {
    if k > 0 {
      var c := n.slots.children[k - 1];
      var rec := SearchNode(c, h, n.index, Preorder);
      var kc := |Children(Some(c))|;
      var deeper := SubtreesBelow(c, kc, h + 1);
      assert Filter(deeper, HeightIs(h)) == [] by {
        SubtreesBelowHeights(c, kc, h + 1);
        FilterNone(deeper, HeightIs(h));
      }
      assert Subtree(c, h, n.index) == [rec] + deeper;
      FilterAppend([rec], deeper, HeightIs(h));
      FilterOne(rec, HeightIs(h));
      assert Filter(Subtree(c, h, n.index), HeightIs(h)) == [rec];
      SiblingsBelow(n, k - 1, h);
      FilterAppend(Subtree(c, h, n.index), SubtreesBelow(n, k - 1, h), HeightIs(h));
      assert SubtreesBelow(n, k, h) == Subtree(c, h, n.index) + SubtreesBelow(n, k - 1, h);
      LevelCons(n, k, h);
    } else {
      assert SubtreesBelow(n, k, h) == [];
    }
  }

  /** The depth-first search enters the children of a node in descending
      slot order, which is descending character order: the first visits one
      level below `n` are its children, last slot first. */
  lemma DfsSiblings<V>(n: Node<V>, h: nat, p: nat)
    ensures Filter(Filter(Dfs(n, h, p), IsPre), HeightIs(h + 1)) == Level(n, |Children(Some(n))|, h + 1)
  {
    var k := |Children(Some(n))|;
    var pre := SearchNode(n, h, p, Preorder);
    var below := SubtreesBelow(n, k, h + 1);
    DfsPreorder(n, h, p);
    assert Subtree(n, h, p) == [pre] + below;
    FilterAppend([pre], below, HeightIs(h + 1));
    FilterOne(pre, HeightIs(h + 1));
    SiblingsBelow(n, k, h + 1);
  }

  /** The postorder visits in `d` are the records of `s`, each once, in
      some order. */
  ghost predicate PostorderOf<V>(d: seq<SearchNode<V>>, s: seq<SearchNode<V>>)
  {
    PostVisits(d) == multiset(s)
  }

  /** The postorder visits in `d`, relabelled as the records they close. */
  ghost function PostVisits<V>(d: seq<SearchNode<V>>): multiset<SearchNode<V>>
  {
    multiset(AsPre(Filter(d, IsPost)))
  }

  /** The postorder visits of the depth-first search from `n` visit every
      node of its subtree exactly once, children before their parent. */
  lemma {:induction false} DfsPostorder<V>(n: Node<V>, h: nat, p: nat)
    ensures PostorderOf(Dfs(n, h, p), Subtree(n, h, p))
    decreases n, 1
  {
    var pre := SearchNode(n, h, p, Preorder);
    var post := SearchNode(n, h, p, Postorder);
    var below := DfsBelow(n, |Children(Some(n))|, h + 1);
    var k := |Children(Some(n))|;
    DfsBelowPostorder(n, k, h + 1);
    assert Dfs(n, h, p) == [pre] + below + [post];
    FilterAppend([pre] + below, [post], IsPost);
    FilterAppend([pre], below, IsPost);
    FilterOne(pre, IsPost);
    FilterOne(post, IsPost);
    var fb := Filter(below, IsPost);
    assert Filter(Dfs(n, h, p), IsPost) == fb + [post];
    AsPreAppend(fb, [post]);
    assert AsPre([post]) == [pre];
    assert AsPre(fb + [post]) == AsPre(fb) + [pre];
    assert Subtree(n, h, p) == [pre] + SubtreesBelow(n, k, h + 1);
  }

  lemma {:induction false} DfsBelowPostorder<V>(n: Node<V>, k: nat, h: nat)
    requires k <= |Children(Some(n))|
    ensures PostorderOf(DfsBelow(n, k, h), SubtreesBelow(n, k, h))
    decreases n, 0, k
  {
    if k > 0 {
      var c := n.slots.children[k - 1];
      var a, sa := Dfs(c, h, n.index), Subtree(c, h, n.index);
      var b, sb := DfsBelow(n, k - 1, h), SubtreesBelow(n, k - 1, h);
      DfsBelowPostorder(n, k - 1, h);
      DfsPostorder(c, h, n.index);
      PostorderConcat(a, b, sa, sb);
      BelowStep(n, k, h);
    } else {
      assert DfsBelow(n, k, h) == [] && SubtreesBelow(n, k, h) == [];
      assert AsPre(Filter(DfsBelow(n, k, h), IsPost)) == [];
    }
  }

  /** The last of the first `k` children comes first below `n`. */
  lemma BelowStep<V>(n: Node<V>, k: nat, h: nat)
    requires 0 < k <= |Children(Some(n))|
    ensures n.Branch?
    ensures DfsBelow(n, k, h) == Dfs(n.slots.children[k - 1], h, n.index) + DfsBelow(n, k - 1, h)
    ensures SubtreesBelow(n, k, h) == Subtree(n.slots.children[k - 1], h, n.index) + SubtreesBelow(n, k - 1, h)
  {
  }

  lemma PostorderConcat<V>(a: seq<SearchNode<V>>, b: seq<SearchNode<V>>, sa: seq<SearchNode<V>>, sb: seq<SearchNode<V>>)
    requires PostorderOf(a, sa) && PostorderOf(b, sb)
    ensures PostorderOf(a + b, sa + sb)
  {
    FilterAppend(a, b, IsPost);
    AsPreAppend(Filter(a, IsPost), Filter(b, IsPost));
  }

  /** The callback applied to `rs` in order, stopping after the first error:
      the records it was called with and the error, if any. */
  function UntilError<V, E>(rs: seq<SearchNode<V>>, callback: SearchNode<V> -> Option<E>): (r: (seq<SearchNode<V>>, Option<E>))
    ensures r.0 <= rs
    ensures r.1.None? ==> r.0 == rs
    ensures r.1.Some? ==> |r.0| > 0 && callback(r.0[|r.0| - 1]) == r.1
    ensures forall i :: 0 <= i < |r.0| - 1 ==> callback(r.0[i]).None?
    ensures r.1.None? <==> forall i :: 0 <= i < |rs| ==> callback(rs[i]).None?
  {
    if |rs| == 0 then ([], None)
    else if callback(rs[0]).Some? then ([rs[0]], callback(rs[0]))
    else
      var (v, e) := UntilError(rs[1..], callback);
      assert forall i :: 1 <= i < |rs| ==> rs[i] == rs[1..][i - 1];
      ([rs[0]] + v, e)
  }

  /** Records the callback accepts can be taken off the front. */
  lemma {:induction false} UntilErrorAfter<V, E>(a: seq<SearchNode<V>>, b: seq<SearchNode<V>>, callback: SearchNode<V> -> Option<E>)
    requires forall i :: 0 <= i < |a| ==> callback(a[i]).None?
    ensures UntilError(a + b, callback) == (a + UntilError(b, callback).0, UntilError(b, callback).1)
  {
    if |a| > 0 {
      var ab := a + b;
      assert ab[0] == a[0] && ab[1..] == a[1..] + b;
      assert forall i :: 0 <= i < |a[1..]| ==> a[1..][i] == a[i + 1];
      UntilErrorAfter(a[1..], b, callback);
      UntilErrorCons(ab, callback);
      PrependTail(a, UntilError(b, callback).0);
    } else {
      assert a + b == b;
      assert a + UntilError(b, callback).0 == UntilError(b, callback).0;
    }
  }

  /** A record the callback accepts is visited before the rest. */
  lemma UntilErrorCons<V, E>(rs: seq<SearchNode<V>>, callback: SearchNode<V> -> Option<E>)
    requires |rs| > 0 && callback(rs[0]).None?
    ensures UntilError(rs, callback) == ([rs[0]] + UntilError(rs[1..], callback).0, UntilError(rs[1..], callback).1)
  {
  }

  lemma PrependTail<T>(a: seq<T>, x: seq<T>)
    requires |a| > 0
    ensures [a[0]] + (a[1..] + x) == a + x
  {
    assert a == [a[0]] + a[1..];
  }

  /** The visits still owed for a stack record: the whole depth-first search
      below a preorder record, just itself for a postorder one. */
  ghost function Owed<V>(r: SearchNode<V>): seq<SearchNode<V>>
  {
    if r.order == Preorder then Dfs(r.node, r.height, r.parentIndex) else [r]
  }

  /** The visits owed for a whole stack, top (last) record first. */
  ghost function Pending<V>(stack: seq<SearchNode<V>>): seq<SearchNode<V>>
  {
    if |stack| == 0 then [] else Owed(stack[|stack| - 1]) + Pending(stack[..|stack| - 1])
  }

  lemma {:induction false} PendingAppend<V>(a: seq<SearchNode<V>>, b: seq<SearchNode<V>>)
    ensures Pending(a + b) == Pending(b) + Pending(a)
    decreases |b|
  {
    if |b| == 0 {
      assert a + b == a;
    } else {
      var b' := b[..|b| - 1];
      assert (a + b)[..|a + b| - 1] == a + b';
      PendingAppend(a, b');
    }
  }

  /** Records for the first `k` children of `n`, pushed in slot order, owe
      the depth-first visits of those children's subtrees, last child first. */
  lemma {:induction false} PendingChildren<V>(n: Node<V>, h: nat, q: seq<SearchNode<V>>)
    requires |q| <= |Children(Some(n))|
    requires forall i :: 0 <= i < |q| ==> q[i] == SearchNode(Children(Some(n))[i], h, IndexOf(n), Preorder)
    ensures Pending(q) == DfsBelow(n, |q|, h)
  {
    var k := |q|;
    if k > 0 {
      var q' := q[..k - 1];
      PendingChildren(n, h, q');
      var c := n.slots.children[k - 1];
      assert Owed(q[k - 1]) == Dfs(c, h, n.index);
    }
  }

  /** Popping the top record and pushing what search.go:37-41 pushes for it
      pays the first visit owed by the stack. */
  lemma PopOwes<V>(stack: seq<SearchNode<V>>, next: seq<SearchNode<V>>)
    requires |stack| > 0
    requires var top := stack[|stack| - 1];
      var rest := stack[..|stack| - 1];
      var post := top.(order := Postorder);
      next == if top.order == Preorder then rest + [post] + Kids(post) else rest
    ensures Pending(stack) == [stack[|stack| - 1]] + Pending(next)
  {
    var top := stack[|stack| - 1];
    var rest := stack[..|stack| - 1];
    assert stack == rest + [top];
    if top.order == Preorder {
      PopPreorder(rest, top);
    } else {
      assert Pending(stack) == Owed(top) + Pending(rest);
      assert Owed(top) == [top];
    }
  }

  lemma PopPreorder<V>(rest: seq<SearchNode<V>>, top: SearchNode<V>)
    requires top.order == Preorder
    ensures var post := top.(order := Postorder);
      Pending(rest + [top]) == [top] + Pending(rest + [post] + Kids(post))
  {
    var post := top.(order := Postorder);
    PopPreorderKids(rest, top, Kids(post));
  }

  lemma PopPreorderKids<V>(rest: seq<SearchNode<V>>, top: SearchNode<V>, kids: seq<SearchNode<V>>)
    requires top.order == Preorder
    requires |kids| == |Children(Some(top.node))|
    requires forall i :: 0 <= i < |kids| ==>
      kids[i] == SearchNode(Children(Some(top.node))[i], top.height + 1, IndexOf(top.node), Preorder)
    ensures Pending(rest + [top]) == [top] + Pending(rest + [top.(order := Postorder)] + kids)
  {
    var post := top.(order := Postorder);
    var next := rest + [post] + kids;
    var below := DfsBelow(top.node, |kids|, top.height + 1);
    var pr := Pending(rest);
    assert Pending(kids) == below by { PendingChildren(top.node, top.height + 1, kids); }
    assert Pending(next) == below + ([post] + pr) by {
      PendingAppend(rest + [post], kids);
      PendingAppend(rest, [post]);
      assert Pending([post]) == [post];
    }
    assert Pending(rest + [top]) == Owed(top) + pr by { PendingTop(rest, top); }
    assert Owed(top) == [top] + below + [post];
    Regroup(Pending(rest + [top]), Owed(top), Pending(next), below, pr, top, post);
  }

  lemma Regroup<T>(whole: seq<T>, owed: seq<T>, after: seq<T>, below: seq<T>, pr: seq<T>, top: T, post: T)
    requires whole == owed + pr && owed == [top] + below + [post] && after == below + ([post] + pr)
    ensures whole == [top] + after
  {
  }

  lemma PendingTop<V>(rest: seq<SearchNode<V>>, top: SearchNode<V>)
    ensures Pending(rest + [top]) == Owed(top) + Pending(rest)
  {
    assert (rest + [top])[..|rest|] == rest;
  }

  /** search.go:18-47 DepthFirst: pop a record, call back; a preorder record
      goes back on the stack as a postorder one, followed by its children.
      The callback sees the depth-first visits from `node` up to and
      including the first error, which is returned. */
  method DepthFirst<V, E>(node: Node<V>, callback: SearchNode<V> -> Option<E>) returns (visits: seq<SearchNode<V>>, err: Option<E>)
    ensures (visits, err) == UntilError(Dfs(node, 0, 0), callback)
  {
    var stack := [Start(node)];
    visits := [];
    assert Pending(stack) == Dfs(node, 0, 0);
    while |stack| > 0
      invariant visits + Pending(stack) == Dfs(node, 0, 0)
      invariant forall i :: 0 <= i < |visits| ==> callback(visits[i]).None?
      decreases |Pending(stack)|
    {
      var top := stack[|stack| - 1];
      var rest := stack[..|stack| - 1];
      var next;
      if top.order == Preorder {
        var post := top.(order := Postorder);
        next := rest + [post] + Kids(post);
      } else {
        next := rest;
      }
      PopOwes(stack, next);
      var e := callback(top);
      if e.Some? {
        StopAt(visits, top, Pending(next), Dfs(node, 0, 0), callback);
        return visits + [top], e;
      }
      Advance(visits, top, Pending(next), Dfs(node, 0, 0), callback);
      visits := visits + [top];
      stack := next;
    }
    StopAtEnd(visits, Dfs(node, 0, 0), callback);
    err := None;
  }

  /** A successful call moves the popped record from the pending records
      to the visits. */
  lemma Advance<V, E>(visits: seq<SearchNode<V>>, top: SearchNode<V>, after: seq<SearchNode<V>>, all: seq<SearchNode<V>>, callback: SearchNode<V> -> Option<E>)
    requires visits + ([top] + after) == all
    requires forall i :: 0 <= i < |visits| ==> callback(visits[i]).None?
    requires callback(top).None?
    ensures (visits + [top]) + after == all
    ensures forall i :: 0 <= i < |visits + [top]| ==> callback((visits + [top])[i]).None?
  {
  }

  /** The first error the callback returns ends the traversal there. */
  lemma StopAt<V, E>(visits: seq<SearchNode<V>>, top: SearchNode<V>, after: seq<SearchNode<V>>, all: seq<SearchNode<V>>, callback: SearchNode<V> -> Option<E>)
    requires visits + ([top] + after) == all
    requires forall i :: 0 <= i < |visits| ==> callback(visits[i]).None?
    requires callback(top).Some?
    ensures (visits + [top], callback(top)) == UntilError(all, callback)
  {
    UntilErrorAfter(visits, [top] + after, callback);
  }

  lemma StopAtEnd<V, E>(visits: seq<SearchNode<V>>, all: seq<SearchNode<V>>, callback: SearchNode<V> -> Option<E>)
    requires visits == all
    requires forall i :: 0 <= i < |visits| ==> callback(visits[i]).None?
    ensures (visits, None) == UntilError(all, callback)
  {
  }

  /** The subtrees below every record of a queue, front record first. */
  ghost function Forest<V>(q: seq<SearchNode<V>>): seq<SearchNode<V>>
  {
    if |q| == 0 then [] else Subtree(q[0].node, q[0].height, q[0].parentIndex) + Forest(q[1..])
  }

  lemma {:induction false} ForestAppend<V>(a: seq<SearchNode<V>>, b: seq<SearchNode<V>>)
    ensures Forest(a + b) == Forest(a) + Forest(b)
  {
    if |a| > 0 {
      assert (a + b)[1..] == a[1..] + b;
      ForestAppend(a[1..], b);
    } else {
      assert a + b == b;
    }
  }

  /** Records for the first `k` children of `n`, queued in slot order, hold
      the nodes of those children's subtrees. */
  lemma {:induction false} ForestOfChildren<V>(n: Node<V>, h: nat, q: seq<SearchNode<V>>)
    requires |q| <= |Children(Some(n))|
    requires forall i :: 0 <= i < |q| ==> q[i] == SearchNode(Children(Some(n))[i], h, IndexOf(n), Preorder)
    ensures multiset(Forest(q)) == multiset(SubtreesBelow(n, |q|, h))
  {
    var k := |q|;
    if k > 0 {
      var q' := q[..k - 1];
      var c := n.slots.children[k - 1];
      var sa := Subtree(c, h, n.index);
      var sb := SubtreesBelow(n, k - 1, h);
      assert multiset(Forest(q')) == multiset(sb) by { ForestOfChildren(n, h, q'); }
      assert q == q' + [q[k - 1]];
      ForestAppend(q', [q[k - 1]]);
      assert Forest([q[k - 1]]) == sa;
      assert SubtreesBelow(n, k, h) == sa + sb;
      SameNodes(Forest(q), Forest(q'), sa, sb, SubtreesBelow(n, k, h));
    } else {
      assert Forest(q) == [] && SubtreesBelow(n, k, h) == [];
    }
  }

  lemma SameNodes<T>(whole: seq<T>, front: seq<T>, last: seq<T>, below: seq<T>, s: seq<T>)
    requires whole == front + last && multiset(front) == multiset(below) && s == last + below
    ensures multiset(whole) == multiset(s)
  {
  }

  /** Every queued record still has to be called back. */
  ghost predicate AllPreorder<V>(q: seq<SearchNode<V>>)
  {
    forall i :: 0 <= i < |q| ==> q[i].order == Preorder
  }

  /** A breadth-first queue: preorder records whose heights never fall and
      span at most two neighbouring levels. */
  ghost predicate Queued<V>(q: seq<SearchNode<V>>)
  {
    && AllPreorder(q)
    && (forall i, j :: 0 <= i < j < |q| ==> q[i].height <= q[j].height <= q[i].height + 1)
  }

  /** Records come in non-decreasing height. */
  ghost predicate ByHeight<V>(rs: seq<SearchNode<V>>)
  {
    forall i, j :: 0 <= i < j < |rs| ==> rs[i].height <= rs[j].height
  }

  /** The callback was called with `visits` in order and `err` is its first
      error, returned from the last call; without an error every call
      succeeded. */
  ghost predicate StopsAtFirstError<V, E>(visits: seq<SearchNode<V>>, err: Option<E>, callback: SearchNode<V> -> Option<E>)
  {
    && (err.Some? ==> |visits| > 0 && callback(visits[|visits| - 1]) == err)
    && (forall i :: 0 <= i < |visits| - 1 ==> callback(visits[i]).None?)
    && (err.None? ==> forall i :: 0 <= i < |visits| ==> callback(visits[i]).None?)
  }

  /** Dequeuing the front record and queueing its children keeps a
      breadth-first queue and never lowers the front height. */
  lemma DrainQueued<V>(q: seq<SearchNode<V>>)
    requires |q| > 0 && Queued(q)
    ensures var q' := q[1..] + Kids(q[0]);
      && Queued(q')
      && (|q'| > 0 ==> q'[0].height >= q[0].height)
  {
    var sn := q[0];
    var rest := q[1..];
    var q' := rest + Kids(sn);
    forall i, j | 0 <= i < j < |q'|
      ensures q'[i].height <= q'[j].height <= q'[i].height + 1
    {
      if j < |rest| {
        assert q'[i] == q[i + 1] && q'[j] == q[j + 1];
      } else if i < |rest| {
        assert q'[i] == q[i + 1];
      }
    }
  }

  /** Dequeuing the front record and queueing its children removes exactly
      that record from the nodes the queue still owes. */
  /** One turn of the queue loop keeps the queue ordered and hands the
      rest of what it owes to the next queue. */
  lemma DrainStep<V>(q: seq<SearchNode<V>>)
    requires |q| > 0 && AllPreorder(q)
    ensures var q' := q[1..] + Kids(q[0]);
      && AllPreorder(q')
      && multiset(Forest(q)) == multiset{q[0]} + multiset(Forest(q'))
      && |Forest(q')| < |Forest(q)|
  {
    var q' := q[1..] + Kids(q[0]);
    forall i | 0 <= i < |q'|
      ensures q'[i].order == Preorder
    {
      if i >= |q| - 1 {
        assert q'[i] == Kids(q[0])[i - (|q| - 1)];
      } else {
        assert q'[i] == q[i + 1];
      }
    }
    DrainOwes(q);
  }

  lemma DrainOwes<V>(q: seq<SearchNode<V>>)
    requires |q| > 0 && q[0].order == Preorder
    ensures var q' := q[1..] + Kids(q[0]);
      && multiset(Forest(q)) == multiset{q[0]} + multiset(Forest(q'))
      && |Forest(q')| < |Forest(q)|
  {
    assert q == [q[0]] + q[1..];
    DrainOwesKids(q[0], q[1..], Kids(q[0]));
  }

  lemma DrainOwesKids<V>(sn: SearchNode<V>, rest: seq<SearchNode<V>>, kids: seq<SearchNode<V>>)
    requires sn.order == Preorder
    requires |kids| == |Children(Some(sn.node))|
    requires forall i :: 0 <= i < |kids| ==>
      kids[i] == SearchNode(Children(Some(sn.node))[i], sn.height + 1, IndexOf(sn.node), Preorder)
    ensures multiset(Forest([sn] + rest)) == multiset{sn} + multiset(Forest(rest + kids))
    ensures |Forest(rest + kids)| < |Forest([sn] + rest)|
  {
    var below := SubtreesBelow(sn.node, |kids|, sn.height + 1);
    assert multiset(Forest(kids)) == multiset(below) by { ForestOfChildren(sn.node, sn.height + 1, kids); }
    ForestAppend(rest, kids);
    assert ([sn] + rest)[1..] == rest;
    assert Forest([sn] + rest) == Subtree(sn.node, sn.height, sn.parentIndex) + Forest(rest);
    assert Subtree(sn.node, sn.height, sn.parentIndex) == [sn] + below;
    Owes(Forest([sn] + rest), Forest(rest + kids), sn, below, Forest(rest), Forest(kids));
  }

  lemma Owes<T>(whole: seq<T>, after: seq<T>, x: T, below: seq<T>, rest: seq<T>, kids: seq<T>)
    requires whole == [x] + below + rest && after == rest + kids && multiset(kids) == multiset(below)
    ensures multiset(whole) == multiset{x} + multiset(after) && |after| < |whole|
  {
    assert |multiset(kids)| == |multiset(below)|;
  }

  /** One more node in front of visits drawn from what is left owed. */
  lemma ConsNodes<T>(x: T, v: seq<T>, done: bool, owed: seq<T>, left: seq<T>)
    requires multiset(owed) == multiset{x} + multiset(left)
    requires multiset(v) <= multiset(left) && (done ==> multiset(v) == multiset(left))
    ensures multiset([x] + v) <= multiset(owed) && (done ==> multiset([x] + v) == multiset(owed))
  {
    assert multiset([x] + v) == multiset{x} + multiset(v);
  }

  /** A successful call in front of visits that stop at the first error
      still stops at the first error. */
  lemma ConsStops<V, E>(sn: SearchNode<V>, v: seq<SearchNode<V>>, e: Option<E>, callback: SearchNode<V> -> Option<E>)
    requires callback(sn).None? && StopsAtFirstError(v, e, callback)
    ensures StopsAtFirstError([sn] + v, e, callback)
  {
    var r := [sn] + v;
    assert forall i :: 1 <= i < |r| ==> r[i] == v[i - 1];
  }

  /** Putting a record in front of records no shallower than it keeps them
      in non-decreasing height. */
  lemma ConsHeights<V>(sn: SearchNode<V>, v: seq<SearchNode<V>>)
    requires ByHeight(v)
    requires forall i :: 0 <= i < |v| ==> v[i].height >= sn.height
    ensures ByHeight([sn] + v)
    ensures forall i :: 0 <= i < |[sn] + v| ==> ([sn] + v)[i].height >= sn.height
  {
    var r := [sn] + v;
    assert forall i :: 1 <= i < |r| ==> r[i] == v[i - 1];
  }

  /** A successful call on the front record, in front of the visits of the
      queue left after it, gives visits owed by the whole queue. */
  lemma DrainConsNodes<V, E>(q: seq<SearchNode<V>>, q': seq<SearchNode<V>>, v: seq<SearchNode<V>>, e: Option<E>)
    requires |q| > 0
    requires multiset(Forest(q)) == multiset{q[0]} + multiset(Forest(q'))
    requires multiset(v) <= multiset(Forest(q'))
    requires e.None? ==> multiset(v) == multiset(Forest(q'))
    ensures multiset([q[0]] + v) <= multiset(Forest(q))
    ensures e.None? ==> multiset([q[0]] + v) == multiset(Forest(q))
  {
    ConsNodes(q[0], v, e.None?, Forest(q), Forest(q'));
  }

  /** Visits drawn from a queue that owes nothing are none; otherwise they
      are no shallower than its front record. */
  lemma NoShallower<V>(q: seq<SearchNode<V>>, v: seq<SearchNode<V>>, h: nat)
    requires multiset(v) <= multiset(Forest(q))
    requires |q| > 0 ==> q[0].height >= h && forall i :: 0 <= i < |v| ==> v[i].height >= q[0].height
    ensures forall i :: 0 <= i < |v| ==> v[i].height >= h
  {
    if |q| == 0 {
      assert Forest(q) == [];
      assert |multiset(v)| == 0;
    }
  }

  /** search.go:53-65, the queue loop: dequeue the front record, call back,
      queue its children. The records called back are, in non-decreasing
      height, nodes owed by the queue, each once; all of them when no error
      stops the loop. */
  function Drain<V, E>(q: seq<SearchNode<V>>, callback: SearchNode<V> -> Option<E>): (r: (seq<SearchNode<V>>, Option<E>))
    requires AllPreorder(q)
    ensures multiset(r.0) <= multiset(Forest(q))
    ensures r.1.None? ==> multiset(r.0) == multiset(Forest(q))
    decreases |Forest(q)|
  {
    if |q| == 0 then ([], None)
    else
      var sn := q[0];
      var e := callback(sn);
      if e.Some? then
        assert multiset([sn]) <= multiset(Forest(q)) by { DrainOwes(q); }
        ([sn], e)
      else
        var q' := q[1..] + Kids(sn);
        DrainStep(q);
        var (v, e2) := Drain(q', callback);
        DrainConsNodes(q, q', v, e2);
        ([sn] + v, e2)
  }

  /** A non-empty queue loop calls back its front record first. */
  lemma DrainFirst<V, E>(q: seq<SearchNode<V>>, callback: SearchNode<V> -> Option<E>)
    requires AllPreorder(q) && |q| > 0
    ensures |Drain(q, callback).0| > 0 && Drain(q, callback).0[0] == q[0]
  {
    if callback(q[0]).None? {
      DrainStep(q);
      var (v, e2) := Drain(q[1..] + Kids(q[0]), callback);
      assert Drain(q, callback).0 == [q[0]] + v;
    }
  }

  /** The queue loop stops at the first error. */
  lemma {:induction false} DrainStops<V, E>(q: seq<SearchNode<V>>, callback: SearchNode<V> -> Option<E>)
    requires AllPreorder(q)
    ensures StopsAtFirstError(Drain(q, callback).0, Drain(q, callback).1, callback)
    decreases |Forest(q)|
  {
    if |q| == 0 {
      assert Drain(q, callback) == ([], None);
    } else if callback(q[0]).Some? {
      assert Drain(q, callback) == ([q[0]], callback(q[0]));
    } else {
      var sn := q[0];
      var q' := q[1..] + Kids(sn);
      DrainStep(q);
      DrainStops(q', callback);
      var (v, e2) := Drain(q', callback);
      assert Drain(q, callback) == ([sn] + v, e2);
      ConsStops(sn, v, e2, callback);
    }
  }

  /** The records the queue loop calls back come in non-decreasing height,
      none shallower than the front of the queue. */
  lemma {:induction false} DrainHeights<V, E>(q: seq<SearchNode<V>>, callback: SearchNode<V> -> Option<E>)
    requires Queued(q)
    ensures ByHeight(Drain(q, callback).0)
    ensures |q| > 0 ==> forall i :: 0 <= i < |Drain(q, callback).0| ==> Drain(q, callback).0[i].height >= q[0].height
    decreases |Forest(q)|
  {
    if |q| == 0 {
      assert Drain(q, callback) == ([], None);
    } else if callback(q[0]).Some? {
      assert Drain(q, callback) == ([q[0]], callback(q[0]));
    } else {
      var sn := q[0];
      var q' := q[1..] + Kids(sn);
      assert |Forest(q')| < |Forest(q)| by { DrainOwes(q); }
      DrainQueued(q);
      DrainHeights(q', callback);
      var (v, e2) := Drain(q', callback);
      assert Drain(q, callback) == ([sn] + v, e2);
      NoShallower(q', v, sn.height);
      ConsHeights(sn, v);
    }
  }

  /** search.go:49-66 BreadthFirst as written: the queue starts with the
      children of `node` (search.go:52), so the callback sees every node of
      the subtree except `node` itself, one level at a time. */
  function BreadthFirst<V, E>(node: Node<V>, callback: SearchNode<V> -> Option<E>): (r: (seq<SearchNode<V>>, Option<E>))
    ensures multiset(r.0) <= multiset(Subtree(node, 0, 0)) - multiset{Start(node)}
    ensures r.1.None? ==> multiset(r.0) == multiset(Subtree(node, 0, 0)) - multiset{Start(node)}
    ensures forall i :: 0 <= i < |r.0| ==> r.0[i].height >= 1
    ensures StopsAtFirstError(r.0, r.1, callback)
    ensures ByHeight(r.0)
  {
    var q := Kids(Start(node));
    assert Queued(q);
    BreadthFirstOwes(node, q);
    DrainStops(q, callback);
    DrainHeights(q, callback);
    Drain(q, callback)
  }

  lemma BreadthFirstOwes<V>(node: Node<V>, q: seq<SearchNode<V>>)
    requires |q| == |Children(Some(node))|
    requires forall i :: 0 <= i < |q| ==> q[i] == SearchNode(Children(Some(node))[i], 1, IndexOf(node), Preorder)
    ensures multiset(Forest(q)) == multiset(Subtree(node, 0, 0)) - multiset{Start(node)}
  {
    var below := SubtreesBelow(node, |q|, 1);
    assert multiset(Forest(q)) == multiset(below) by { ForestOfChildren(node, 1, q); }
    assert Subtree(node, 0, 0) == [Start(node)] + below;
    DropFront(Forest(q), below, Subtree(node, 0, 0), Start(node));
  }

  lemma DropFront<T>(f: seq<T>, below: seq<T>, s: seq<T>, x: T)
    requires multiset(f) == multiset(below) && s == [x] + below
    ensures multiset(f) == multiset(s) - multiset{x}
  {
    assert multiset(s) == multiset{x} + multiset(below);
  }

  /** BreadthFirst with the queue starting at `node` itself: the callback
      sees every node of the subtree exactly once, `node` first, one level at
      a time, until the first error. */
  function BreadthFirstCorrected<V, E>(node: Node<V>, callback: SearchNode<V> -> Option<E>): (r: (seq<SearchNode<V>>, Option<E>))
    ensures multiset(r.0) <= multiset(Subtree(node, 0, 0))
    ensures r.1.None? ==> multiset(r.0) == multiset(Subtree(node, 0, 0))
    ensures |r.0| > 0 && r.0[0] == Start(node)
    ensures StopsAtFirstError(r.0, r.1, callback)
    ensures ByHeight(r.0)
  {
    var q := [Start(node)];
    assert Forest(q) == Subtree(node, 0, 0) + Forest([]);
    var r := Drain(q, callback);
    DrainStops(q, callback);
    DrainHeights(q, callback);
    DrainFirst(q, callback);
    assert Start(node) in multiset(Forest(q));
    r
  }
}
