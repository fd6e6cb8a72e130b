/**
 * `ast.walk`, the traversal every analysis of app.py is built on: a deque
 * seeded with the root; repeatedly pop the leftmost node, append its
 * children on the right, and yield the popped node. The order is therefore
 * breadth-first, not pre-order.
 */
module AstWalk {
  import opened Syntax

  /** Popping the head and appending its children removes exactly one node from the queue. */
  lemma Dequeued(todo: seq<Tree>)
    requires todo != []
    ensures SizeSeq(todo[1..] + Children(todo[0])) == SizeSeq(todo) - 1
  {
    SizeSeqAppend(todo[1..], Children(todo[0]));
    ChildrenSize(todo[0]);
  }

  /** The nodes `ast.walk` yields once the deque holds `todo`. */
  function BfsFrom(todo: seq<Tree>): seq<Tree>
    decreases SizeSeq(todo)
  {
    if todo == [] then []
    else
      Dequeued(todo);
      [todo[0]] + BfsFrom(todo[1..] + Children(todo[0]))
  }

  /** The nodes `ast.walk(root)` yields, in order. */
  function WalkOrder(root: Tree): seq<Tree>
  {
    BfsFrom([root])
  }

  /** `ast.walk(root)`, collected into a list: the deque-driven loop itself. */
  method Walk(root: Tree) returns (order: seq<Tree>)
    ensures order == WalkOrder(root)
  {
    var todo := [root];
    order := [];
    while todo != []
      invariant order + BfsFrom(todo) == WalkOrder(root)
      decreases SizeSeq(todo)
    {
      var node := todo[0];
      Dequeued(todo);
      todo := todo[1..] + Children(node);
      order := order + [node];
    }
  }

  /** Draining a queue yields every node under it, each occurrence exactly once. */
  lemma {:induction false} BfsVisitsAll(todo: seq<Tree>)
    ensures multiset(BfsFrom(todo)) == multiset(SubtreesSeq(todo))
    decreases SizeSeq(todo)
  {
    if todo != [] {
      var t := todo[0];
      Dequeued(todo);
      BfsVisitsAll(todo[1..] + Children(t));
      SubtreesSeqAppend(todo[1..], Children(t));
      calc {
        multiset(SubtreesSeq(todo));
        multiset(Subtrees(t) + SubtreesSeq(todo[1..]));
        multiset([t] + SubtreesSeq(Children(t)) + SubtreesSeq(todo[1..]));
        multiset{t} + multiset(SubtreesSeq(todo[1..]) + SubtreesSeq(Children(t)));
        multiset{t} + multiset(BfsFrom(todo[1..] + Children(t)));
        multiset(BfsFrom(todo));
      }
    }
  }

  /**
   * The walk is complete and repeats nothing: it is a permutation of the
   * pre-order enumeration of the tree, and it starts at the root.
   */
  lemma WalkCoversSubtrees(root: Tree)
    ensures multiset(WalkOrder(root)) == multiset(Subtrees(root))
    ensures |WalkOrder(root)| == |Subtrees(root)|
    ensures forall x :: x in WalkOrder(root) <==> x in Subtrees(root)
    ensures WalkOrder(root)[0] == root
  {
    BfsVisitsAll([root]);
    assert SubtreesSeq([root]) == Subtrees(root) + SubtreesSeq([]);
    assert |multiset(WalkOrder(root))| == |multiset(Subtrees(root))|;
    forall x ensures x in WalkOrder(root) <==> x in Subtrees(root) {
      assert x in WalkOrder(root) <==> x in multiset(WalkOrder(root));
      assert x in Subtrees(root) <==> x in multiset(Subtrees(root));
    }
  }

  /** The concatenation of `f(n)` over the nodes, in order: a list comprehension over a walk. */
  function Collect<T>(nodes: seq<Tree>, f: Tree -> seq<T>): seq<T>
  {
    if nodes == [] then [] else f(nodes[0]) + Collect(nodes[1..], f)
  }

  lemma {:induction false} CollectAppend<T>(a: seq<Tree>, b: seq<Tree>, f: Tree -> seq<T>)
    ensures Collect(a + b, f) == Collect(a, f) + Collect(b, f)
    decreases |a|
  {
    if a == [] {
      assert a + b == b;
    } else {
      assert (a + b)[1..] == a[1..] + b;
      CollectAppend(a[1..], b, f);
    }
  }

  /** Appending one more node to a loop's prefix appends that node's contribution. */
  lemma CollectSnoc<T>(nodes: seq<Tree>, i: nat, f: Tree -> seq<T>)
    requires i < |nodes|
    ensures Collect(nodes[..i + 1], f) == Collect(nodes[..i], f) + f(nodes[i])
  {
    assert nodes[..i + 1] == nodes[..i] + [nodes[i]];
    CollectAppend(nodes[..i], [nodes[i]], f);
    assert Collect([nodes[i]], f) == f(nodes[i]) + Collect([], f);
  }

  /** An element of a sequence splits it into the part before and the part after. */
  lemma SplitAt(b: seq<Tree>, x: Tree) returns (l: seq<Tree>, r: seq<Tree>)
    requires x in b
    ensures b == l + [x] + r
  {
    var i :| 0 <= i < |b| && b[i] == x;
    l, r := b[..i], b[i + 1..];
    assert b == l + [x] + r;
  }

  /** Collecting over a sequence that starts with `x`. */
  lemma CollectCons<T>(x: Tree, r: seq<Tree>, f: Tree -> seq<T>)
    ensures Collect([x] + r, f) == f(x) + Collect(r, f)
  {
    assert ([x] + r)[0] == x && ([x] + r)[1..] == r;
  }

  /** What a sequence collects, split around one of its elements. */
  lemma CollectSplit<T>(l: seq<Tree>, x: Tree, r: seq<Tree>, f: Tree -> seq<T>)
    ensures Collect(l + [x] + r, f) == Collect(l, f) + f(x) + Collect(r, f)
  {
    assert l + [x] + r == l + ([x] + r);
    CollectAppend(l, [x] + r, f);
    CollectCons(x, r, f);
  }

  /** Taking one node out of a sequence takes its entries out of what is collected. */
  lemma CollectAround<T>(l: seq<Tree>, x: Tree, r: seq<Tree>, f: Tree -> seq<T>)
    ensures multiset(Collect(l + [x] + r, f)) == multiset(Collect(l + r, f)) + multiset(f(x))
  {
    CollectSplit(l, x, r, f);
    CollectAppend(l, r, f);
    MultisetShuffle(Collect(l, f), f(x), Collect(r, f));
  }

  lemma MultisetShuffle<T>(l: seq<T>, m: seq<T>, r: seq<T>)
    ensures multiset(l + m + r) == multiset(l + r) + multiset(m)
  {
  }

  /** Visiting the same nodes in another order collects the same entries in another order. */
  lemma {:induction false} CollectPermutation<T>(a: seq<Tree>, b: seq<Tree>, f: Tree -> seq<T>)
    requires multiset(a) == multiset(b)
    ensures multiset(Collect(a, f)) == multiset(Collect(b, f))
    decreases |a|
  {
    if a == [] {
      assert |b| == |multiset(b)| == 0;
    } else {
      var x := a[0];
      assert x in b by {
        assert x in multiset(a);
      }
      var l, r := SplitAt(b, x);
      var tail := a[1..];
      assert a == [] + [x] + tail;
      assert multiset(b) == multiset(l + r) + multiset{x};
      assert multiset(a) == multiset(tail) + multiset{x};
      MultisetCancel(multiset(tail), multiset(l + r), x);
      CollectPermutation(tail, l + r, f);
      CollectAround(l, x, r, f);
      CollectAround([], x, tail, f);
      assert [] + tail == tail;
    }
  }

  lemma MultisetCancel<U>(m: multiset<U>, n: multiset<U>, x: U)
    requires m + multiset{x} == n + multiset{x}
    ensures m == n
  {
    assert forall y :: m[y] == (m + multiset{x})[y] - multiset{x}[y];
    assert forall y :: n[y] == (n + multiset{x})[y] - multiset{x}[y];
  }

  /** An entry is collected iff some visited node contributes it. */
  lemma {:induction false} InCollect<T>(nodes: seq<Tree>, f: Tree -> seq<T>, x: T)
    ensures x in Collect(nodes, f) <==> exists n :: n in nodes && x in f(n)
    decreases |nodes|
  {
    if nodes != [] {
      InCollect(nodes[1..], f, x);
      if x in f(nodes[0]) {
        assert nodes[0] in nodes;
      }
      if exists n :: n in nodes[1..] && x in f(n) {
        var n :| n in nodes[1..] && x in f(n);
        assert n in nodes;
      }
      forall n | n in nodes && x in f(n) ensures x in Collect(nodes, f) {
        assert n == nodes[0] || n in nodes[1..];
      }
    }
  }

  /** An entry is collected over a walk iff some node of the tree contributes it. */
  lemma CollectOverWalk<T>(root: Tree, f: Tree -> seq<T>, x: T)
    ensures x in Collect(WalkOrder(root), f) <==> exists n :: n in Subtrees(root) && x in f(n)
  {
    WalkCoversSubtrees(root);
    InCollect(WalkOrder(root), f, x);
  }
}
