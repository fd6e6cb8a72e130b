/**
 * `find_long_functions` (app.py): for every `FunctionDef` met while walking
 * the tree whose body is not empty, the length is the line of the last body
 * statement minus the line of the first plus one; definitions longer than
 * the threshold are reported as (name, length) pairs in walk order. An empty
 * list when the source does not parse.
 */
module LengthReport {
  import opened Wrappers
  import opened Syntax
  import opened AstWalk

  /**
   * The inclusive span of lines from the first body statement to the last:
   * one for a single statement, positive whenever the statements are in
   * line order.
   */
  function BodyLength(n: Tree): (len: int)
    requires n.FunctionDef? && n.body != []
    ensures |n.body| == 1 ==> len == 1
    ensures n.body[0].lineno <= n.body[|n.body| - 1].lineno ==> len >= 1
  {
    n.body[|n.body| - 1].lineno - n.body[0].lineno + 1
  }

  /** A definition the report flags at this threshold. */
  predicate IsLong(n: Tree, threshold: int)
  {
    n.FunctionDef? && n.body != [] && BodyLength(n) > threshold
  }

  /** What one node contributes to the report. */
  function LongEntry(threshold: int): Tree -> seq<(string, int)>
  {
    (n: Tree) => if IsLong(n, threshold) then [(n.name, BodyLength(n))] else []
  }

  /**
   * The report: a pair is in it iff some definition in the tree has a
   * non-empty body, that name, and that body length, above the threshold;
   * and it holds one entry per such definition, duplicates kept.
   */
  function LongFunctions(parsed: Option<Tree>, threshold: int): (report: seq<(string, int)>)
    ensures forall e :: e in report <==>
      parsed.Some? && exists n :: n in Subtrees(parsed.value) && IsLong(n, threshold) && e == (n.name, BodyLength(n))
    ensures parsed.Some? ==>
      multiset(report) == multiset(Collect(Subtrees(parsed.value), LongEntry(threshold)))
  {
    match parsed
    case None => []
    case Some(tree) =>
      LongOverWalk(tree, threshold);
      WalkCoversSubtrees(tree);
      CollectPermutation(WalkOrder(tree), Subtrees(tree), LongEntry(threshold));
      Collect(WalkOrder(tree), LongEntry(threshold))
  }

  lemma LongOverWalk(tree: Tree, threshold: int)
    ensures forall e :: e in Collect(WalkOrder(tree), LongEntry(threshold)) <==>
      exists n :: n in Subtrees(tree) && IsLong(n, threshold) && e == (n.name, BodyLength(n))
  {
    forall e ensures e in Collect(WalkOrder(tree), LongEntry(threshold)) <==>
      exists n :: n in Subtrees(tree) && IsLong(n, threshold) && e == (n.name, BodyLength(n))
    {
      CollectOverWalk(tree, LongEntry(threshold), e);
    }
  }

  /** `find_long_functions`: walk the tree and append each long definition. */
  method FindLongFunctions(parsed: Option<Tree>, threshold: int) returns (longFuncs: seq<(string, int)>)
    ensures longFuncs == LongFunctions(parsed, threshold)
  {
    match parsed {
      case None =>
        longFuncs := [];
      case Some(tree) =>
        var order := Walk(tree);
        longFuncs := [];
        for i := 0 to |order|
          invariant longFuncs == Collect(order[..i], LongEntry(threshold))
        {
          CollectSnoc(order, i, LongEntry(threshold));
          var node := order[i];
          if node.FunctionDef? {
            if node.body != [] {
              var funcLen := node.body[|node.body| - 1].lineno - node.body[0].lineno + 1;
              if funcLen > threshold {
                longFuncs := longFuncs + [(node.name, funcLen)];
              }
            }
          }
        }
        assert order[..|order|] == order;
    }
  }

  /** `a` can be obtained from `b` by deleting entries. */
  predicate IsSubsequence<T(==)>(a: seq<T>, b: seq<T>)
    decreases |b|
  {
    a == [] || (b != [] && ((a[0] == b[0] && IsSubsequence(a[1..], b[1..])) || IsSubsequence(a, b[1..])))
  }

  lemma {:induction false} SubsequenceShorter<T>(a: seq<T>, b: seq<T>)
    requires IsSubsequence(a, b)
    ensures |a| <= |b|
    decreases |b|
  {
    if a != [] {
      if a[0] == b[0] && IsSubsequence(a[1..], b[1..]) {
        SubsequenceShorter(a[1..], b[1..]);
      } else {
        SubsequenceShorter(a, b[1..]);
      }
    }
  }

  lemma {:induction false} SubsequenceReflexive<T>(a: seq<T>)
    ensures IsSubsequence(a, a)
    decreases |a|
  {
    if a != [] {
      SubsequenceReflexive(a[1..]);
    }
  }

  lemma {:induction false} SubsequenceExtend<T>(a: seq<T>, c: seq<T>, b: seq<T>)
    requires IsSubsequence(a, b)
    ensures IsSubsequence(a, c + b)
    decreases |c|
  {
    if c != [] {
      assert (c + b)[1..] == c[1..] + b;
      SubsequenceExtend(a, c[1..], b);
    } else {
      assert c + b == b;
    }
  }

  lemma {:induction false} SubsequenceConcat<T>(a1: seq<T>, b1: seq<T>, a2: seq<T>, b2: seq<T>)
    requires IsSubsequence(a1, b1) && IsSubsequence(a2, b2)
    ensures IsSubsequence(a1 + a2, b1 + b2)
    decreases |b1|
  {
    if a1 == [] {
      assert a1 + a2 == a2;
      SubsequenceExtend(a2, b1, b2);
    } else {
      assert (b1 + b2)[0] == b1[0] && (b1 + b2)[1..] == b1[1..] + b2;
      assert (a1 + a2)[0] == a1[0] && (a1 + a2)[1..] == a1[1..] + a2;
      if a1[0] == b1[0] && IsSubsequence(a1[1..], b1[1..]) {
        SubsequenceConcat(a1[1..], b1[1..], a2, b2);
      } else {
        SubsequenceConcat(a1, b1[1..], a2, b2);
      }
    }
  }

  lemma {:induction false} CollectLongAntitone(nodes: seq<Tree>, low: int, high: int)
    requires low <= high
    ensures IsSubsequence(Collect(nodes, LongEntry(high)), Collect(nodes, LongEntry(low)))
    decreases |nodes|
  {
    if nodes != [] {
      CollectLongAntitone(nodes[1..], low, high);
      var n := nodes[0];
      if IsLong(n, high) {
        SubsequenceReflexive(LongEntry(low)(n));
      }
      SubsequenceConcat(LongEntry(high)(n), LongEntry(low)(n),
                        Collect(nodes[1..], LongEntry(high)), Collect(nodes[1..], LongEntry(low)));
    }
  }

  /**
   * Raising the threshold only deletes entries: the report at the higher
   * threshold is a subsequence of the report at the lower one, so never longer.
   */
  lemma LongFunctionsAntitone(parsed: Option<Tree>, low: int, high: int)
    requires low <= high
    ensures IsSubsequence(LongFunctions(parsed, high), LongFunctions(parsed, low))
    ensures |LongFunctions(parsed, high)| <= |LongFunctions(parsed, low)|
  {
    if parsed.Some? {
      CollectLongAntitone(WalkOrder(parsed.value), low, high);
    }
    SubsequenceShorter(LongFunctions(parsed, high), LongFunctions(parsed, low));
  }
}
