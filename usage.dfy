/**
 * `find_variable_usage` (app.py): the line numbers of every `Name` node whose
 * identifier equals the queried name, collected while walking the tree and
 * returned as `sorted(set(lines))`; an empty list when the source does not
 * parse. The context of the name (read, assignment target, deletion) is not
 * looked at.
 */
module UsageIndex {
  import opened Wrappers
  import opened Syntax
  import opened AstWalk

  predicate StrictlyIncreasing(s: seq<int>)
  {
    forall i, j :: 0 <= i < j < |s| ==> s[i] < s[j]
  }

  /** Adds `x` to an ascending list without duplicates, keeping it ascending. */
  function Insert(s: seq<int>, x: int): (r: seq<int>)
    requires StrictlyIncreasing(s)
    ensures StrictlyIncreasing(r)
    ensures forall y :: y in r <==> y in s || y == x
  {
    if s == [] then [x]
    else if x < s[0] then [x] + s
    else if x == s[0] then s
    else
      var tail := Insert(s[1..], x);
      assert forall k :: 0 <= k < |tail| ==> s[0] < tail[k] by {
        forall k | 0 <= k < |tail| ensures s[0] < tail[k] {
          assert tail[k] in tail;
        }
      }
      [s[0]] + tail
  }

  /** `sorted(set(xs))`: the distinct values of `xs` in ascending order. */
  function SortedDistinct(xs: seq<int>): (r: seq<int>)
    ensures StrictlyIncreasing(r)
    ensures forall y :: y in r <==> y in xs
  {
    if xs == [] then [] else Insert(SortedDistinct(xs[1..]), xs[0])
  }

  /**
   * An ascending list without duplicates is determined by its elements, so
   * the two postconditions of SortedDistinct pin down `sorted(set(xs))`.
   */
  lemma {:induction false} StrictlyIncreasingUnique(a: seq<int>, b: seq<int>)
    requires StrictlyIncreasing(a) && StrictlyIncreasing(b)
    requires forall y :: y in a <==> y in b
    ensures a == b
    decreases |a|
  {
    if a == [] {
      assert forall k :: 0 <= k < |b| ==> b[k] in b;
    } else {
      assert a[0] in a;
      assert b != [];
      assert b[0] in b;
      assert a[0] == b[0];
      forall y ensures y in a[1..] <==> y in b[1..] {
        if y in a[1..] {
          assert y in b && y != b[0];
        }
        if y in b[1..] {
          assert y in a && y != a[0];
        }
      }
      StrictlyIncreasingUnique(a[1..], b[1..]);
    }
  }

  /** What one node contributes: its line if it is a `Name` with the queried identifier. */
  function UsageOf(varName: string): Tree -> seq<int>
  {
    (n: Tree) => if n.Name? && n.id == varName then [n.lineno] else []
  }

  /** `varName` is referenced on `line` somewhere in the tree. */
  ghost predicate UsedAt(tree: Tree, varName: string, line: int)
  {
    exists n :: n in Subtrees(tree) && n.Name? && n.id == varName && n.lineno == line
  }

  lemma UsageOverWalk(tree: Tree, varName: string)
    ensures forall line :: line in Collect(WalkOrder(tree), UsageOf(varName)) <==> UsedAt(tree, varName, line)
  {
    forall line ensures line in Collect(WalkOrder(tree), UsageOf(varName)) <==> UsedAt(tree, varName, line) {
      CollectOverWalk(tree, UsageOf(varName), line);
      if UsedAt(tree, varName, line) {
        var n :| n in Subtrees(tree) && n.Name? && n.id == varName && n.lineno == line;
        assert line in UsageOf(varName)(n);
      }
    }
  }

  /**
   * The usage index for one query: ascending, without repetitions, and a line
   * is listed iff some `Name` node with that identifier sits on it.
   */
  function VariableUsage(parsed: Option<Tree>, varName: string): (lines: seq<int>)
    ensures StrictlyIncreasing(lines)
    ensures forall line :: line in lines <==> parsed.Some? && UsedAt(parsed.value, varName, line)
  {
    match parsed
    case None => []
    case Some(tree) =>
      UsageOverWalk(tree, varName);
      SortedDistinct(Collect(WalkOrder(tree), UsageOf(varName)))
  }

  /** `find_variable_usage`: walk the tree, append matching lines, then sort the distinct ones. */
  method FindVariableUsage(parsed: Option<Tree>, varName: string) returns (lines: seq<int>)
    ensures lines == VariableUsage(parsed, varName)
  {
    match parsed {
      case None =>
        lines := [];
      case Some(tree) =>
        var order := Walk(tree);
        var found: seq<int> := [];
        for i := 0 to |order|
          invariant found == Collect(order[..i], UsageOf(varName))
        {
          CollectSnoc(order, i, UsageOf(varName));
          var node := order[i];
          if node.Name? && node.id == varName {
            found := found + [node.lineno];
          }
        }
        assert order[..|order|] == order;
        lines := SortedDistinct(found);
    }
  }

  /**
   * The result is empty exactly when the source did not parse or no `Name`
   * node carries the queried identifier (so also for a query that is not an
   * identifier at all).
   */
  lemma NoUsageIffNoName(parsed: Option<Tree>, varName: string)
    ensures VariableUsage(parsed, varName) == [] <==>
      parsed.None? || forall n :: n in Subtrees(parsed.value) ==> !(n.Name? && n.id == varName)
  {
    var lines := VariableUsage(parsed, varName);
    if parsed.Some? {
      forall n | n in Subtrees(parsed.value) && n.Name? && n.id == varName ensures n.lineno in lines {
        assert UsedAt(parsed.value, varName, n.lineno);
      }
    }
    if parsed.Some? && lines != [] {
      assert lines[0] in lines;
    }
  }
}
