/**
 * `parse_python_functions` (app.py): the names of every `FunctionDef` node
 * of the parsed module, nested ones included, in the order `ast.walk`
 * visits them, with repeated names kept as separate entries; an empty
 * list when the source does not parse.
 */
module FunctionCatalog {
  import opened Wrappers
  import opened Syntax
  import opened AstWalk

  /** What one node contributes to the catalog: its name if it is a function definition. */
  function DefinedName(n: Tree): seq<string>
  {
    if n.FunctionDef? then [n.name] else []
  }

  /**
   * The catalog. Compared with the pre-order enumeration of the tree it holds
   * exactly the same names, each as often as it is defined.
   */
  function ParseFunctions(parsed: Option<Tree>): (names: seq<string>)
    ensures parsed.None? ==> names == []
    ensures parsed.Some? ==>
      multiset(names) == multiset(Collect(Subtrees(parsed.value), DefinedName))
  {
    match parsed
    case None => []
    case Some(tree) =>
      WalkCoversSubtrees(tree);
      CollectPermutation(WalkOrder(tree), Subtrees(tree), DefinedName);
      Collect(WalkOrder(tree), DefinedName)
  }

  /** A name is listed iff some function definition in the tree carries it. */
  lemma ParseFunctionsNames(parsed: Option<Tree>, x: string)
    ensures x in ParseFunctions(parsed) <==>
      parsed.Some? && exists n :: n in Subtrees(parsed.value) && n.FunctionDef? && n.name == x
  {
    if parsed.Some? {
      CollectOverWalk(parsed.value, DefinedName, x);
    }
  }

  /** The number of `FunctionDef` nodes in a tree, counted by structural recursion. */
  ghost function DefinitionCount(t: Tree): nat
    decreases Size(t), 0
  {
    ChildrenSize(t);
    (if t.FunctionDef? then 1 else 0) + DefinitionCountSeq(Children(t))
  }

  ghost function DefinitionCountSeq(s: seq<Tree>): nat
    decreases SizeSeq(s), 1
  {
    if s == [] then 0 else DefinitionCount(s[0]) + DefinitionCountSeq(s[1..])
  }

  /** One entry per definition: the catalog is exactly as long as the tree has `FunctionDef` nodes. */
  lemma ParseFunctionsCount(tree: Tree)
    ensures |ParseFunctions(Some(tree))| == DefinitionCount(tree)
  {
    var names := ParseFunctions(Some(tree));
    assert |multiset(names)| == |multiset(Collect(Subtrees(tree), DefinedName))|;
    PreorderCount(tree);
  }

  lemma {:induction false} PreorderCount(t: Tree)
    ensures |Collect(Subtrees(t), DefinedName)| == DefinitionCount(t)
    decreases Size(t), 0
  {
    ChildrenSize(t);
    PreorderCountSeq(Children(t));
    CollectAppend([t], SubtreesSeq(Children(t)), DefinedName);
    assert Collect([t], DefinedName) == DefinedName(t) + Collect([], DefinedName);
  }

  lemma {:induction false} PreorderCountSeq(s: seq<Tree>)
    ensures |Collect(SubtreesSeq(s), DefinedName)| == DefinitionCountSeq(s)
    decreases SizeSeq(s), 1
  {
    if s != [] {
      PreorderCount(s[0]);
      PreorderCountSeq(s[1..]);
      CollectAppend(Subtrees(s[0]), SubtreesSeq(s[1..]), DefinedName);
    }
  }
}
