/** Optional values: the result of `ast.parse`, where None stands for source that did not parse. */
module Wrappers {
  datatype Option<+T> = None | Some(value: T)
}

/**
 * Python's abstract syntax tree, reduced to the node kinds the analyses of
 * app.py inspect. Every node has a line number and an ordered list of child
 * nodes, in the order `ast.iter_child_nodes` yields them.
 */
module Syntax {

  datatype Tree =
      /** `ast.FunctionDef`: `params` is the `arguments` node, `body` the statements,
          `trailer` the decorators, return annotation and type parameters. */
    | FunctionDef(name: string, lineno: int, params: seq<Tree>, body: seq<Tree>, trailer: seq<Tree>)
      /** `ast.Call`: the callee expression `func`, then positional and keyword arguments. */
    | Call(lineno: int, func: Tree, args: seq<Tree>)
      /** `ast.Name`: an identifier reference, whatever its context (load, store, delete). */
    | Name(id: string, lineno: int)
      /** Every other node kind (module, statements, expressions, async and lambda definitions, ...). */
    | Other(lineno: int, children: seq<Tree>)

  /** The child nodes, in the order `ast.iter_child_nodes` yields them (field order). */
  function Children(t: Tree): seq<Tree>
  {
    match t
    case FunctionDef(_, _, params, body, trailer) => params + body + trailer
    case Call(_, func, args) => [func] + args
    case Name(_, _) => []
    case Other(_, children) => children
  }

  /** Number of nodes in a tree. */
  function Size(t: Tree): nat
  {
    match t
    case FunctionDef(_, _, params, body, trailer) => 1 + SizeSeq(params) + SizeSeq(body) + SizeSeq(trailer)
    case Call(_, func, args) => 1 + Size(func) + SizeSeq(args)
    case Name(_, _) => 1
    case Other(_, children) => 1 + SizeSeq(children)
  }

  /** Number of nodes in a sequence of trees. */
  function SizeSeq(s: seq<Tree>): nat
  {
    if s == [] then 0 else Size(s[0]) + SizeSeq(s[1..])
  }

  lemma {:induction false} SizeSeqAppend(a: seq<Tree>, b: seq<Tree>)
    ensures SizeSeq(a + b) == SizeSeq(a) + SizeSeq(b)
  {
    if a != [] {
      assert (a + b)[1..] == a[1..] + b;
      SizeSeqAppend(a[1..], b);
    } else {
      assert a + b == b;
    }
  }

  /** A node is one more than its children. */
  lemma ChildrenSize(t: Tree)
    ensures SizeSeq(Children(t)) == Size(t) - 1
  {
    match t
    case FunctionDef(_, _, params, body, trailer) =>
      SizeSeqAppend(params + body, trailer);
      SizeSeqAppend(params, body);
    case Call(_, func, args) =>
      SizeSeqAppend([func], args);
      assert [func][1..] == [];
    case Name(_, _) =>
    case Other(_, _) =>
  }

  /**
   * Every node of a tree, each occurrence once, in pre-order. This is the
   * reference enumeration against which the breadth-first walk is proved
   * complete.
   */
  ghost function Subtrees(t: Tree): seq<Tree>
    decreases Size(t), 0
  {
    ChildrenSize(t);
    [t] + SubtreesSeq(Children(t))
  }

  ghost function SubtreesSeq(s: seq<Tree>): seq<Tree>
    decreases SizeSeq(s), 1
  {
    if s == [] then [] else Subtrees(s[0]) + SubtreesSeq(s[1..])
  }

  lemma {:induction false} SubtreesSeqAppend(a: seq<Tree>, b: seq<Tree>)
    ensures SubtreesSeq(a + b) == SubtreesSeq(a) + SubtreesSeq(b)
    decreases |a|
  {
    if a == [] {
      assert a + b == b;
    } else {
      assert (a + b)[1..] == a[1..] + b;
      SubtreesSeqAppend(a[1..], b);
    }
  }

  /** A tree occurs in the enumeration of a sequence iff it occurs under one of its elements. */
  lemma {:induction false} InSubtreesSeq(s: seq<Tree>, x: Tree)
    ensures x in SubtreesSeq(s) <==> exists c :: c in s && x in Subtrees(c)
    decreases |s|
  {
    if s != [] {
      InSubtreesSeq(s[1..], x);
      assert SubtreesSeq(s) == Subtrees(s[0]) + SubtreesSeq(s[1..]);
      if x in Subtrees(s[0]) {
        assert s[0] in s;
      }
      if x in SubtreesSeq(s[1..]) {
        var c :| c in s[1..] && x in Subtrees(c);
        assert c in s;
      }
      forall c | c in s && x in Subtrees(c) ensures x in SubtreesSeq(s) {
        assert c == s[0] || c in s[1..];
      }
    }
  }

  /**
   * Being a subtree is transitive: a node below a nested definition is also
   * below every enclosing definition.
   */
  lemma {:induction false} SubtreesTransitive(t: Tree, m: Tree, x: Tree)
    requires m in Subtrees(t) && x in Subtrees(m)
    ensures x in Subtrees(t)
    decreases Size(t)
  {
    if m != t {
      InSubtreesSeq(Children(t), m);
      var c :| c in Children(t) && m in Subtrees(c);
      ChildSmaller(t, c);
      SubtreesTransitive(c, m, x);
      InSubtreesSeq(Children(t), x);
    }
  }

  lemma ChildSmaller(t: Tree, c: Tree)
    requires c in Children(t)
    ensures Size(c) < Size(t)
  {
    ChildrenSize(t);
    var i :| 0 <= i < |Children(t)| && Children(t)[i] == c;
    ElementSize(Children(t), i);
  }

  lemma {:induction false} ElementSize(s: seq<Tree>, i: nat)
    requires i < |s|
    ensures Size(s[i]) <= SizeSeq(s)
  {
    if i > 0 {
      ElementSize(s[1..], i - 1);
    }
  }
}
