/**
 * `build_call_graph` (app.py): a directed graph whose nodes are the names of
 * the function definitions and whose edge (a, b) says that the definition
 * kept under name a contains, anywhere below it (nested definitions
 * included), a call whose callee is the bare name b of a definition. The
 * definitions are first gathered into a dictionary keyed by name, so of
 * several definitions with one name only the last one walked counts. An
 * empty graph when the source does not parse.
 */
module CallGraph {
  import opened Wrappers
  import opened Syntax
  import opened AstWalk

  /** A directed graph with set semantics for nodes and edges, as `networkx.DiGraph`. */
  class DiGraph {
    var nodes: set<string>
    var edges: set<(string, string)>

    constructor ()
      ensures nodes == {} && edges == {}
    {
      nodes := {};
      edges := {};
    }

    /** `add_node`: adding a node that is present changes nothing. */
    method AddNode(n: string)
      modifies this
      ensures nodes == old(nodes) + {n}
      ensures edges == old(edges)
    {
      nodes := nodes + {n};
    }

    /** `add_edge`: adds both endpoints as nodes, and the edge once. */
    method AddEdge(u: string, v: string)
      modifies this
      ensures nodes == old(nodes) + {u, v}
      ensures edges == old(edges) + {(u, v)}
    {
      nodes := nodes + {u, v};
      edges := edges + {(u, v)};
    }
  }

  /** `n` is a function definition named `a`. */
  predicate Defines(n: Tree, a: string)
  {
    n.FunctionDef? && n.name == a
  }

  /**
   * `{node.name: node for node in walk if isinstance(node, ast.FunctionDef)}`:
   * later definitions overwrite earlier ones with the same name.
   */
  function LastDefinitions(order: seq<Tree>): (funcs: map<string, Tree>)
    ensures forall a :: a in funcs ==> Defines(funcs[a], a) && funcs[a] in order
    ensures forall n :: n in order && n.FunctionDef? ==> n.name in funcs
  {
    if order == [] then map[]
    else
      var funcs := LastDefinitions(order[..|order| - 1]);
      var n := order[|order| - 1];
      assert order == order[..|order| - 1] + [n];
      if n.FunctionDef? then funcs[n.name := n] else funcs
  }

  /** No node after position `i` defines `a`. */
  ghost predicate NotRedefinedAfter(order: seq<Tree>, i: nat, a: string)
  {
    forall j :: i < j < |order| ==> !Defines(order[j], a)
  }

  /**
   * The definition kept under a name is the last one walked: it stands at
   * some position, and no later position defines that name.
   */
  lemma {:induction false} LastDefinitionIsLast(order: seq<Tree>, a: string)
    requires a in LastDefinitions(order)
    ensures exists i: nat :: i < |order| && order[i] == LastDefinitions(order)[a] && NotRedefinedAfter(order, i, a)
    decreases |order|
  {
    var init := order[..|order| - 1];
    var n := order[|order| - 1];
    if Defines(n, a) {
      assert order[|order| - 1] == LastDefinitions(order)[a];
      assert NotRedefinedAfter(order, |order| - 1, a);
    } else {
      LastDefinitionIsLast(init, a);
      var i: nat :| i < |init| && init[i] == LastDefinitions(init)[a] && NotRedefinedAfter(init, i, a);
      LaterIsKept(order, i, a);
    }
  }

  lemma LaterIsKept(order: seq<Tree>, i: nat, a: string)
    requires order != [] && !Defines(order[|order| - 1], a)
    requires i < |order| - 1 && NotRedefinedAfter(order[..|order| - 1], i, a)
    requires a in LastDefinitions(order[..|order| - 1])
    ensures a in LastDefinitions(order)
    ensures LastDefinitions(order)[a] == LastDefinitions(order[..|order| - 1])[a]
    ensures NotRedefinedAfter(order, i, a)
  {
    var init := order[..|order| - 1];
    var n := order[|order| - 1];
    var kept := LastDefinitions(init);
    assert LastDefinitions(order) == if n.FunctionDef? then kept[n.name := n] else kept;
    assert n.FunctionDef? ==> n.name != a;
    forall j | i < j < |order| ensures !Defines(order[j], a) {
      if j < |order| - 1 {
        assert order[j] == init[j];
        assert !Defines(init[j], a);
      }
    }
  }

  /** The name a call is made to, when the callee is a bare `Name`. */
  function CalleeOf(n: Tree): seq<string>
  {
    if n.Call? && n.func.Name? then [n.func.id] else []
  }

  /**
   * Names called by bare name anywhere in `ast.walk(def)`, one entry per
   * call: a name is among them iff some `Call` below `def` (nested
   * definitions included) has that bare name as callee.
   */
  function Callees(def: Tree): (called: seq<string>)
    ensures forall b :: b in called <==> CallsByName(def, b)
  {
    forall b ensures b in Collect(WalkOrder(def), CalleeOf) <==> CallsByName(def, b) {
      CalleesByName(def, b);
    }
    Collect(WalkOrder(def), CalleeOf)
  }

  lemma CalleesByName(def: Tree, b: string)
    ensures b in Collect(WalkOrder(def), CalleeOf) <==> CallsByName(def, b)
  {
    CollectOverWalk(def, CalleeOf, b);
    if CallsByName(def, b) {
      var n :| n in Subtrees(def) && n.Call? && n.func.Name? && n.func.id == b;
      assert b in CalleeOf(n);
    }
  }

  /** The names in `called` that are kept definitions: the `called_func in funcs` test. */
  ghost function Resolved(funcs: map<string, Tree>, called: seq<string>): set<string>
  {
    set b | b in funcs.Keys && b in called
  }

  /** Edges from `caller` to each name in `called` that is a kept definition. */
  ghost function EdgesTo(funcs: map<string, Tree>, caller: string, called: seq<string>): set<(string, string)>
  {
    set b | b in Resolved(funcs, called) :: (caller, b)
  }

  lemma EdgesToAppend(funcs: map<string, Tree>, caller: string, s: seq<string>, t: seq<string>)
    ensures Resolved(funcs, s + t) == Resolved(funcs, s) + Resolved(funcs, t)
    ensures EdgesTo(funcs, caller, s + t) == EdgesTo(funcs, caller, s) + EdgesTo(funcs, caller, t)
  {
  }

  /** What one more walked node adds to the resolved names and to the edges. */
  lemma ResolvedStep(funcs: map<string, Tree>, caller: string, prefix: seq<string>, node: Tree)
    ensures Resolved(funcs, prefix + CalleeOf(node)) == Resolved(funcs, prefix) +
      (if node.Call? && node.func.Name? && node.func.id in funcs then {node.func.id} else {})
    ensures EdgesTo(funcs, caller, prefix + CalleeOf(node)) == EdgesTo(funcs, caller, prefix) +
      (if node.Call? && node.func.Name? && node.func.id in funcs then {(caller, node.func.id)} else {})
  {
    EdgesToAppend(funcs, caller, prefix, CalleeOf(node));
  }

  /** The edges contributed by the definitions kept under the names in `callers`. */
  ghost function CallEdges(funcs: map<string, Tree>, callers: set<string>): set<(string, string)>
  {
    set a, b | a in callers && a in funcs.Keys && b in funcs.Keys && b in Callees(funcs[a]) :: (a, b)
  }

  /**
   * The nodes of the call graph, the keys of the dictionary of definitions:
   * exactly the names of the function definitions in the tree.
   */
  function GraphNodes(parsed: Option<Tree>): (nodes: set<string>)
    ensures parsed.None? ==> nodes == {}
    ensures parsed.Some? ==> nodes == set n | n in Subtrees(parsed.value) && n.FunctionDef? :: n.name
  {
    match parsed
    case None => {}
    case Some(tree) =>
      WalkCoversSubtrees(tree);
      LastDefinitions(WalkOrder(tree)).Keys
  }

  /** The edges of the call graph: both endpoints are always nodes. */
  ghost function GraphEdges(parsed: Option<Tree>): (edges: set<(string, string)>)
    ensures forall e :: e in edges ==> e.0 in GraphNodes(parsed) && e.1 in GraphNodes(parsed)
  {
    match parsed
    case None => {}
    case Some(tree) =>
      var funcs := LastDefinitions(WalkOrder(tree));
      CallEdges(funcs, funcs.Keys)
  }

  lemma CallEdgesAdd(funcs: map<string, Tree>, done: set<string>, a: string)
    requires a in funcs
    ensures CallEdges(funcs, done + {a}) == CallEdges(funcs, done) + EdgesTo(funcs, a, Callees(funcs[a]))
  {
  }

  /**
   * One round of the outer loop of `build_call_graph`: add the caller as a
   * node, walk its kept definition, and add an edge for every call by bare
   * name to a kept definition.
   */
  method AddCallsOf(graph: DiGraph, funcs: map<string, Tree>, funcName: string)
    requires funcName in funcs
    modifies graph
    ensures graph.nodes == old(graph.nodes) + {funcName} + Resolved(funcs, Callees(funcs[funcName]))
    ensures graph.edges == old(graph.edges) + EdgesTo(funcs, funcName, Callees(funcs[funcName]))
  {
    graph.AddNode(funcName);
    var inner := Walk(funcs[funcName]);
    for j := 0 to |inner|
      invariant graph.nodes == old(graph.nodes) + {funcName} + Resolved(funcs, Collect(inner[..j], CalleeOf))
      invariant graph.edges == old(graph.edges) + EdgesTo(funcs, funcName, Collect(inner[..j], CalleeOf))
    {
      CollectSnoc(inner, j, CalleeOf);
      ResolvedStep(funcs, funcName, Collect(inner[..j], CalleeOf), inner[j]);
      var node := inner[j];
      if node.Call? && node.func.Name? {
        var calledFunc := node.func.id;
        if calledFunc in funcs {
          graph.AddEdge(funcName, calledFunc);
        }
      }
    }
    assert inner[..|inner|] == inner;
  }

  /** `build_call_graph`: add a node per kept definition, and an edge per call to a kept name. */
  method BuildCallGraph(parsed: Option<Tree>) returns (graph: DiGraph)
    ensures fresh(graph)
    ensures graph.nodes == GraphNodes(parsed)
    ensures graph.edges == GraphEdges(parsed)
  {
    graph := new DiGraph();
    match parsed {
      case None =>
      case Some(tree) =>
        var order := Walk(tree);
        var funcs := LastDefinitions(order);
        var pending := funcs.Keys;
        while pending != {}
          invariant pending <= funcs.Keys
          invariant funcs.Keys - pending <= graph.nodes <= funcs.Keys
          invariant graph.edges == CallEdges(funcs, funcs.Keys - pending)
          decreases pending
        {
          var funcName :| funcName in pending;
          AddCallsOf(graph, funcs, funcName);
          CallEdgesAdd(funcs, funcs.Keys - pending, funcName);
          assert funcs.Keys - (pending - {funcName}) == funcs.Keys - pending + {funcName};
          pending := pending - {funcName};
        }
    }
  }

  /** Without a parse, or without any function definition, the graph has no node and no edge. */
  lemma EmptyGraph(parsed: Option<Tree>)
    ensures GraphNodes(parsed) == {} <==>
      parsed.None? || forall n :: n in Subtrees(parsed.value) ==> !n.FunctionDef?
    ensures GraphNodes(parsed) == {} ==> GraphEdges(parsed) == {}
  {
    if parsed.Some? {
      if exists n :: n in Subtrees(parsed.value) && n.FunctionDef? {
        var n :| n in Subtrees(parsed.value) && n.FunctionDef?;
        assert n.name in GraphNodes(parsed);
      }
    }
  }

  /** Some call below `def` names `b` directly. */
  ghost predicate CallsByName(def: Tree, b: string)
  {
    exists n :: n in Subtrees(def) && n.Call? && n.func.Name? && n.func.id == b
  }

  /** The definition `build_call_graph` keeps under name `a`. */
  function KeptDefinition(tree: Tree, a: string): Tree
    requires a in GraphNodes(Some(tree))
  {
    LastDefinitions(WalkOrder(tree))[a]
  }

  /**
   * An edge (a, b) exists iff both names are defined and the definition kept
   * under a (the last one walked) holds a call to the bare name b. Self-loops
   * are edges like any other.
   */
  lemma CallEdgeIff(tree: Tree, a: string, b: string)
    ensures (a, b) in GraphEdges(Some(tree)) <==>
      a in GraphNodes(Some(tree)) && b in GraphNodes(Some(tree)) && CallsByName(KeptDefinition(tree, a), b)
  {
  }

  /**
   * A call inside a nested definition also gives an edge from every enclosing
   * kept definition, because `ast.walk(func_node)` descends into nested ones.
   */
  lemma NestedCallEdge(tree: Tree, a: string, nested: Tree, call: Tree, b: string)
    requires a in GraphNodes(Some(tree)) && b in GraphNodes(Some(tree))
    requires nested in Subtrees(KeptDefinition(tree, a)) && nested.FunctionDef?
    requires call in Subtrees(nested) && call.Call? && call.func.Name? && call.func.id == b
    ensures (a, b) in GraphEdges(Some(tree))
  {
    SubtreesTransitive(KeptDefinition(tree, a), nested, call);
    CallEdgeIff(tree, a, b);
  }

  /**
   * Of several definitions sharing a name, the one that contributes edges is
   * the last in walk order.
   */
  lemma KeptDefinitionIsLastWalked(tree: Tree, a: string)
    requires a in GraphNodes(Some(tree))
    ensures exists i: nat ::
      (i < |WalkOrder(tree)| && WalkOrder(tree)[i] == KeptDefinition(tree, a) && NotRedefinedAfter(WalkOrder(tree), i, a))
  {
    LastDefinitionIsLast(WalkOrder(tree), a);
  }
}
