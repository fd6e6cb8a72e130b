/** Small parsed modules, with what the analyses of app.py yield on them. */
module Scenarios {
  import opened Wrappers
  import opened Syntax
  import opened AstWalk
  import opened FunctionCatalog
  import opened CallGraph

  /** One turn of the walk: pop `a` from the front, push its children at the back. */
  lemma Step(a: Tree, rest: seq<Tree>, kids: seq<Tree>, after: seq<Tree>)
    requires Children(a) == kids
    requires BfsFrom(rest + kids) == after
    ensures BfsFrom([a] + rest) == [a] + after
  {
    assert ([a] + rest)[0] == a && ([a] + rest)[1..] == rest;
  }

  /** A queue of leaves is walked as it stands. */
  lemma {:induction false} LeavesWalked(q: seq<Tree>)
    requires forall k :: 0 <= k < |q| ==> Children(q[k]) == []
    ensures BfsFrom(q) == q
    decreases |q|
  {
    if q != [] {
      LeavesWalked(q[1..]);
      assert q[1..] + [] == q[1..];
      Step(q[0], q[1..], [], q[1..]);
      assert [q[0]] + q[1..] == q;
    }
  }

  /** `def inner(): pass` on lines 2-3. */
  function Inner(): Tree { FunctionDef("inner", 2, [], [Other(3, [])], []) }

  /** `def outer():` on line 1, whose body is the definition of `inner`. */
  function Outer(): Tree { FunctionDef("outer", 1, [], [Inner()], []) }

  /** `def after(): pass` on lines 4-5. */
  function After(): Tree { FunctionDef("after", 4, [], [Other(5, [])], []) }

  /** The module holding `outer` and then `after` (argument lists left out). */
  function NestedModule(): Tree { Other(0, [Outer(), After()]) }

  lemma WalkInner(inner: Tree, pass5: Tree, pass3: Tree)
    requires Children(inner) == [pass3] && Children(pass5) == [] && Children(pass3) == []
    ensures BfsFrom([inner, pass5]) == [inner, pass5, pass3]
  {
    LeavesWalked([pass5, pass3]);
    Step(inner, [pass5], [pass3], [pass5, pass3]);
  }

  lemma WalkAfter(after: Tree, inner: Tree, pass5: Tree, pass3: Tree)
    requires Children(after) == [pass5]
    requires Children(inner) == [pass3] && Children(pass5) == [] && Children(pass3) == []
    ensures BfsFrom([after, inner]) == [after, inner, pass5, pass3]
  {
    WalkInner(inner, pass5, pass3);
    Step(after, [inner], [pass5], [inner, pass5, pass3]);
  }

  lemma WalkOuter(outer: Tree, after: Tree, inner: Tree, pass5: Tree, pass3: Tree)
    requires Children(outer) == [inner] && Children(after) == [pass5]
    requires Children(inner) == [pass3] && Children(pass5) == [] && Children(pass3) == []
    ensures BfsFrom([outer, after]) == [outer, after, inner, pass5, pass3]
  {
    WalkAfter(after, inner, pass5, pass3);
    Step(outer, [after], [inner], [after, inner, pass5, pass3]);
  }

  /**
   * The walk of the nested module. The definitions are written without their
   * `arguments` node (`params == []`), which Python's tree always has, so this
   * is the walk of a reduced tree; an argument node would only add leaves and
   * does not change, in this module, which definitions the walk meets or in
   * what order.
   */
  lemma NestedWalkOrder()
    ensures WalkOrder(NestedModule()) == [NestedModule(), Outer(), After(), Inner(), Other(5, []), Other(3, [])]
  {
    var top, outer, after := NestedModule(), Outer(), After();
    WalkOuter(outer, after, Inner(), Other(5, []), Other(3, []));
    Step(top, [], [outer, after], [outer, after, Inner(), Other(5, []), Other(3, [])]);
    assert [top] + [] == [top];
  }

  lemma NestedPreorder()
    ensures Subtrees(NestedModule()) == [NestedModule(), Outer(), Inner(), Other(3, []), After(), Other(5, [])]
  {
  }

  lemma NamesInWalkOrder()
    ensures Collect([NestedModule(), Outer(), After(), Inner(), Other(5, []), Other(3, [])], DefinedName)
      == ["outer", "after", "inner"]
  {
  }

  lemma NamesInPreorder()
    ensures Collect([NestedModule(), Outer(), Inner(), Other(3, []), After(), Other(5, [])], DefinedName)
      == ["outer", "inner", "after"]
  {
  }

  /**
   * The walk reaches `after` before `inner`, so the catalog lists a nested
   * definition after the later top-level one: it is not in pre-order.
   */
  lemma NestedDefinitionComesLater()
    ensures ParseFunctions(Some(NestedModule())) == ["outer", "after", "inner"]
    ensures Collect(Subtrees(NestedModule()), DefinedName) == ["outer", "inner", "after"]
  {
    NestedWalkOrder();
    NamesInWalkOrder();
    NestedPreorder();
    NamesInPreorder();
  }

  /** `h()` on line 2, as an expression statement. */
  function CallH(): Tree { Other(2, [Call(2, Name("h", 2), [])]) }

  /** `def h(): h()` on lines 1-2. */
  function FirstH(): Tree { FunctionDef("h", 1, [], [CallH()], []) }

  /** `def h(): pass` on lines 3-4, redefining `h`. */
  function SecondH(): Tree { FunctionDef("h", 3, [], [Other(4, [])], []) }

  function RedefinedModule(): Tree { Other(0, [FirstH(), SecondH()]) }

  /**
   * The walk of the module that redefines `h`, again with the definitions'
   * `arguments` nodes left out of the tree.
   */
  lemma RedefinedWalkOrder()
    ensures WalkOrder(RedefinedModule()) ==
      [RedefinedModule(), FirstH(), SecondH(), CallH(), Other(4, []), Call(2, Name("h", 2), []), Name("h", 2)]
  {
    var top, h1, h2, stmt := RedefinedModule(), FirstH(), SecondH(), CallH();
    var name := Name("h", 2);
    var call, pass := Call(2, name, []), Other(4, []);
    assert BfsFrom([pass, call]) == [pass, call, name] by {
      LeavesWalked([name]);
      assert [] + [name] == [name];
      Step(call, [], [name], [name]);
      assert [call] + [] == [call];
      Step(pass, [call], [], [call, name]);
      assert [pass] + [call] == [pass, call];
    }
    assert BfsFrom([h2, stmt]) == [h2, stmt, pass, call, name] by {
      assert [pass] + [call] == [pass, call];
      Step(stmt, [pass], [call], [pass, call, name]);
      assert [stmt] + [pass] == [stmt, pass];
      Step(h2, [stmt], [pass], [stmt, pass, call, name]);
      assert [h2] + [stmt] == [h2, stmt];
    }
    assert BfsFrom([h1, h2]) == [h1, h2, stmt, pass, call, name] by {
      assert [h2] + [stmt] == [h2, stmt];
      Step(h1, [h2], [stmt], [h2, stmt, pass, call, name]);
      assert [h1] + [h2] == [h1, h2];
    }
    assert [] + [h1, h2] == [h1, h2];
    Step(top, [], [h1, h2], [h1, h2, stmt, pass, call, name]);
    assert [top] + [] == [top];
  }

  lemma {:induction false} NoDefinitionsAfter(prefix: seq<Tree>, tail: seq<Tree>)
    requires forall n :: n in tail ==> !n.FunctionDef?
    ensures LastDefinitions(prefix + tail) == LastDefinitions(prefix)
    decreases |tail|
  {
    if tail == [] {
      assert prefix + tail == prefix;
    } else {
      var init := tail[..|tail| - 1];
      assert (prefix + tail)[..|prefix + tail| - 1] == prefix + init;
      assert tail[|tail| - 1] in tail;
      NoDefinitionsAfter(prefix, init);
    }
  }

  /** The dictionary comprehension, one more node walked. */
  lemma KeepSnoc(s: seq<Tree>, n: Tree)
    ensures LastDefinitions(s + [n]) == if n.FunctionDef? then LastDefinitions(s)[n.name := n] else LastDefinitions(s)
  {
    assert (s + [n])[..|s + [n]| - 1] == s;
  }

  lemma KeptOfTwo(top: Tree, h1: Tree, h2: Tree)
    requires !top.FunctionDef? && Defines(h1, "h") && Defines(h2, "h")
    ensures LastDefinitions([top, h1, h2]) == map["h" := h2]
  {
    assert LastDefinitions([top]) == map[] by {
      KeepSnoc([], top);
      assert [] + [top] == [top];
    }
    assert LastDefinitions([top, h1]) == map["h" := h1] by {
      KeepSnoc([top], h1);
      assert [top] + [h1] == [top, h1];
    }
    KeepSnoc([top, h1], h2);
    assert [top, h1] + [h2] == [top, h1, h2];
  }

  lemma RedefinedKept()
    ensures LastDefinitions(WalkOrder(RedefinedModule())) == map["h" := SecondH()]
  {
    RedefinedWalkOrder();
    var tail := [CallH(), Other(4, []), Call(2, Name("h", 2), []), Name("h", 2)];
    assert WalkOrder(RedefinedModule()) == [RedefinedModule(), FirstH(), SecondH()] + tail;
    NoDefinitionsAfter([RedefinedModule(), FirstH(), SecondH()], tail);
    KeptOfTwo(RedefinedModule(), FirstH(), SecondH());
  }

  /** A definition whose walk holds no call has no callee. */
  lemma NoCallees(def: Tree, pass: Tree)
    requires def.FunctionDef? && def.params == [] && def.body == [pass] && def.trailer == []
    requires pass.Other? && pass.children == []
    ensures Callees(def) == []
  {
    LeavesWalked([pass]);
    assert [] + [pass] == [pass];
    Step(def, [], [pass], [pass]);
    assert [def] + [] == [def];
    assert Collect([def, pass][1..], CalleeOf) == [];
  }

  /** The catalog keeps both definitions of `h`, one entry each. */
  lemma RedefinedCatalog()
    ensures ParseFunctions(Some(RedefinedModule())) == ["h", "h"]
  {
    RedefinedWalkOrder();
    var order := [RedefinedModule(), FirstH(), SecondH(), CallH(), Other(4, []), Call(2, Name("h", 2), []), Name("h", 2)];
    assert Collect(order[3..], DefinedName) == [] by {
      assert Collect(order[6..], DefinedName) == [];
      assert Collect(order[5..], DefinedName) == [];
      assert Collect(order[4..], DefinedName) == [];
    }
    assert Collect(order[2..], DefinedName) == ["h"];
    assert Collect(order[1..], DefinedName) == ["h", "h"];
  }

  /**
   * The first `h` calls `h`, but the second `h` replaces it in the name-keyed
   * dictionary: the graph has the one node `h` and no edge, not the self-loop
   * the first definition would give.
   */
  lemma RedefinitionDropsEdges()
    ensures GraphNodes(Some(RedefinedModule())) == {"h"}
    ensures GraphEdges(Some(RedefinedModule())) == {}
  {
    var funcs := LastDefinitions(WalkOrder(RedefinedModule()));
    RedefinedKept();
    NoCallees(SecondH(), Other(4, []));
    assert CallEdges(funcs, funcs.Keys) == {} by {
      assert funcs.Keys == {"h"} && Callees(funcs["h"]) == [];
    }
  }
}
