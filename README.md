# Static analysis engine of the legacy code reengineering assistant

The assistant (`app.py`) parses a Python source unit and derives four facts
from its syntax tree. This project models those four analyses and the
tree walk they share:

- **Function catalog.** `parse_python_functions` lists the names of all
  `FunctionDef` nodes.
- **Usage index.** `find_variable_usage` gives the ascending, duplicate-free
  line numbers of the `Name` nodes with a given identifier.
- **Length report.** `find_long_functions` lists (name, body length) pairs
  for definitions whose body spans more lines than a threshold.
- **Call graph.** `build_call_graph` builds a directed graph from each kept
  definition to every defined name that it calls by bare name.

All four fall back to an empty result when the source does not parse.

Modules:

- `Syntax` (syntax.dfy) is the syntax tree.
  - It has one constructor per node kind the analyses tell apart:
    `FunctionDef`, `Call`, `Name` and `Other`.
  - `Children` gives the child nodes in `ast` field order.
  - `Subtrees` is a pre-order enumeration used as the reference for
    "every node of the tree".
- `AstWalk` (walk.dfy) is `ast.walk`.
  - The deque walk is a loop (`Walk`), proved equal to the breadth-first
    function `WalkOrder`.
  - `WalkOrder` is proved to be a permutation of `Subtrees`.
  - `Collect` models the list comprehensions and append loops over a walk.
- `FunctionCatalog` (catalog.dfy) is `parse_python_functions`.
- `UsageIndex` (usage.dfy) is `find_variable_usage`, including
  `sorted(set(...))`.
- `LengthReport` (length.dfy) is `find_long_functions`.
- `CallGraph` (callgraph.dfy) is `build_call_graph`.
  - `DiGraph` is a class that stands for the `networkx.DiGraph` it mutates.
  - `LastDefinitions` is the name-keyed dictionary of definitions.
- `Scenarios` (scenarios.dfy) holds two small concrete modules:
  - one whose catalog is not in pre-order;
  - one where a redefinition removes a call edge.

Parsing is an input: an analysis receives `Option<Tree>`. `None` stands
for every `except Exception` branch, which in practice means a source that
`ast.parse` rejects.

Points where the code's behaviour is easy to misread:

- **Catalog order.** The catalog is in the breadth-first order of
  `ast.walk` (app.py:38). A nested definition comes after later top-level
  ones (`Scenarios.NestedDefinitionComesLater`).
- **Catalog contents.** The catalog holds names only, one per `FunctionDef`
  node, duplicates included (app.py:38).
- **Length report input.** `find_long_functions` parses and walks the tree
  itself (app.py:58-60).
- **Empty bodies.** A definition with an empty body is skipped (app.py:63).
- **Body length.** The length is the line of the last body statement minus
  the line of the first, plus one (app.py:64). The `def` line does not enter.
- **Usage index matches.** Every `Name` node with the identifier counts,
  whether it is read, assigned or deleted (app.py:49).
- **Call graph nodes.** The nodes are the keys of a name-keyed dictionary
  (app.py:76-78). Of several definitions with one name, only the last one
  walked contributes edges (`Scenarios.RedefinitionDropsEdges`).

## Model

| member | source | states |
|---|---|---|
| Syntax.Children | app.py:38 | the child nodes `ast.walk` enqueues, in `ast` field order: a definition's arguments, body, then decorators and annotations; a call's callee, then its arguments |
| AstWalk.Walk | app.py:48 | the deque loop of `ast.walk` yields exactly the breadth-first order `WalkOrder(root)` |
| AstWalk.WalkCoversSubtrees | app.py:38 | the walk visits every node of the tree exactly once (a permutation of the pre-order enumeration) and starts at the root |
| AstWalk.CollectPermutation | app.py:38 | comprehending over two orders of the same nodes gives the same entries, each as often |
| AstWalk.CollectOverWalk | app.py:38 | an entry is produced by a comprehension over the walk iff some node of the tree produces it |
| FunctionCatalog.ParseFunctions | app.py:34-41 | empty without a parse; otherwise the same multiset of names as the `FunctionDef` nodes in pre-order, so duplicates are kept |
| FunctionCatalog.ParseFunctionsNames | app.py:38 | a name is listed iff the tree parses and some `FunctionDef` node, nested or not, carries it |
| FunctionCatalog.ParseFunctionsCount | app.py:38 | the catalog has exactly one entry per `FunctionDef` node, counted by structural recursion |
| UsageIndex.SortedDistinct | app.py:51 | `sorted(set(xs))` is strictly ascending and holds exactly the values of `xs` |
| UsageIndex.StrictlyIncreasingUnique | app.py:51 | two strictly ascending lists with the same elements are equal, so `sorted(set(xs))` is determined by its elements |
| UsageIndex.VariableUsage | app.py:43-53 | ascending without repetitions; a line is listed iff the tree parses and a `Name` node with that identifier sits on it |
| UsageIndex.FindVariableUsage | app.py:43-53 | the append loop over the walk followed by `sorted(set(...))` returns `VariableUsage` |
| UsageIndex.NoUsageIffNoName | app.py:48-53 | the result is empty iff the source does not parse or no `Name` node has the identifier |
| LengthReport.BodyLength | app.py:64 | the inclusive line span from the first body statement to the last: 1 for a single statement, at least 1 when the statements are in line order |
| LengthReport.LongFunctions | app.py:55-69 | a pair is reported iff some `FunctionDef` with a non-empty body has that name and that last-minus-first-plus-one length above the threshold; one entry per such definition, duplicates kept (same multiset as over the pre-order enumeration) |
| LengthReport.FindLongFunctions | app.py:55-69 | the nested checks of the loop over the walk return `LongFunctions` |
| LengthReport.LongFunctionsAntitone | app.py:65 | raising the threshold only deletes entries: the higher report is a subsequence of the lower and no longer |
| CallGraph.DiGraph.constructor | app.py:75 | a new graph has no nodes and no edges |
| CallGraph.DiGraph.AddNode | app.py:78 | adds the node, leaves the edges alone; adding a present node changes nothing |
| CallGraph.DiGraph.AddEdge | app.py:83 | adds the edge once and both endpoints as nodes |
| CallGraph.LastDefinitions | app.py:76 | every key maps to a walked definition of that name, and every walked definition's name is a key |
| CallGraph.LastDefinitionIsLast | app.py:76 | the definition kept under a name is the last one walked with that name |
| CallGraph.AddCallsOf | app.py:77-83 | one outer round adds the caller, every resolved callee of its kept definition as nodes, and one edge per resolved callee |
| CallGraph.BuildCallGraph | app.py:71-86 | the graph built has exactly `GraphNodes` as nodes and `GraphEdges` as edges, whatever order the dictionary is iterated in |
| CallGraph.GraphEdges | app.py:82-83 | both endpoints of every edge are nodes of the graph |
| CallGraph.Callees | app.py:79-81 | the names called anywhere in `ast.walk(func_node)`: a name is among them iff some `Call` below the definition, nested definitions included, has it as bare-name callee |
| CallGraph.GraphNodes | app.py:76-78 | no node without a parse; otherwise exactly the names of the `FunctionDef` nodes in the tree |
| CallGraph.EmptyGraph | app.py:73-86 | no node iff no parse or no `FunctionDef`; no node implies no edge |
| CallGraph.CallEdgeIff | app.py:79-83 | (a, b) is an edge iff a and b are both defined and the definition kept under a holds a call to the bare name b; self-loops included |
| CallGraph.NestedCallEdge | app.py:79 | a call inside a definition nested in a's kept definition gives an edge from a |
| CallGraph.KeptDefinitionIsLastWalked | app.py:76 | the definition whose calls become a's edges is the last `FunctionDef` named a in walk order |
| Scenarios.NestedDefinitionComesLater | app.py:38 | for `def outer(): def inner()` followed by `def after()` the catalog is `outer, after, inner`, while pre-order would give `outer, inner, after` |
| Scenarios.RedefinedCatalog | app.py:38 | a module defining `h` twice has the catalog `h, h` |
| Scenarios.RedefinitionDropsEdges | app.py:76-83 | when `def h(): h()` is followed by `def h(): pass`, the graph has the node `h` and no self-loop |

## Left out

- `ast.parse` is not modelled. The parse result is an input, and a failed parse is `None`.
- Line numbers are taken as given integers. Nothing checks that they fall within the source unit.
- Only the node kinds the analyses test are distinguished.
  - `AsyncFunctionDef`, `Lambda`, `ClassDef` and the other node kinds are `Other` nodes with their children.
  - The `ctx` child of a `Name` node is omitted, because no analysis inspects it.
- Insertion order is not modelled. The graph is modelled as two sets, not as the ordered node and edge lists of `networkx`.
  - The dictionary's iteration order is likewise not modelled: the build loop picks any pending name.
- The default threshold of 10 (app.py:55) is not modelled; the threshold is always an explicit argument.
- The Streamlit user interface is not modelled (app.py:8-30, app.py:110-179). This includes the reading of uploaded files and the `strip` of the queried name.
- `plot_call_graph` (app.py:88-95) is not modelled because it only draws with matplotlib.
- `execute_code_snippet` (app.py:97-108) is not modelled because it runs arbitrary code through `exec` and redirects stdout.
