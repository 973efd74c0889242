# Feature-graph construction passes of features-javac, in Dafny

This project models the layer of features-javac that adds semantic edges to a program's feature graph.
By the time it runs, the graph already holds a node for each syntax-tree element and edges from syntax
nodes to their TOKEN nodes. The model covers three parts:

- **Dataflow edge linker** (`Dataflow`, after `DataflowOutputsScanner`). A pre-order walk of the
  compilation unit carries an immutable (class, method) context. It starts as (null, null). A class
  declaration replaces the class part for its own subtree, and a method declaration replaces the method
  part. At each identifier and variable declaration, the linker looks up the analysis results for the
  context. For every candidate in the node's last-write (last-use) possible set, `linkTokens` adds a
  LAST_WRITE (LAST_USE) edge for every pair of (TOKEN successor of the node, TOKEN successor of the
  candidate). Edges therefore run from the current node's tokens to the candidate's tokens.
- **Return-flow linker** (`ReturnsTo`, after `ReturnsToScanner`). For each method with a body, a
  return collector scans the body. Each `return` that has an expression overwrites the collected
  identifier list, so only the last such return counts. The collector also enters local and anonymous
  classes in the body. Each collected identifier that has a node gets a RETURNS_TO edge from every one
  of its TOKEN successors to the method's own node. The scan then goes on into the method's children.
- **Node allocator** (`Nodes`, after `FeatureNode`). A post-incrementing counter of Java type `long`
  hands out node ids.

Structure. The syntax tree is a datatype (`Syntax.Tree`), and every element carries an id that stands
for javac's reference identity. The graph is a class (`Graph.FeatureGraph`) with two fields. The
skeleton holds `getFeatureNode` and the successor relation, and neither pass changes it. The edge set
is a set of (source, destination, kind) triples, and `putEdgeValue` inserts into it. Both scanners are
classes whose methods follow the Java visitors. Each pass is proved against a specification function.
Every method ensures `edges == old(edges) + F(...)`, so both passes only add edges. The lemmas then say
what `F` contains.

## Model

| member | source | states |
|---|---|---|
| Nodes.NodeAllocator.constructor | src/main/java/uk/ac/cam/acr31/features/javac/graph/FeatureNode.java:23 | the counter starts at 0 |
| Nodes.NodeAllocator.Create | src/main/java/uk/ac/cam/acr31/features/javac/graph/FeatureNode.java:31-33 | the new node's id is the counter value before the call, its type and contents are the arguments, and the counter moves on by one (with Java `long` wrap-around at the top); the id is the first of the sequence AllocatedIds gives for the old counter, and the rest of that sequence starts at the new counter |
| Nodes.AllocatedIdsAreConsecutive | src/main/java/uk/ac/cam/acr31/features/javac/graph/FeatureNode.java:23-32 | while the counter does not wrap, the k ids from successive `create` calls are start, start+1, ..., so they are distinct and strictly increasing |
| Nodes.FirstIdsFromZero | src/main/java/uk/ac/cam/acr31/features/javac/graph/FeatureNode.java:23 | from a fresh counter, the i-th node created has id i |
| Graph.Skeleton.GetFeatureNode | src/main/java/uk/ac/cam/acr31/features/javac/DataflowOutputsScanner.java:98-101 | the result is null exactly for elements with no registered node; otherwise it is that element's registered node, which is a node of the graph |
| Graph.FeatureGraph.PutEdgeValue | src/main/java/uk/ac/cam/acr31/features/javac/DataflowOutputsScanner.java:119 | inserts one typed edge and changes nothing else |
| Dataflow.LinkedEdges | src/main/java/uk/ac/cam/acr31/features/javac/DataflowOutputsScanner.java:107-121 | no edge when source or dest is null; otherwise an edge for every (TOKEN successor of source, TOKEN successor of dest) pair, and every edge is of the given kind between such tokens |
| Dataflow.ProductCardinality | src/main/java/uk/ac/cam/acr31/features/javac/DataflowOutputsScanner.java:117-121 | the nested loops give exactly one edge per pair: the count is the product of the two set sizes |
| Dataflow.LinkedEdgesCount | src/main/java/uk/ac/cam/acr31/features/javac/DataflowOutputsScanner.java:112-121 | `linkTokens` adds exactly (number of source tokens) x (number of dest tokens) edges, whether or not either size is 1, and none if either is 0 |
| Dataflow.LinkTokens | src/main/java/uk/ac/cam/acr31/features/javac/DataflowOutputsScanner.java:107-122 | the graph gains exactly the edges of LinkedEdges; the size check has no effect |
| Dataflow.ResultEdgesIff | src/main/java/uk/ac/cam/acr31/features/javac/DataflowOutputsScanner.java:95-105 | an edge comes from `applyAnalysisResult` exactly when the node has a possible set and a node, the source is one of the node's tokens, and the destination is a token of some candidate with a node |
| Dataflow.ApplyEdgesIff | src/main/java/uk/ac/cam/acr31/features/javac/DataflowOutputsScanner.java:79-93 | `apply` adds an edge exactly when class and method are non-null, both have results, and the LAST_WRITE or LAST_USE facts justify it, directed from the node's tokens to the candidate's tokens |
| Dataflow.DataflowOutputsScanner.constructor | src/main/java/uk/ac/cam/acr31/features/javac/DataflowOutputsScanner.java:50-55 | keeps the analysis results and the graph |
| Dataflow.DataflowOutputsScanner.Apply | src/main/java/uk/ac/cam/acr31/features/javac/DataflowOutputsScanner.java:79-93 | the graph gains exactly the edges of ApplyEdges; nothing for a null context, a class without results, or a method without results |
| Dataflow.DataflowOutputsScanner.ApplyAnalysisResult | src/main/java/uk/ac/cam/acr31/features/javac/DataflowOutputsScanner.java:95-105 | the loop over the possible set adds exactly the edges linking the node to every candidate; a null possible set adds nothing |
| Dataflow.DataflowOutputsScanner.Scan | src/main/java/uk/ac/cam/acr31/features/javac/DataflowOutputsScanner.java:57-77 | the visit of a subtree adds exactly the edges of its sites, each under the context it is reached in |
| Dataflow.DataflowOutputsScanner.ScanAll | src/main/java/uk/ac/cam/acr31/features/javac/DataflowOutputsScanner.java:57-65 | the children are visited in turn with the same context, and the edges of all of them are added |
| Dataflow.AddToGraph | src/main/java/uk/ac/cam/acr31/features/javac/DataflowOutputsScanner.java:42-48 | the pass starts from the (null, null) context and only adds edges: the edges of every site of the compilation unit |
| Dataflow.SitesAreUseSites | src/main/java/uk/ac/cam/acr31/features/javac/DataflowOutputsScanner.java:67-77 | the walk reaches every identifier and variable declaration, and no other element triggers a lookup |
| Dataflow.SitesAllAreUseSites | src/main/java/uk/ac/cam/acr31/features/javac/DataflowOutputsScanner.java:67-77 | the same for a list of sibling subtrees |
| Dataflow.SiteContexts | src/main/java/uk/ac/cam/acr31/features/javac/DataflowOutputsScanner.java:58-65 | a site's class (method) is either the one the walk started with or one declared inside the subtree; below a class (method) declaration every site's class (method) is declared inside that declaration, never the outer one |
| Dataflow.SitesAllContexts | src/main/java/uk/ac/cam/acr31/features/javac/DataflowOutputsScanner.java:58-65 | the same for a list of siblings, and per sibling: every site belongs to one sibling, and its class and method are either the starting ones or declared inside that same sibling, so a sibling's declarations never set another sibling's context |
| Dataflow.SitesAllSiblings | src/main/java/uk/ac/cam/acr31/features/javac/DataflowOutputsScanner.java:57-65 | the sites of a list of siblings are exactly the sites of the individual siblings, each under the shared context |
| Dataflow.SitesUnfold | src/main/java/uk/ac/cam/acr31/features/javac/DataflowOutputsScanner.java:57-77 | one step of the walk: a subtree's sites are the element itself when it is an identifier or variable declaration, plus the sites of its children under the context the element sets |
| Dataflow.SiteContextIsInnermost | src/main/java/uk/ac/cam/acr31/features/javac/DataflowOutputsScanner.java:57-77 | the walk pairs each identifier and variable declaration below a subtree with its innermost enclosing class and method declarations on the path from the subtree's root (the starting context where there is none), and produces no other pair |
| Dataflow.NoContextLeak | src/main/java/uk/ac/cam/acr31/features/javac/DataflowOutputsScanner.java:58-65 | no identifier of a subtree is looked up under a method that neither encloses the subtree nor is declared inside it |
| Dataflow.NoEdgesOutsideMethods | src/main/java/uk/ac/cam/acr31/features/javac/DataflowOutputsScanner.java:80-82 | with no enclosing method and no method declared inside the subtree, the pass adds no edge |
| Dataflow.SiteEdgesShape | src/main/java/uk/ac/cam/acr31/features/javac/DataflowOutputsScanner.java:91-92 | every edge the pass adds is LAST_WRITE or LAST_USE and runs between TOKEN nodes |
| Dataflow.PassEdgesIff | src/main/java/uk/ac/cam/acr31/features/javac/DataflowOutputsScanner.java:42-48 | an edge is added by the whole pass exactly when some identifier or variable site, under its own context, justifies it; equivalently, exactly when some identifier or variable declaration justifies it under the innermost class and method declarations on its path from the root (null where there is none) |
| ReturnsTo.CollectIdentifiersExact | src/main/java/uk/ac/cam/acr31/features/javac/syntactic/ReturnsToScanner.java:52-54 | the identifiers collected from a return expression are exactly the identifier elements inside it |
| ReturnsTo.LastReturnIsLast | src/main/java/uk/ac/cam/acr31/features/javac/syntactic/ReturnsToScanner.java:43-57 | after a scan the collector holds the identifiers of the last expression-bearing return met, or what it held before if there is none |
| ReturnsTo.EarlierReturnOverwritten | src/main/java/uk/ac/cam/acr31/features/javac/syntactic/ReturnsToScanner.java:52-54 | a concrete case: for a body `{ return a; return b; }` the collector ends with the identifiers of `b` only (LastReturnIsLast is the general statement) |
| ReturnsTo.NestedReturnOverwrites | src/main/java/uk/ac/cam/acr31/features/javac/syntactic/ReturnsToScanner.java:43-57 | a return inside an anonymous class in the body can be the one whose identifiers are kept |
| ReturnsTo.ScannedMethodsExact | src/main/java/uk/ac/cam/acr31/features/javac/syntactic/ReturnsToScanner.java:59-79 | the scanner handles only methods with a body, and handles all of them, nested ones included |
| ReturnsTo.MethodEdgesIff | src/main/java/uk/ac/cam/acr31/features/javac/syntactic/ReturnsToScanner.java:64-77 | one method gets a RETURNS_TO edge from a TOKEN successor of identifier i to its own node exactly when i occurs in the expression of the body's last expression-bearing return and has a node; with no such return it gets none |
| ReturnsTo.ReturnsToEdgesIff | src/main/java/uk/ac/cam/acr31/features/javac/syntactic/ReturnsToScanner.java:59-79 | the whole pass adds exactly those edges, over all methods the scanner handles |
| ReturnsTo.ReturnCollector.constructor | src/main/java/uk/ac/cam/acr31/features/javac/syntactic/ReturnsToScanner.java:45 | the collected list starts out null |
| ReturnsTo.ReturnCollector.VisitReturn | src/main/java/uk/ac/cam/acr31/features/javac/syntactic/ReturnsToScanner.java:47-56 | a bare return leaves the field unchanged; otherwise the field becomes the expression's identifiers |
| ReturnsTo.ReturnCollector.Scan | src/main/java/uk/ac/cam/acr31/features/javac/syntactic/ReturnsToScanner.java:43-57 | the field afterwards is LastReturn of the tree and the field before |
| ReturnsTo.ReturnCollector.ScanAll | src/main/java/uk/ac/cam/acr31/features/javac/syntactic/ReturnsToScanner.java:43-57 | the same for a list of siblings scanned in order |
| ReturnsTo.ReturnsToScanner.constructor | src/main/java/uk/ac/cam/acr31/features/javac/syntactic/ReturnsToScanner.java:39-41 | keeps the graph |
| ReturnsTo.ReturnsToScanner.VisitMethod | src/main/java/uk/ac/cam/acr31/features/javac/syntactic/ReturnsToScanner.java:59-79 | a bodiless method adds nothing and is not entered; otherwise the loops add the method's RETURNS_TO edges and the children are scanned |
| ReturnsTo.ReturnsToScanner.LinkToMethod | src/main/java/uk/ac/cam/acr31/features/javac/syntactic/ReturnsToScanner.java:72-74 | the innermost loop adds one RETURNS_TO edge from each given token to the method's node and nothing else |
| ReturnsTo.ReturnsToScanner.Scan | src/main/java/uk/ac/cam/acr31/features/javac/syntactic/ReturnsToScanner.java:59-79 | the scan of a subtree adds exactly the edges of the methods it handles |
| ReturnsTo.ReturnsToScanner.ScanAll | src/main/java/uk/ac/cam/acr31/features/javac/syntactic/ReturnsToScanner.java:59-79 | the same for a list of siblings |
| ReturnsTo.AddToGraph | src/main/java/uk/ac/cam/acr31/features/javac/syntactic/ReturnsToScanner.java:33-37 | the pass only adds edges: the RETURNS_TO edges of every method it handles |

## Left out

- The javac tree and its visitor dispatch. The tree is a datatype with the six kinds the passes
  distinguish, and every other kind is `Other`. Each element keeps its children in `TreeScanner` order.
  A method's children are its header parts followed by its body.
- The Checker Framework dataflow analysis. Its results are given as maps from an element to its
  possible set, and a missing entry plays the part of a null `getValue`.
- `FeatureGraph`, `ScanContext`, `IdentifierCollector`, `EdgeType` and `NodeType` are not part of this
  model.
  - `successors(n, TOKEN)` is `Graph.Skeleton.TokenSuccessors`: the set of successors whose type is
    TOKEN. It is defined only for nodes of the graph, and the skeleton's `Valid()` says every registered
    node is one.
  - `successors` is read from the skeleton as it was before the pass, whereas the Java code reads the
    same graph that `putEdgeValue` writes to. Both passes add edges only out of TOKEN nodes, so the two
    agree as long as no registered node is itself a TOKEN node. The model does not capture a pass that
    would see its own earlier edges through a registered TOKEN node.
  - `putEdgeValue` inserts a triple. Whether a later value for the same ordered pair replaces an
    earlier one is not modelled.
  - `withClassTree` and `withMethodTree` are `Dataflow.ScanContext.WithClassTree` and
    `Dataflow.ScanContext.WithMethodTree`. Each replaces one part of an immutable pair.
  - `IdentifierCollector` collects every identifier element of the expression in scan order.
  - `EdgeType` is limited to the three kinds these passes create. `NodeType` only tells TOKEN apart from
    everything else.
- The ReturnsTo scanner does not null-check the method's own node. The return-flow methods therefore
  require every method with a body that they handle to have a node (`MethodsRegistered`).
- The static counter is an allocator object, so creating several allocators is possible in the model
  but not in the Java code. Thread safety of the counter is not modelled.
- AutoValue's generated `equals` is modelled by datatype equality: two nodes are equal when all three
  fields are. `hashCode` is not modelled, because sets and maps of datatype values need no hash.
- The commented-out diagnostic for a successor count other than 1 is not modelled: it has no effect.
- Iteration order over Java sets is not modelled. The loops pick any remaining element, and the final
  edge set does not depend on the order.
