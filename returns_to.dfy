/**
 * The return-flow linker (ReturnsToScanner.java): for every method with a body, the identifiers of
 * the last expression-bearing `return` found in the body get RETURNS_TO edges from their TOKEN
 * successors to the method's own node.
 */
module ReturnsTo {
  import opened Wrappers
  import opened Nodes
  import opened Syntax
  import opened Graph

  // ---------------------------------------------------------------------------------------------
  // Specification

  /** The identifier collector: every identifier reference in an expression, in scan order. */
  function CollectIdentifiers(t: Tree): seq<TreeId>
    decreases t
  {
    match t
    case ClassDecl(_, members) => CollectIdentifiersAll(members)
    case MethodDecl(_, header, body) =>
      CollectIdentifiersAll(header) + (if body.Some? then CollectIdentifiers(body.value) else [])
    case Identifier(id) => [id]
    case VariableDecl(_, parts) => CollectIdentifiersAll(parts)
    case Return(_, expr) => if expr.Some? then CollectIdentifiers(expr.value) else []
    case Other(_, children) => CollectIdentifiersAll(children)
  }

  function CollectIdentifiersAll(ts: seq<Tree>): seq<TreeId>
    decreases ts
  {
    if ts == [] then [] else CollectIdentifiersAll(ts[..|ts| - 1]) + CollectIdentifiers(ts[|ts| - 1])
  }

  /** What is collected is exactly the ids of the identifier elements of the expression. */
  lemma {:induction false} CollectIdentifiersExact(t: Tree)
    ensures forall id :: id in CollectIdentifiers(t) <==> exists s :: s in Subtrees(t) && s.Identifier? && s.id == id
    decreases t
  {
    match t
    case ClassDecl(_, members) =>
      CollectIdentifiersAllExact(members);
    case MethodDecl(_, header, body) =>
      CollectIdentifiersAllExact(header);
      if body.Some? {
        CollectIdentifiersExact(body.value);
      }
    case Identifier(id) =>
      assert Subtrees(t) == {t};
    case VariableDecl(_, parts) =>
      CollectIdentifiersAllExact(parts);
    case Return(_, expr) =>
      if expr.Some? {
        CollectIdentifiersExact(expr.value);
      }
    case Other(_, children) =>
      CollectIdentifiersAllExact(children);
  }

  lemma {:induction false} CollectIdentifiersAllExact(ts: seq<Tree>)
    ensures forall id :: id in CollectIdentifiersAll(ts) <==> exists s :: s in SubtreesAll(ts) && s.Identifier? && s.id == id
    decreases ts
  {
    if ts != [] {
      CollectIdentifiersAllExact(ts[..|ts| - 1]);
      CollectIdentifiersExact(ts[|ts| - 1]);
    }
  }

  /**
   * The return collector's field after scanning `t`, starting from `acc`: each `return` with an
   * expression overwrites it with that expression's identifiers, a bare `return` leaves it alone,
   * and the collector does not look inside a return's expression.
   */
  function LastReturn(t: Tree, acc: Option<seq<TreeId>>): Option<seq<TreeId>>
    decreases t
  {
    match t
    case ClassDecl(_, members) => LastReturnAll(members, acc)
    case MethodDecl(_, header, body) =>
      var afterHeader := LastReturnAll(header, acc);
      if body.Some? then LastReturn(body.value, afterHeader) else afterHeader
    case Identifier(_) => acc
    case VariableDecl(_, parts) => LastReturnAll(parts, acc)
    case Return(_, expr) => if expr.Some? then Some(CollectIdentifiers(expr.value)) else acc
    case Other(_, children) => LastReturnAll(children, acc)
  }

  function LastReturnAll(ts: seq<Tree>, acc: Option<seq<TreeId>>): Option<seq<TreeId>>
    decreases ts
  {
    if ts == [] then acc else LastReturn(ts[|ts| - 1], LastReturnAll(ts[..|ts| - 1], acc))
  }

  /** The expressions of the expression-bearing returns of `t`, in the order the collector meets them. */
  function ReturnExprs(t: Tree): seq<Tree>
    decreases t
  {
    match t
    case ClassDecl(_, members) => ReturnExprsAll(members)
    case MethodDecl(_, header, body) =>
      ReturnExprsAll(header) + (if body.Some? then ReturnExprs(body.value) else [])
    case Identifier(_) => []
    case VariableDecl(_, parts) => ReturnExprsAll(parts)
    case Return(_, expr) => if expr.Some? then [expr.value] else []
    case Other(_, children) => ReturnExprsAll(children)
  }

  function ReturnExprsAll(ts: seq<Tree>): seq<Tree>
    decreases ts
  {
    if ts == [] then [] else ReturnExprsAll(ts[..|ts| - 1]) + ReturnExprs(ts[|ts| - 1])
  }

  /** Only the last expression-bearing return counts; with none, the collector keeps what it had. */
  lemma {:induction false} LastReturnIsLast(t: Tree, acc: Option<seq<TreeId>>)
    ensures LastReturn(t, acc) == if ReturnExprs(t) == [] then acc else Some(CollectIdentifiers(Last(ReturnExprs(t))))
    decreases t
  {
    match t
    case ClassDecl(_, members) =>
      LastReturnAllIsLast(members, acc);
    case MethodDecl(_, header, body) =>
      LastReturnAllIsLast(header, acc);
      if body.Some? {
        LastReturnIsLast(body.value, LastReturnAll(header, acc));
      }
    case Identifier(_) =>
    case VariableDecl(_, parts) =>
      LastReturnAllIsLast(parts, acc);
    case Return(_, expr) =>
    case Other(_, children) =>
      LastReturnAllIsLast(children, acc);
  }

  lemma {:induction false} LastReturnAllIsLast(ts: seq<Tree>, acc: Option<seq<TreeId>>)
    ensures LastReturnAll(ts, acc) == if ReturnExprsAll(ts) == [] then acc else Some(CollectIdentifiers(Last(ReturnExprsAll(ts))))
    decreases ts
  {
    if ts != [] {
      LastReturnAllIsLast(ts[..|ts| - 1], acc);
      LastReturnIsLast(ts[|ts| - 1], LastReturnAll(ts[..|ts| - 1], acc));
    }
  }

  /** A body `{ return a; return b; }`: the second return overwrites the first, so only `b` is kept. */
  lemma EarlierReturnOverwritten()
    ensures LastReturn(Other(0, [Return(1, Some(Identifier(2))), Return(3, Some(Identifier(4)))]), None) == Some([4])
  {
  }

  /**
   * A body `{ return a; new Object() { int g() { return c; } }; }`: the collector also enters the
   * anonymous class, so the nested method's return is the last one and `c` is kept instead of `a`.
   */
  lemma NestedReturnOverwrites()
    ensures LastReturn(Other(0, [Return(1, Some(Identifier(2))),
                                 ClassDecl(5, [MethodDecl(6, [], Some(Return(7, Some(Identifier(8)))))])]), None)
         == Some([8])
  {
  }

  /** The methods with a body that the scanner reaches, each with its body; a bodiless method is not entered. */
  function ScannedMethods(t: Tree): set<(TreeId, Tree)>
    decreases t
  {
    match t
    case ClassDecl(_, members) => ScannedMethodsAll(members)
    case MethodDecl(id, header, body) =>
      if body.None? then {} else {(id, body.value)} + ScannedMethodsAll(header) + ScannedMethods(body.value)
    case Identifier(_) => {}
    case VariableDecl(_, parts) => ScannedMethodsAll(parts)
    case Return(_, expr) => if expr.Some? then ScannedMethods(expr.value) else {}
    case Other(_, children) => ScannedMethodsAll(children)
  }

  function ScannedMethodsAll(ts: seq<Tree>): set<(TreeId, Tree)>
    decreases ts
  {
    if ts == [] then {} else ScannedMethodsAll(ts[..|ts| - 1]) + ScannedMethods(ts[|ts| - 1])
  }

  /** No bodiless method declaration holds a method declaration among its modifiers, parameters or throws clause. */
  predicate NoMethodInBodilessHeader(trees: set<Tree>)
  {
    forall d, x | d in trees && d.MethodDecl? && d.body.None? && x in SubtreesAll(d.header) :: !x.MethodDecl?
  }

  /**
   * The scanner enters every method with a body, nested ones included (methods of local and
   * anonymous classes), and nothing else; only a bodiless method's header is skipped.
   */
  lemma {:induction false} ScannedMethodsExact(t: Tree)
    ensures forall p | p in ScannedMethods(t) ::
      exists d :: d in Subtrees(t) && d.MethodDecl? && d.id == p.0 && d.body == Some(p.1)
    ensures NoMethodInBodilessHeader(Subtrees(t)) ==>
      forall d | d in Subtrees(t) && d.MethodDecl? && d.body.Some? :: (d.id, d.body.value) in ScannedMethods(t)
    decreases t
  {
    match t
    case ClassDecl(_, members) =>
      ScannedMethodsAllExact(members);
    case MethodDecl(id, header, body) =>
      ScannedMethodsAllExact(header);
      if body.Some? {
        ScannedMethodsExact(body.value);
      }
    case Identifier(_) =>
    case VariableDecl(_, parts) =>
      ScannedMethodsAllExact(parts);
    case Return(_, expr) =>
      if expr.Some? {
        ScannedMethodsExact(expr.value);
      }
    case Other(_, children) =>
      ScannedMethodsAllExact(children);
  }

  lemma {:induction false} ScannedMethodsAllExact(ts: seq<Tree>)
    ensures forall p | p in ScannedMethodsAll(ts) ::
      exists d :: d in SubtreesAll(ts) && d.MethodDecl? && d.id == p.0 && d.body == Some(p.1)
    ensures NoMethodInBodilessHeader(SubtreesAll(ts)) ==>
      forall d | d in SubtreesAll(ts) && d.MethodDecl? && d.body.Some? :: (d.id, d.body.value) in ScannedMethodsAll(ts)
    decreases ts
  {
    if ts != [] {
      ScannedMethodsAllExact(ts[..|ts| - 1]);
      ScannedMethodsExact(ts[|ts| - 1]);
    }
  }

  /** Every method the scanner reaches with a body has a node of its own. */
  predicate MethodsRegistered(sk: Skeleton, methods: set<(TreeId, Tree)>)
  {
    forall p | p in methods :: p.0 in sk.nodeOf
  }

  /** The edges one method adds, given what its return collector ended with. */
  function MethodEdges(sk: Skeleton, dest: FeatureNode, identifiers: Option<seq<TreeId>>): set<Edge>
    requires sk.Valid()
  {
    if identifiers.None? then {}
    else (set i, s | i in identifiers.value && i in sk.nodeOf && s in sk.TokenSuccessors(sk.nodeOf[i]) ::
            Edge(s, dest, ReturnsTo))
  }

  /** The edges the pass adds for a set of methods. */
  function MethodsEdges(sk: Skeleton, methods: set<(TreeId, Tree)>): set<Edge>
    requires sk.Valid() && MethodsRegistered(sk, methods)
  {
    set p, e | p in methods && e in MethodEdges(sk, sk.nodeOf[p.0], LastReturn(p.1, None)) :: e
  }

  lemma {:induction false} ScannedMethodsAllParts(ts: seq<Tree>)
    ensures forall i | 0 <= i < |ts| :: ScannedMethods(ts[i]) <= ScannedMethodsAll(ts)
    ensures forall j | 0 <= j <= |ts| :: ScannedMethodsAll(ts[..j]) <= ScannedMethodsAll(ts)
    decreases ts
  {
    if ts != [] {
      var front := ts[..|ts| - 1];
      ScannedMethodsAllParts(front);
      forall j | 0 <= j < |ts| ensures ts[..j] == front[..j] {
      }
      assert ts[..|ts|] == ts;
    }
  }

  lemma MethodsEdgesUnion(sk: Skeleton, a: set<(TreeId, Tree)>, b: set<(TreeId, Tree)>)
    requires sk.Valid() && MethodsRegistered(sk, a) && MethodsRegistered(sk, b)
    ensures MethodsEdges(sk, a + b) == MethodsEdges(sk, a) + MethodsEdges(sk, b)
  {
  }

  /**
   * One method: a RETURNS_TO edge runs from a TOKEN successor of identifier `i` to the method's node
   * exactly when `i` occurs in the expression of the body's last expression-bearing return.
   */
  lemma MethodEdgesIff(sk: Skeleton, dest: FeatureNode, body: Tree, e: Edge)
    requires sk.Valid()
    ensures e in MethodEdges(sk, dest, LastReturn(body, None)) <==>
      e.kind == ReturnsTo && e.dst == dest && ReturnExprs(body) != [] &&
      exists i :: i in sk.nodeOf && e.src in sk.TokenSuccessors(sk.nodeOf[i]) &&
        exists s :: s in Subtrees(Last(ReturnExprs(body))) && s.Identifier? && s.id == i
  {
    LastReturnIsLast(body, None);
    if ReturnExprs(body) != [] {
      var expr := Last(ReturnExprs(body));
      CollectIdentifiersExact(expr);
      if e.kind == ReturnsTo && e.dst == dest {
        if i :| i in sk.nodeOf && e.src in sk.TokenSuccessors(sk.nodeOf[i]) &&
               exists s :: s in Subtrees(expr) && s.Identifier? && s.id == i {
          assert i in CollectIdentifiers(expr);
          assert e == Edge(e.src, dest, ReturnsTo);
        }
      }
    }
  }

  /** The whole pass: the edges of exactly the scanned methods, each as described by MethodEdgesIff. */
  lemma ReturnsToEdgesIff(sk: Skeleton, tree: Tree, e: Edge)
    requires sk.Valid() && MethodsRegistered(sk, ScannedMethods(tree))
    ensures e in MethodsEdges(sk, ScannedMethods(tree)) <==>
      e.kind == ReturnsTo &&
      exists p :: p in ScannedMethods(tree) && e.dst == sk.nodeOf[p.0] && ReturnExprs(p.1) != [] &&
        exists i :: i in sk.nodeOf && e.src in sk.TokenSuccessors(sk.nodeOf[i]) &&
          exists s :: s in Subtrees(Last(ReturnExprs(p.1))) && s.Identifier? && s.id == i
  {
    forall p | p in ScannedMethods(tree) {
      MethodEdgesIff(sk, sk.nodeOf[p.0], p.1, e);
    }
  }

  // ---------------------------------------------------------------------------------------------
  // The pass

  /** The return collector run over a method body; its field is overwritten by every expression-bearing return. */
  class ReturnCollector {
    var identifiers: Option<seq<TreeId>>

    constructor ()
      ensures identifiers == None
    {
      identifiers := None;
    }

    /** `visitReturn`: a bare return leaves the field as it was; the expression itself is not scanned. */
    method VisitReturn(expr: Option<Tree>)
      modifies this
      ensures identifiers == if expr.None? then old(identifiers) else Some(CollectIdentifiers(expr.value))
    {
      if expr.None? {
        return;
      }
      identifiers := Some(CollectIdentifiers(expr.value));
    }

    method Scan(t: Tree)
      modifies this
      ensures identifiers == LastReturn(t, old(identifiers))
      decreases t
    {
      match t
      case ClassDecl(_, members) =>
        ScanAll(members);
      case MethodDecl(_, header, body) =>
        ScanAll(header);
        if body.Some? {
          Scan(body.value);
        }
      case Identifier(_) =>
      case VariableDecl(_, parts) =>
        ScanAll(parts);
      case Return(_, expr) =>
        VisitReturn(expr);
      case Other(_, children) =>
        ScanAll(children);
    }

    method ScanAll(ts: seq<Tree>)
      modifies this
      ensures identifiers == LastReturnAll(ts, old(identifiers))
      decreases ts
    {
      for i := 0 to |ts|
        invariant identifiers == LastReturnAll(ts[..i], old(identifiers))
      {
        Scan(ts[i]);
        assert ts[..i + 1][..i] == ts[..i];
      }
      assert ts[..|ts|] == ts;
    }
  }

  class ReturnsToScanner {
    const graph: FeatureGraph

    constructor (graph: FeatureGraph)
      ensures this.graph == graph
    {
      this.graph := graph;
    }

    /** `visitMethod`: link the collected identifiers to the method's node, then scan the children. */
    method VisitMethod(t: Tree)
      requires t.MethodDecl?
      requires graph.skeleton.Valid() && MethodsRegistered(graph.skeleton, ScannedMethods(t))
      modifies graph`edges
      ensures graph.edges == old(graph.edges) + MethodsEdges(graph.skeleton, ScannedMethods(t))
      decreases t, 0
    {
      if t.body.None? {
        return;
      }
      var sk := graph.skeleton;
      var body := t.body.value;
      var returnCollector := new ReturnCollector();
      returnCollector.Scan(body);

      var dest := sk.nodeOf[t.id];
      if returnCollector.identifiers.Some? {
        var identifiers := returnCollector.identifiers.value;
        for k := 0 to |identifiers|
          invariant graph.edges == old(graph.edges) + MethodEdges(sk, dest, Some(identifiers[..k]))
        {
          var featureNode := sk.GetFeatureNode(identifiers[k]);
          if featureNode.Some? {
            LinkToMethod(sk.TokenSuccessors(featureNode.value), dest);
          }
          assert identifiers[..k + 1] == identifiers[..k] + [identifiers[k]];
        }
        assert identifiers[..|identifiers|] == identifiers;
      }
      assert graph.edges == old(graph.edges) + MethodEdges(sk, dest, LastReturn(body, None));
      ScanAll(t.header);
      Scan(body);
      MethodsEdgesUnion(sk, {(t.id, body)}, ScannedMethodsAll(t.header));
      MethodsEdgesUnion(sk, {(t.id, body)} + ScannedMethodsAll(t.header), ScannedMethods(body));
    }

    /** The innermost loop of `visitMethod`: one RETURNS_TO edge from each token to the method's node. */
    method LinkToMethod(succs: set<FeatureNode>, dest: FeatureNode)
      modifies graph`edges
      ensures graph.edges == old(graph.edges) + (set s | s in succs :: Edge(s, dest, ReturnsTo))
    {
      var rest := succs;
      while rest != {}
        invariant rest <= succs
        invariant graph.edges == old(graph.edges) + (set s | s in succs - rest :: Edge(s, dest, ReturnsTo))
        decreases rest
      {
        var succ :| succ in rest;
        graph.PutEdgeValue(succ, dest, ReturnsTo);
        assert succs - (rest - {succ}) == (succs - rest) + {succ};
        rest := rest - {succ};
      }
      assert succs - rest == succs;
    }

    method Scan(t: Tree)
      requires graph.skeleton.Valid() && MethodsRegistered(graph.skeleton, ScannedMethods(t))
      modifies graph`edges
      ensures graph.edges == old(graph.edges) + MethodsEdges(graph.skeleton, ScannedMethods(t))
      decreases t, 1
    {
      match t
      case ClassDecl(_, members) =>
        ScanAll(members);
      case MethodDecl(_, _, _) =>
        VisitMethod(t);
      case Identifier(_) =>
      case VariableDecl(_, parts) =>
        ScanAll(parts);
      case Return(_, expr) =>
        if expr.Some? {
          Scan(expr.value);
        }
      case Other(_, children) =>
        ScanAll(children);
    }

    method ScanAll(ts: seq<Tree>)
      requires graph.skeleton.Valid() && MethodsRegistered(graph.skeleton, ScannedMethodsAll(ts))
      modifies graph`edges
      ensures graph.edges == old(graph.edges) + MethodsEdges(graph.skeleton, ScannedMethodsAll(ts))
      decreases ts
    {
      ScannedMethodsAllParts(ts);
      for i := 0 to |ts|
        invariant graph.edges == old(graph.edges) + MethodsEdges(graph.skeleton, ScannedMethodsAll(ts[..i]))
      {
        assert ts[..i + 1][..i] == ts[..i];
        Scan(ts[i]);
        MethodsEdgesUnion(graph.skeleton, ScannedMethodsAll(ts[..i]), ScannedMethods(ts[i]));
      }
      assert ts[..|ts|] == ts;
    }
  }

  /** `addToGraph`: one scan of the compilation unit. */
  method AddToGraph(tree: Tree, graph: FeatureGraph)
    requires graph.skeleton.Valid() && MethodsRegistered(graph.skeleton, ScannedMethods(tree))
    modifies graph`edges
    ensures graph.edges == old(graph.edges) + MethodsEdges(graph.skeleton, ScannedMethods(tree))
  {
    var scanner := new ReturnsToScanner(graph);
    scanner.Scan(tree);
  }
}
