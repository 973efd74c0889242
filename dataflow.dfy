/**
 * The dataflow edge linker (DataflowOutputsScanner.java): a pre-order walk of a compilation unit
 * that carries the innermost enclosing (class, method) pair and, at every identifier and variable
 * declaration, turns the supplied last-write and last-use facts into token-to-token edges.
 */
module Dataflow {
  import opened Wrappers
  import opened Nodes
  import opened Syntax
  import opened Graph

  /** The innermost enclosing class and method declarations; None plays the part of null. */
  datatype ScanContext = ScanContext(classTree: Option<TreeId>, methodTree: Option<TreeId>)
  {
    function WithClassTree(c: TreeId): ScanContext
    {
      this.(classTree := Some(c))
    }

    function WithMethodTree(m: TreeId): ScanContext
    {
      this.(methodTree := Some(m))
    }
  }

  /** The context a traversal starts with. */
  const Initial: ScanContext := ScanContext(None, None)

  /** `AnalysisResult.getValue` as a map: an element with no entry has a null possible set. */
  type PossibleSets = map<TreeId, set<TreeId>>

  datatype DataflowOutputs = DataflowOutputs(lastWrites: PossibleSets, lastUses: PossibleSets)

  /** Results per class declaration, then per method declaration. */
  type AnalysisResults = map<TreeId, map<TreeId, DataflowOutputs>>

  // ---------------------------------------------------------------------------------------------
  // Specification

  /** Every pair of the Cartesian product, as an edge of the given kind. */
  function Product(sources: set<FeatureNode>, dests: set<FeatureNode>, kind: EdgeType): set<Edge>
  {
    set s, d | s in sources && d in dests :: Edge(s, d, kind)
  }

  lemma {:induction false} RowCardinality(s: FeatureNode, dests: set<FeatureNode>, kind: EdgeType)
    ensures |Product({s}, dests, kind)| == |dests|
    decreases dests
  {
    if dests != {} {
      var d :| d in dests;
      RowCardinality(s, dests - {d}, kind);
      assert Product({s}, dests, kind) == Product({s}, dests - {d}, kind) + {Edge(s, d, kind)};
    }
  }

  /** One edge per pair: no pair is lost and none is counted twice. */
  lemma {:induction false} ProductCardinality(sources: set<FeatureNode>, dests: set<FeatureNode>, kind: EdgeType)
    ensures |Product(sources, dests, kind)| == |sources| * |dests|
    decreases sources
  {
    if sources == {} {
      assert Product(sources, dests, kind) == {};
    } else {
      var s :| s in sources;
      var rest := sources - {s};
      ProductCardinality(rest, dests, kind);
      RowCardinality(s, dests, kind);
      assert sources == rest + {s};
      ProductSplit(s, rest, dests, kind);
      assert |Product(sources, dests, kind)| == |Product(rest, dests, kind)| + |Product({s}, dests, kind)|;
      MultiplySuccessor(|rest|, |dests|);
    }
  }

  lemma MultiplySuccessor(a: nat, b: nat)
    ensures (a + 1) * b == a * b + b
  {
  }

  /** Taking one source out splits the product into two disjoint parts. */
  lemma ProductSplit(s: FeatureNode, rest: set<FeatureNode>, dests: set<FeatureNode>, kind: EdgeType)
    requires s !in rest
    ensures Product(rest + {s}, dests, kind) == Product(rest, dests, kind) + Product({s}, dests, kind)
    ensures Product(rest, dests, kind) !! Product({s}, dests, kind)
  {
  }

  /** The edges `linkTokens(source, dest, kind)` adds. */
  function LinkedEdges(sk: Skeleton, source: Option<FeatureNode>, dest: Option<FeatureNode>, kind: EdgeType): (r: set<Edge>)
    requires source.Some? ==> source.value in sk.succ
    requires dest.Some? ==> dest.value in sk.succ
    ensures source.None? || dest.None? ==> r == {}
    ensures source.Some? && dest.Some? ==>
      forall s, d | s in sk.succ[source.value] && s.nodeType == Token && d in sk.succ[dest.value] && d.nodeType == Token ::
        Edge(s, d, kind) in r
    ensures forall e | e in r ::
      e.kind == kind && e.src.nodeType == Token && e.dst.nodeType == Token &&
      e.src in sk.succ[source.value] && e.dst in sk.succ[dest.value]
  {
    if source.None? || dest.None? then {}
    else Product(sk.TokenSuccessors(source.value), sk.TokenSuccessors(dest.value), kind)
  }

  /** With both nodes present, exactly |TOKEN successors of source| * |TOKEN successors of dest| edges. */
  lemma LinkedEdgesCount(sk: Skeleton, source: FeatureNode, dest: FeatureNode, kind: EdgeType)
    requires source in sk.succ && dest in sk.succ
    ensures |LinkedEdges(sk, Some(source), Some(dest), kind)|
         == |sk.TokenSuccessors(source)| * |sk.TokenSuccessors(dest)|
  {
    ProductCardinality(sk.TokenSuccessors(source), sk.TokenSuccessors(dest), kind);
  }

  /** The edges from one source to every candidate of a possible set. */
  function LinkedFrom(sk: Skeleton, source: Option<FeatureNode>, candidates: set<TreeId>, kind: EdgeType): set<Edge>
    requires sk.Valid()
    requires source.Some? ==> source.value in sk.succ
  {
    set c, e | c in candidates && e in LinkedEdges(sk, source, sk.GetFeatureNode(c), kind) :: e
  }

  /** The edges `applyAnalysisResult(node, r, kind)` adds. */
  function ResultEdges(sk: Skeleton, node: TreeId, r: PossibleSets, kind: EdgeType): set<Edge>
    requires sk.Valid()
  {
    if node in r then LinkedFrom(sk, sk.GetFeatureNode(node), r[node], kind) else {}
  }

  /** The edges `apply(node, ctx)` adds. */
  function ApplyEdges(results: AnalysisResults, sk: Skeleton, node: TreeId, ctx: ScanContext): set<Edge>
    requires sk.Valid()
  {
    if ctx.classTree.None? || ctx.methodTree.None? then {}
    else if ctx.classTree.value !in results then {}
    else if ctx.methodTree.value !in results[ctx.classTree.value] then {}
    else
      var a := results[ctx.classTree.value][ctx.methodTree.value];
      ResultEdges(sk, node, a.lastWrites, LastWrite) + ResultEdges(sk, node, a.lastUses, LastUse)
  }

  /**
   * Why an edge belongs at a site, read off the facts directly: the site lies in an analysed method,
   * its source is a TOKEN successor of the site's own node, and its destination is a TOKEN successor
   * of some candidate in the site's possible set for the edge's kind.
   */
  ghost predicate Justified(results: AnalysisResults, sk: Skeleton, node: TreeId, ctx: ScanContext, e: Edge)
    requires sk.Valid()
  {
    ctx.classTree.Some? && ctx.methodTree.Some? &&
    ctx.classTree.value in results && ctx.methodTree.value in results[ctx.classTree.value] &&
    node in sk.nodeOf && e.src in sk.TokenSuccessors(sk.nodeOf[node]) &&
    var a := results[ctx.classTree.value][ctx.methodTree.value];
    ((e.kind == LastWrite && node in a.lastWrites &&
      exists c :: c in a.lastWrites[node] && c in sk.nodeOf && e.dst in sk.TokenSuccessors(sk.nodeOf[c])) ||
     (e.kind == LastUse && node in a.lastUses &&
      exists c :: c in a.lastUses[node] && c in sk.nodeOf && e.dst in sk.TokenSuccessors(sk.nodeOf[c])))
  }

  lemma ResultEdgesIff(sk: Skeleton, node: TreeId, r: PossibleSets, kind: EdgeType, e: Edge)
    requires sk.Valid()
    ensures e in ResultEdges(sk, node, r, kind) <==>
      e.kind == kind && node in r && node in sk.nodeOf && e.src in sk.TokenSuccessors(sk.nodeOf[node]) &&
      exists c :: c in r[node] && c in sk.nodeOf && e.dst in sk.TokenSuccessors(sk.nodeOf[c])
  {
    if node in r && node in sk.nodeOf && e.kind == kind && e.src in sk.TokenSuccessors(sk.nodeOf[node]) {
      if c :| c in r[node] && c in sk.nodeOf && e.dst in sk.TokenSuccessors(sk.nodeOf[c]) {
        assert e == Edge(e.src, e.dst, kind);
        assert e in LinkedEdges(sk, sk.GetFeatureNode(node), sk.GetFeatureNode(c), kind);
      }
    }
  }

  /** An edge is added at a site exactly when the facts justify it; the direction runs from the site to the candidate. */
  lemma ApplyEdgesIff(results: AnalysisResults, sk: Skeleton, node: TreeId, ctx: ScanContext, e: Edge)
    requires sk.Valid()
    ensures e in ApplyEdges(results, sk, node, ctx) <==> Justified(results, sk, node, ctx, e)
  {
    if ctx.classTree.Some? && ctx.methodTree.Some? &&
       ctx.classTree.value in results && ctx.methodTree.value in results[ctx.classTree.value] {
      var a := results[ctx.classTree.value][ctx.methodTree.value];
      ResultEdgesIff(sk, node, a.lastWrites, LastWrite, e);
      ResultEdgesIff(sk, node, a.lastUses, LastUse, e);
    }
  }

  /** The identifier and variable-declaration nodes the walk of `t` reaches, each with the context it is reached in. */
  function Sites(t: Tree, ctx: ScanContext): set<(TreeId, ScanContext)>
    decreases t
  {
    match t
    case ClassDecl(id, members) => SitesAll(members, ctx.WithClassTree(id))
    case MethodDecl(id, header, body) =>
      SitesAll(header, ctx.WithMethodTree(id)) +
      (if body.Some? then Sites(body.value, ctx.WithMethodTree(id)) else {})
    case Identifier(id) => {(id, ctx)}
    case VariableDecl(id, parts) => {(id, ctx)} + SitesAll(parts, ctx)
    case Return(_, expr) => if expr.Some? then Sites(expr.value, ctx) else {}
    case Other(_, children) => SitesAll(children, ctx)
  }

  /** Siblings are walked one after another, each with the same context. */
  function SitesAll(ts: seq<Tree>, ctx: ScanContext): set<(TreeId, ScanContext)>
    decreases ts
  {
    if ts == [] then {} else SitesAll(ts[..|ts| - 1], ctx) + Sites(ts[|ts| - 1], ctx)
  }

  /** The edges the whole pass adds: those of every site, each under its own context. */
  function SiteEdges(results: AnalysisResults, sk: Skeleton, sites: set<(TreeId, ScanContext)>): set<Edge>
    requires sk.Valid()
  {
    set p, e | p in sites && e in ApplyEdges(results, sk, p.0, p.1) :: e
  }

  lemma SiteEdgesUnion(results: AnalysisResults, sk: Skeleton, a: set<(TreeId, ScanContext)>, b: set<(TreeId, ScanContext)>)
    requires sk.Valid()
    ensures SiteEdges(results, sk, a + b) == SiteEdges(results, sk, a) + SiteEdges(results, sk, b)
  {
  }

  lemma SiteEdgesSingle(results: AnalysisResults, sk: Skeleton, node: TreeId, ctx: ScanContext)
    requires sk.Valid()
    ensures SiteEdges(results, sk, {(node, ctx)}) == ApplyEdges(results, sk, node, ctx)
  {
  }

  /** Every identifier and variable declaration is a site, and nothing else is, whatever the starting context. */
  lemma SitesAreUseSites(t: Tree, ctx: ScanContext)
    ensures forall p | p in Sites(t, ctx) :: exists s :: s in Subtrees(t) && IsUseSite(s) && s.id == p.0
    ensures forall s | s in Subtrees(t) && IsUseSite(s) :: exists c :: (s.id, c) in Sites(t, ctx)
  {
    forall p | p in Sites(t, ctx)
      ensures exists s :: s in Subtrees(t) && IsUseSite(s) && s.id == p.0
    {
      SiteIsUseSite(t, ctx, p);
    }
    forall s | s in Subtrees(t) && IsUseSite(s)
      ensures exists c :: (s.id, c) in Sites(t, ctx)
    {
      UseSiteIsSite(t, ctx, s);
    }
  }

  lemma {:induction false} SiteIsUseSite(t: Tree, ctx: ScanContext, p: (TreeId, ScanContext))
    requires p in Sites(t, ctx)
    ensures exists s :: s in Subtrees(t) && IsUseSite(s) && s.id == p.0
    decreases t
  {
    SitesUnfold(t, ctx);
    SubtreesUnfold(t);
    if IsUseSite(t) && p == (t.id, ctx) {
      assert t in Subtrees(t);
    } else {
      var c :| c in ChildrenOf(t) && p in Sites(c, Enter(ctx, t));
      ChildrenAreSmaller(t);
      SiteIsUseSite(c, Enter(ctx, t), p);
      var s :| s in Subtrees(c) && IsUseSite(s) && s.id == p.0;
      assert s in Subtrees(t);
    }
  }

  lemma {:induction false} UseSiteIsSite(t: Tree, ctx: ScanContext, s: Tree)
    requires s in Subtrees(t) && IsUseSite(s)
    ensures exists c :: (s.id, c) in Sites(t, ctx)
    decreases t
  {
    SitesUnfold(t, ctx);
    SubtreesUnfold(t);
    if s == t {
      assert (t.id, ctx) in Sites(t, ctx);
    } else {
      var c :| c in ChildrenOf(t) && s in Subtrees(c);
      ChildrenAreSmaller(t);
      UseSiteIsSite(c, Enter(ctx, t), s);
      var k :| (s.id, k) in Sites(c, Enter(ctx, t));
      assert (s.id, k) in Sites(t, ctx);
    }
  }

  lemma {:induction false} SitesAllAreUseSites(ts: seq<Tree>, ctx: ScanContext)
    ensures forall p | p in SitesAll(ts, ctx) :: exists s :: s in SubtreesAll(ts) && IsUseSite(s) && s.id == p.0
    ensures forall s | s in SubtreesAll(ts) && IsUseSite(s) :: exists c :: (s.id, c) in SitesAll(ts, ctx)
  {
    SitesAllSiblings(ts, ctx);
    SubtreesAllSiblings(ts);
    forall p | p in SitesAll(ts, ctx)
      ensures exists s :: s in SubtreesAll(ts) && IsUseSite(s) && s.id == p.0
    {
      var c :| c in ts && p in Sites(c, ctx);
      SitesAreUseSites(c, ctx);
      var s :| s in Subtrees(c) && IsUseSite(s) && s.id == p.0;
      assert s in SubtreesAll(ts);
    }
    forall s | s in SubtreesAll(ts) && IsUseSite(s)
      ensures exists c :: (s.id, c) in SitesAll(ts, ctx)
    {
      var c :| c in ts && s in Subtrees(c);
      SitesAreUseSites(c, ctx);
      var k :| (s.id, k) in Sites(c, ctx);
      assert (s.id, k) in SitesAll(ts, ctx);
    }
  }

  /**
   * Context discipline: a site's class (method) is either the one the walk of `t` started with or a
   * class (method) declared inside `t`. Context set inside one subtree never reaches another.
   */
  lemma {:induction false} SiteContexts(t: Tree, ctx: ScanContext)
    ensures forall p | p in Sites(t, ctx) ::
      p.1.classTree == ctx.classTree || exists d :: d in Subtrees(t) && d.ClassDecl? && p.1.classTree == Some(d.id)
    ensures forall p | p in Sites(t, ctx) ::
      p.1.methodTree == ctx.methodTree || exists d :: d in Subtrees(t) && d.MethodDecl? && p.1.methodTree == Some(d.id)
    ensures t.ClassDecl? ==> forall p | p in Sites(t, ctx) ::
      exists d :: d in Subtrees(t) && d.ClassDecl? && p.1.classTree == Some(d.id)
    ensures t.MethodDecl? ==> forall p | p in Sites(t, ctx) ::
      exists d :: d in Subtrees(t) && d.MethodDecl? && p.1.methodTree == Some(d.id)
    decreases t
  {
    match t
    case ClassDecl(id, members) =>
      SitesAllContexts(members, ctx.WithClassTree(id));
      assert t in Subtrees(t);
    case MethodDecl(id, header, body) =>
      SitesAllContexts(header, ctx.WithMethodTree(id));
      if body.Some? {
        SiteContexts(body.value, ctx.WithMethodTree(id));
      }
      assert t in Subtrees(t);
    case Identifier(id) =>
    case VariableDecl(id, parts) =>
      SitesAllContexts(parts, ctx);
    case Return(_, expr) =>
      if expr.Some? {
        SiteContexts(expr.value, ctx);
      }
    case Other(_, children) =>
      SitesAllContexts(children, ctx);
  }

  lemma {:induction false} SitesAllContexts(ts: seq<Tree>, ctx: ScanContext)
    ensures forall p | p in SitesAll(ts, ctx) ::
      p.1.classTree == ctx.classTree || exists d :: d in SubtreesAll(ts) && d.ClassDecl? && p.1.classTree == Some(d.id)
    ensures forall p | p in SitesAll(ts, ctx) ::
      p.1.methodTree == ctx.methodTree || exists d :: d in SubtreesAll(ts) && d.MethodDecl? && p.1.methodTree == Some(d.id)
    ensures forall p | p in SitesAll(ts, ctx) :: exists i :: (0 <= i < |ts| && p in Sites(ts[i], ctx) &&
      (p.1.classTree == ctx.classTree || exists d :: d in Subtrees(ts[i]) && d.ClassDecl? && p.1.classTree == Some(d.id)) &&
      (p.1.methodTree == ctx.methodTree || exists d :: d in Subtrees(ts[i]) && d.MethodDecl? && p.1.methodTree == Some(d.id)))
    decreases ts
  {
    if ts != [] {
      var front, last := ts[..|ts| - 1], ts[|ts| - 1];
      SitesAllContexts(front, ctx);
      SiteContexts(last, ctx);
      forall i | 0 <= i < |front|
        ensures ts[i] == front[i]
      {
      }
    }
  }

  /** How entering `t` changes the context its children are walked with. */
  function Enter(ctx: ScanContext, t: Tree): ScanContext
  {
    if t.ClassDecl? then ctx.WithClassTree(t.id)
    else if t.MethodDecl? then ctx.WithMethodTree(t.id)
    else ctx
  }

  /**
   * The context a site at the end of `path` ought to be looked up under: the innermost class and
   * method declarations on the path, and where the path has none, those of `ctx`.
   */
  function Enclosing(path: seq<Tree>, ctx: ScanContext): ScanContext
  {
    ScanContext(
      if InnermostClass(path).Some? then InnermostClass(path) else ctx.classTree,
      if InnermostMethod(path).Some? then InnermostMethod(path) else ctx.methodTree)
  }

  lemma {:induction false} EnclosingPrepend(t: Tree, path: seq<Tree>, ctx: ScanContext)
    ensures Enclosing([t] + path, ctx) == Enclosing(path, Enter(ctx, t))
  {
    InnermostPrepend(t, path);
  }

  lemma {:induction false} SitesAllSiblings(ts: seq<Tree>, ctx: ScanContext)
    ensures forall p :: p in SitesAll(ts, ctx) <==> exists c :: c in ts && p in Sites(c, ctx)
    decreases ts
  {
    if ts != [] {
      var front, last := ts[..|ts| - 1], ts[|ts| - 1];
      SitesAllSiblings(front, ctx);
      assert ts == front + [last];
      forall p
        ensures p in SitesAll(ts, ctx) <==> exists c :: c in ts && p in Sites(c, ctx)
      {
        if p in Sites(last, ctx) {
          assert last in ts;
        }
        if exists c :: c in ts && p in Sites(c, ctx) {
          var c :| c in ts && p in Sites(c, ctx);
          if c != last {
            assert c in front;
          }
        }
      }
    }
  }

  /** One level of the walk: `t` itself when it is a use site, then its children under the entered context. */
  lemma SitesUnfold(t: Tree, ctx: ScanContext)
    ensures forall p :: p in Sites(t, ctx) <==>
      (IsUseSite(t) && p == (t.id, ctx)) || exists c :: c in ChildrenOf(t) && p in Sites(c, Enter(ctx, t))
  {
    match t
    case ClassDecl(id, members) =>
      SitesAllSiblings(members, Enter(ctx, t));
      assert ChildrenOf(t) == members && Enter(ctx, t) == ctx.WithClassTree(id);
    case MethodDecl(id, header, body) =>
      var inner := Enter(ctx, t);
      SitesAllSiblings(header, inner);
      forall p
        ensures p in Sites(t, ctx) <==> exists c :: c in ChildrenOf(t) && p in Sites(c, inner)
      {
        if body.Some? && p in Sites(body.value, inner) {
          assert body.value in ChildrenOf(t);
        }
        if exists c :: c in ChildrenOf(t) && p in Sites(c, inner) {
          var c :| c in ChildrenOf(t) && p in Sites(c, inner);
          if c !in header {
            assert body.Some? && c == body.value;
          }
        }
      }
    case Identifier(id) =>
    case VariableDecl(id, parts) =>
      SitesAllSiblings(parts, ctx);
      assert ChildrenOf(t) == parts && Enter(ctx, t) == ctx;
    case Return(_, expr) =>
      assert Enter(ctx, t) == ctx;
      forall p | expr.Some? && p in Sites(expr.value, ctx)
        ensures exists c :: c in ChildrenOf(t) && p in Sites(c, ctx)
      {
        assert expr.value in ChildrenOf(t);
      }
    case Other(_, children) =>
      SitesAllSiblings(children, ctx);
      assert ChildrenOf(t) == children && Enter(ctx, t) == ctx;
  }

  lemma {:induction false} SitesAreEnclosed(t: Tree, ctx: ScanContext)
    ensures forall p | p in Sites(t, ctx) :: exists path ::
      IsPathFrom(t, path) && IsUseSite(Last(path)) && p == (Last(path).id, Enclosing(path, ctx))
    decreases t
  {
    SitesUnfold(t, ctx);
    forall p | p in Sites(t, ctx)
      ensures exists path :: IsPathFrom(t, path) && IsUseSite(Last(path)) && p == (Last(path).id, Enclosing(path, ctx))
    {
      if IsUseSite(t) && p == (t.id, ctx) {
        assert Last([t]) == t && [t][..0] == [];
        assert InnermostClass([t]) == InnermostClass([]) == None;
        assert InnermostMethod([t]) == InnermostMethod([]) == None;
        assert IsPathFrom(t, [t]) && Enclosing([t], ctx) == ctx;
      } else {
        var c :| c in ChildrenOf(t) && p in Sites(c, Enter(ctx, t));
        ChildrenAreSmaller(t);
        SitesAreEnclosed(c, Enter(ctx, t));
        var rest :| IsPathFrom(c, rest) && IsUseSite(Last(rest)) && p == (Last(rest).id, Enclosing(rest, Enter(ctx, t)));
        var path := [t] + rest;
        forall i | 1 <= i < |path| - 1
          ensures path[i + 1] in ChildrenOf(path[i])
        {
          assert path[i] == rest[i - 1] && path[i + 1] == rest[i - 1 + 1];
        }
        EnclosingPrepend(t, rest, ctx);
        assert IsPathFrom(t, path) && Last(path) == Last(rest);
      }
    }
  }

  lemma {:induction false} EnclosedAreSites(t: Tree, path: seq<Tree>, ctx: ScanContext)
    requires IsPathFrom(t, path) && IsUseSite(Last(path))
    ensures (Last(path).id, Enclosing(path, ctx)) in Sites(t, ctx)
    decreases |path|
  {
    SitesUnfold(t, ctx);
    if |path| == 1 {
      assert Last(path) == t && Enclosing(path, ctx) == Enclosing([], ctx);
    } else {
      var rest := path[1..];
      forall i | 0 <= i < |rest| - 1
        ensures rest[i + 1] in ChildrenOf(rest[i])
      {
        assert rest[i] == path[i + 1] && rest[i + 1] == path[i + 1 + 1];
      }
      EnclosedAreSites(path[1], rest, Enter(ctx, t));
      assert path == [t] + rest;
      EnclosingPrepend(t, rest, ctx);
      assert Last(rest) == Last(path) && path[1] in ChildrenOf(t);
    }
  }

  /**
   * Each site is looked up under its innermost enclosing class and method: the sites of the walk of `t`
   * are exactly the identifiers and variable declarations below `t`, each paired with the innermost class
   * and method declarations on its path from `t` (falling back to the starting context).
   */
  lemma SiteContextIsInnermost(t: Tree, ctx: ScanContext)
    ensures forall p :: p in Sites(t, ctx) <==> exists path ::
      IsPathFrom(t, path) && IsUseSite(Last(path)) && p == (Last(path).id, Enclosing(path, ctx))
  {
    SitesAreEnclosed(t, ctx);
    forall path | IsPathFrom(t, path) && IsUseSite(Last(path))
      ensures (Last(path).id, Enclosing(path, ctx)) in Sites(t, ctx)
    {
      EnclosedAreSites(t, path, ctx);
    }
  }

  /**
   * Cross-method isolation: if method `m` is neither the context the walk of `t` starts in nor declared
   * inside `t`, no site of `t` is looked up under `m`.
   */
  lemma NoContextLeak(t: Tree, ctx: ScanContext, m: TreeId)
    requires ctx.methodTree != Some(m)
    requires forall d | d in Subtrees(t) && d.MethodDecl? :: d.id != m
    ensures forall p | p in Sites(t, ctx) :: p.1.methodTree != Some(m)
  {
    SiteContexts(t, ctx);
  }

  /** Outside every method declaration the pass adds no edge. */
  lemma NoEdgesOutsideMethods(results: AnalysisResults, sk: Skeleton, t: Tree, ctx: ScanContext)
    requires sk.Valid()
    requires ctx.methodTree.None?
    requires forall d | d in Subtrees(t) :: !d.MethodDecl?
    ensures SiteEdges(results, sk, Sites(t, ctx)) == {}
  {
    SiteContexts(t, ctx);
  }

  /** The pass only adds LAST_WRITE and LAST_USE edges, always between TOKEN nodes. */
  lemma SiteEdgesShape(results: AnalysisResults, sk: Skeleton, sites: set<(TreeId, ScanContext)>)
    requires sk.Valid()
    ensures forall e | e in SiteEdges(results, sk, sites) ::
      (e.kind == LastWrite || e.kind == LastUse) && e.src.nodeType == Token && e.dst.nodeType == Token
  {
  }

  /** The whole pass: an edge is added exactly when some site, under its own context, justifies it. */
  lemma PassEdgesIff(results: AnalysisResults, sk: Skeleton, tree: Tree, e: Edge)
    requires sk.Valid()
    ensures e in SiteEdges(results, sk, Sites(tree, Initial)) <==>
      exists p :: p in Sites(tree, Initial) && Justified(results, sk, p.0, p.1, e)
    ensures e in SiteEdges(results, sk, Sites(tree, Initial)) <==>
      exists path :: IsPathFrom(tree, path) && IsUseSite(Last(path)) &&
        Justified(results, sk, Last(path).id, Enclosing(path, Initial), e)
  {
    forall p | p in Sites(tree, Initial) {
      ApplyEdgesIff(results, sk, p.0, p.1, e);
    }
    SiteContextIsInnermost(tree, Initial);
    if e in SiteEdges(results, sk, Sites(tree, Initial)) {
      var p :| p in Sites(tree, Initial) && Justified(results, sk, p.0, p.1, e);
      var path :| IsPathFrom(tree, path) && IsUseSite(Last(path)) && p == (Last(path).id, Enclosing(path, Initial));
      assert Justified(results, sk, Last(path).id, Enclosing(path, Initial), e);
    }
    forall path | IsPathFrom(tree, path) && IsUseSite(Last(path)) && Justified(results, sk, Last(path).id, Enclosing(path, Initial), e)
      ensures e in SiteEdges(results, sk, Sites(tree, Initial))
    {
      assert (Last(path).id, Enclosing(path, Initial)) in Sites(tree, Initial);
    }
  }

  // ---------------------------------------------------------------------------------------------
  // The pass

  class DataflowOutputsScanner {
    const analysisResults: AnalysisResults
    const graph: FeatureGraph

    constructor (analysisResults: AnalysisResults, graph: FeatureGraph)
      ensures this.analysisResults == analysisResults && this.graph == graph
    {
      this.analysisResults := analysisResults;
      this.graph := graph;
    }

    /** The scanner's visit of `t`: class and method declarations replace one context component for their subtree. */
    method Scan(t: Tree, ctx: ScanContext)
      requires graph.skeleton.Valid()
      modifies graph`edges
      ensures graph.edges == old(graph.edges) + SiteEdges(analysisResults, graph.skeleton, Sites(t, ctx))
      decreases t
    {
      var sk := graph.skeleton;
      match t
      case ClassDecl(id, members) =>
        ScanAll(members, ctx.WithClassTree(id));
      case MethodDecl(id, header, body) =>
        var inner := ctx.WithMethodTree(id);
        ScanAll(header, inner);
        if body.Some? {
          Scan(body.value, inner);
          SiteEdgesUnion(analysisResults, sk, SitesAll(header, inner), Sites(body.value, inner));
        }
      case Identifier(id) =>
        Apply(id, ctx);
        SiteEdgesSingle(analysisResults, sk, id, ctx);
      case VariableDecl(id, parts) =>
        Apply(id, ctx);
        ScanAll(parts, ctx);
        SiteEdgesSingle(analysisResults, sk, id, ctx);
        SiteEdgesUnion(analysisResults, sk, {(id, ctx)}, SitesAll(parts, ctx));
      case Return(_, expr) =>
        if expr.Some? {
          Scan(expr.value, ctx);
        }
      case Other(_, children) =>
        ScanAll(children, ctx);
    }

    /** `TreeScanner.scan` over a list of children, in order. */
    method ScanAll(ts: seq<Tree>, ctx: ScanContext)
      requires graph.skeleton.Valid()
      modifies graph`edges
      ensures graph.edges == old(graph.edges) + SiteEdges(analysisResults, graph.skeleton, SitesAll(ts, ctx))
      decreases ts
    {
      for i := 0 to |ts|
        invariant graph.edges == old(graph.edges) + SiteEdges(analysisResults, graph.skeleton, SitesAll(ts[..i], ctx))
      {
        Scan(ts[i], ctx);
        assert ts[..i + 1][..i] == ts[..i];
        SiteEdgesUnion(analysisResults, graph.skeleton, SitesAll(ts[..i], ctx), Sites(ts[i], ctx));
      }
      assert ts[..|ts|] == ts;
    }

    /** `apply`: nothing without an enclosing class and method, or without results for them. */
    method Apply(node: TreeId, ctx: ScanContext)
      requires graph.skeleton.Valid()
      modifies graph`edges
      ensures graph.edges == old(graph.edges) + ApplyEdges(analysisResults, graph.skeleton, node, ctx)
    {
      if ctx.classTree.None? || ctx.methodTree.None? {
        return;
      }
      if ctx.classTree.value !in analysisResults {
        return;
      }
      var methods := analysisResults[ctx.classTree.value];
      if ctx.methodTree.value !in methods {
        return;
      }
      var a := methods[ctx.methodTree.value];
      ApplyAnalysisResult(node, a.lastWrites, LastWrite);
      ApplyAnalysisResult(node, a.lastUses, LastUse);
    }

    /** `applyAnalysisResult`: links the node to every candidate of its possible set, if it has one. */
    method ApplyAnalysisResult(node: TreeId, r: PossibleSets, kind: EdgeType)
      requires graph.skeleton.Valid()
      modifies graph`edges
      ensures graph.edges == old(graph.edges) + ResultEdges(graph.skeleton, node, r, kind)
    {
      var possibles := if node in r then Some(r[node]) else None;
      var sourceNode := graph.skeleton.GetFeatureNode(node);
      if possibles.Some? {
        var rest := possibles.value;
        while rest != {}
          invariant rest <= possibles.value
          invariant graph.edges == old(graph.edges) + LinkedFrom(graph.skeleton, sourceNode, possibles.value - rest, kind)
          decreases rest
        {
          var tree :| tree in rest;
          var targetNode := graph.skeleton.GetFeatureNode(tree);
          LinkTokens(sourceNode, targetNode, kind, graph);
          assert possibles.value - (rest - {tree}) == (possibles.value - rest) + {tree};
          rest := rest - {tree};
        }
        assert possibles.value - rest == possibles.value;
      }
    }
  }

  /** `addToGraph`: one walk of the compilation unit, starting from the empty context. */
  method AddToGraph(tree: Tree, analysisResults: AnalysisResults, graph: FeatureGraph)
    requires graph.skeleton.Valid()
    modifies graph`edges
    ensures graph.edges == old(graph.edges) + SiteEdges(analysisResults, graph.skeleton, Sites(tree, Initial))
  {
    var scanner := new DataflowOutputsScanner(analysisResults, graph);
    scanner.Scan(tree, Initial);
  }

  /**
   * `linkTokens`: an edge for every pair of TOKEN successors of source and dest. Whether either set has
   * one element or not changes nothing: the Java code only has a commented-out diagnostic there.
   */
  method LinkTokens(source: Option<FeatureNode>, dest: Option<FeatureNode>, kind: EdgeType, graph: FeatureGraph)
    requires source.Some? ==> source.value in graph.skeleton.succ
    requires dest.Some? ==> dest.value in graph.skeleton.succ
    modifies graph`edges
    ensures graph.edges == old(graph.edges) + LinkedEdges(graph.skeleton, source, dest, kind)
  {
    if source.None? || dest.None? {
      return;
    }
    var sourceSucc := graph.skeleton.TokenSuccessors(source.value);
    var destSucc := graph.skeleton.TokenSuccessors(dest.value);
    var restS := sourceSucc;
    while restS != {}
      invariant restS <= sourceSucc
      invariant graph.edges == old(graph.edges) + Product(sourceSucc - restS, destSucc, kind)
      decreases restS
    {
      var s :| s in restS;
      var restD := destSucc;
      while restD != {}
        invariant restD <= destSucc
        invariant graph.edges == old(graph.edges) + Product(sourceSucc - restS, destSucc, kind)
                                                  + Product({s}, destSucc - restD, kind)
        decreases restD
      {
        var d :| d in restD;
        graph.PutEdgeValue(s, d, kind);
        assert destSucc - (restD - {d}) == (destSucc - restD) + {d};
        restD := restD - {d};
      }
      assert destSucc - restD == destSucc;
      assert sourceSucc - (restS - {s}) == (sourceSucc - restS) + {s};
      restS := restS - {s};
    }
    assert sourceSucc - restS == sourceSucc;
  }
}
