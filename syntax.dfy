/** The part of the javac syntax tree the two passes look at. */
module Syntax {
  import opened Wrappers

  /** Identity of a tree element: javac trees are compared by reference, so each element carries an id. */
  type TreeId = nat

  /**
   * A tree element. Every variant keeps its children in the order a javac `TreeScanner` visits them;
   * `Other` stands for every tree kind neither pass treats specially (a compilation unit, a block, a
   * binary expression, a lambda, ...).
   */
  datatype Tree =
    | ClassDecl(id: TreeId, members: seq<Tree>)
    | MethodDecl(id: TreeId, header: seq<Tree>, body: Option<Tree>)
    | Identifier(id: TreeId)
    | VariableDecl(id: TreeId, parts: seq<Tree>)
    | Return(id: TreeId, expr: Option<Tree>)
    | Other(id: TreeId, children: seq<Tree>)

  /** Every element of the tree rooted at `t`, `t` included. */
  function Subtrees(t: Tree): set<Tree>
    decreases t
  {
    {t} +
    match t
    case ClassDecl(_, members) => SubtreesAll(members)
    case MethodDecl(_, header, body) => SubtreesAll(header) + (if body.Some? then Subtrees(body.value) else {})
    case Identifier(_) => {}
    case VariableDecl(_, parts) => SubtreesAll(parts)
    case Return(_, expr) => if expr.Some? then Subtrees(expr.value) else {}
    case Other(_, children) => SubtreesAll(children)
  }

  function SubtreesAll(ts: seq<Tree>): set<Tree>
    decreases ts
  {
    if ts == [] then {} else SubtreesAll(ts[..|ts| - 1]) + Subtrees(ts[|ts| - 1])
  }

  /** Identifier references and variable declarations: the elements that name a variable. */
  predicate IsUseSite(t: Tree)
  {
    t.Identifier? || t.VariableDecl?
  }

  /** The children of an element, in the order a javac `TreeScanner` visits them. */
  function ChildrenOf(t: Tree): seq<Tree>
  {
    match t
    case ClassDecl(_, members) => members
    case MethodDecl(_, header, body) => header + (if body.Some? then [body.value] else [])
    case Identifier(_) => []
    case VariableDecl(_, parts) => parts
    case Return(_, expr) => if expr.Some? then [expr.value] else []
    case Other(_, children) => children
  }

  lemma ChildrenAreSmaller(t: Tree)
    ensures forall c | c in ChildrenOf(t) :: c < t
  {
  }

  lemma {:induction false} SubtreesAllSiblings(ts: seq<Tree>)
    ensures forall s :: s in SubtreesAll(ts) <==> exists c :: c in ts && s in Subtrees(c)
    decreases ts
  {
    if ts != [] {
      var front, last := ts[..|ts| - 1], ts[|ts| - 1];
      SubtreesAllSiblings(front);
      assert ts == front + [last];
      forall s
        ensures s in SubtreesAll(ts) <==> exists c :: c in ts && s in Subtrees(c)
      {
        if s in Subtrees(last) {
          assert last in ts;
        }
        if exists c :: c in ts && s in Subtrees(c) {
          var c :| c in ts && s in Subtrees(c);
          if c != last {
            assert c in front;
          }
        }
      }
    }
  }

  /** One level of `Subtrees`: the element itself, then the subtrees of its children. */
  lemma SubtreesUnfold(t: Tree)
    ensures forall s :: s in Subtrees(t) <==> s == t || exists c :: c in ChildrenOf(t) && s in Subtrees(c)
  {
    match t
    case ClassDecl(_, members) =>
      SubtreesAllSiblings(members);
      assert ChildrenOf(t) == members;
    case MethodDecl(_, header, body) =>
      SubtreesAllSiblings(header);
      forall s
        ensures s in Subtrees(t) <==> s == t || exists c :: c in ChildrenOf(t) && s in Subtrees(c)
      {
        if body.Some? && s in Subtrees(body.value) {
          assert body.value in ChildrenOf(t);
        }
        if exists c :: c in ChildrenOf(t) && s in Subtrees(c) {
          var c :| c in ChildrenOf(t) && s in Subtrees(c);
          if c !in header {
            assert body.Some? && c == body.value;
          }
        }
      }
    case Identifier(_) =>
    case VariableDecl(_, parts) =>
      SubtreesAllSiblings(parts);
      assert ChildrenOf(t) == parts;
    case Return(_, expr) =>
      forall s | expr.Some? && s in Subtrees(expr.value)
        ensures exists c :: c in ChildrenOf(t) && s in Subtrees(c)
      {
        assert expr.value in ChildrenOf(t);
      }
    case Other(_, children) =>
      SubtreesAllSiblings(children);
      assert ChildrenOf(t) == children;
  }

  function Last(ts: seq<Tree>): Tree
    requires ts != []
  {
    ts[|ts| - 1]
  }

  /** `path` runs from `t` down to one of its elements, each step going to a child. */
  ghost predicate IsPathFrom(t: Tree, path: seq<Tree>)
  {
    |path| > 0 && path[0] == t &&
    forall i | 0 <= i < |path| - 1 :: path[i + 1] in ChildrenOf(path[i])
  }

  /** The innermost class declaration on a path, if there is one. */
  function InnermostClass(path: seq<Tree>): Option<TreeId>
  {
    if path == [] then None
    else if Last(path).ClassDecl? then Some(Last(path).id)
    else InnermostClass(path[..|path| - 1])
  }

  /** The innermost method declaration on a path, if there is one. */
  function InnermostMethod(path: seq<Tree>): Option<TreeId>
  {
    if path == [] then None
    else if Last(path).MethodDecl? then Some(Last(path).id)
    else InnermostMethod(path[..|path| - 1])
  }

  /** A declaration put in front of a path is the innermost one only when the rest of the path has none. */
  lemma {:induction false} InnermostPrepend(t: Tree, path: seq<Tree>)
    ensures InnermostClass([t] + path) ==
      if InnermostClass(path).Some? then InnermostClass(path) else if t.ClassDecl? then Some(t.id) else None
    ensures InnermostMethod([t] + path) ==
      if InnermostMethod(path).Some? then InnermostMethod(path) else if t.MethodDecl? then Some(t.id) else None
    decreases |path|
  {
    if path != [] {
      InnermostPrepend(t, path[..|path| - 1]);
      assert ([t] + path)[..|path|] == [t] + path[..|path| - 1];
    }
  }
}
