/**
 * The interface of the feature graph that the two passes use: the node registered for a tree
 * element, the TOKEN successors of a node, and edge insertion.
 */
module Graph {
  import opened Wrappers
  import opened Nodes
  import opened Syntax

  /** The relation kinds these passes create. */
  datatype EdgeType = LastWrite | LastUse | ReturnsTo

  datatype Edge = Edge(src: FeatureNode, dst: FeatureNode, kind: EdgeType)

  /**
   * The syntactic skeleton built before these passes run, which they only read: the node registered
   * for each tree element, and the successors of each node of the graph.
   */
  datatype Skeleton = Skeleton(nodeOf: map<TreeId, FeatureNode>, succ: map<FeatureNode, set<FeatureNode>>)
  {
    /** Every node registered for a tree element is a node of the graph. */
    predicate Valid()
    {
      forall t | t in nodeOf :: nodeOf[t] in succ
    }

    /** `getFeatureNode`: None plays the part of null for an element with no node. */
    function GetFeatureNode(t: TreeId): (r: Option<FeatureNode>)
      ensures r.Some? <==> t in nodeOf
      ensures r.Some? ==> r.value == nodeOf[t]
      ensures Valid() && r.Some? ==> r.value in succ
    {
      if t in nodeOf then Some(nodeOf[t]) else None
    }

    /** `successors(n, TOKEN)`. */
    function TokenSuccessors(n: FeatureNode): set<FeatureNode>
      requires n in succ
    {
      set s | s in succ[n] && s.nodeType == Token
    }
  }

  class FeatureGraph {
    var skeleton: Skeleton
    var edges: set<Edge>

    constructor (skeleton: Skeleton)
      ensures this.skeleton == skeleton && edges == {}
    {
      this.skeleton := skeleton;
      edges := {};
    }

    /** `putEdgeValue(s, d, kind)`: insertion of one typed edge; nothing else changes. */
    method PutEdgeValue(s: FeatureNode, d: FeatureNode, kind: EdgeType)
      modifies this`edges
      ensures edges == old(edges) + {Edge(s, d, kind)}
    {
      edges := edges + {Edge(s, d, kind)};
    }
  }
}
