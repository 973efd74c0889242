/** Graph nodes and the allocator that hands out their identifiers (FeatureNode.java). */
module Nodes {

  /** The range of a Java `long`, the type of the node counter. */
  const MIN_LONG: int := -0x8000_0000_0000_0000
  const MAX_LONG: int := 0x7fff_ffff_ffff_ffff

  type Long = x: int | MIN_LONG <= x <= MAX_LONG

  /** Node kinds: the passes here only ever ask for TOKEN nodes; every other kind is kept abstract. */
  datatype NodeType = Token | NonToken(kind: string)

  /** An immutable node record: identity is the allocated id. */
  datatype FeatureNode = FeatureNode(nodeId: Long, nodeType: NodeType, contents: string)

  /** The value `counter++` leaves behind on a Java long: two's-complement wrap-around at the top. */
  function Incremented(c: Long): Long
  {
    if c == MAX_LONG then MIN_LONG else c + 1
  }

  /** The ids handed out by `k` successive calls of `create`, starting from counter value `start`. */
  function AllocatedIds(start: Long, k: nat): seq<Long>
    decreases k
  {
    if k == 0 then [] else [start] + AllocatedIds(Incremented(start), k - 1)
  }

  /** While the counter does not wrap, successive ids are consecutive, hence distinct and increasing. */
  lemma {:induction false} AllocatedIdsAreConsecutive(start: Long, k: nat)
    requires start + k <= MAX_LONG + 1
    ensures |AllocatedIds(start, k)| == k
    ensures forall i :: 0 <= i < k ==> AllocatedIds(start, k)[i] == start + i
    ensures forall i, j :: 0 <= i < j < k ==> AllocatedIds(start, k)[i] < AllocatedIds(start, k)[j]
    decreases k
  {
    if k > 1 {
      AllocatedIdsAreConsecutive(start + 1, k - 1);
    }
  }

  /** From a fresh counter, the i-th node created has id i. */
  lemma FirstIdsFromZero(k: nat)
    requires k <= MAX_LONG + 1
    ensures |AllocatedIds(0, k)| == k
    ensures forall i :: 0 <= i < k ==> AllocatedIds(0, k)[i] == i
  {
    AllocatedIdsAreConsecutive(0, k);
  }

  /** The static counter of FeatureNode, as an object of its own. */
  class NodeAllocator {
    var counter: Long

    constructor ()
      ensures counter == 0
    {
      counter := 0;
    }

    /** `create`: the new node carries the counter's value before the call; the counter moves on by one. */
    method Create(nodeType: NodeType, contents: string) returns (node: FeatureNode)
      modifies this
      ensures node.nodeId == old(counter)
      ensures node.nodeType == nodeType && node.contents == contents
      ensures counter == Incremented(old(counter))
      ensures old(counter) < MAX_LONG ==> counter == old(counter) + 1
      ensures forall k: nat :: AllocatedIds(old(counter), k + 1) == [node.nodeId] + AllocatedIds(counter, k)
    {
      node := FeatureNode(counter, nodeType, contents);
      counter := Incremented(counter);
    }
  }
}
