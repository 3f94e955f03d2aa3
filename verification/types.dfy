/** Node identifiers, status codes and the Node class (src/db/types.h, src/db/types.cc, src/util/status.h). */
module Types {

  /** NodeId is int64_t. */
  type NodeId = id: int | -0x8000_0000_0000_0000 <= id < 0x8000_0000_0000_0000

  /** The status codes the modelled operations can return. */
  datatype Status = Success | NoAction | DoesNotExist | Invalid | NoSpace

  /** What a store holds: every node id with the set of ids its edges point to. */
  type Graph = map<NodeId, set<NodeId>>

  /** A node owns the set of ids its edges lead to. */
  class Node {
    const id: NodeId
    var edges: set<NodeId>

    constructor (id: NodeId)
      ensures this.id == id && edges == {}
    {
      this.id := id;
      edges := {};
    }

    method AddEdge(node: NodeId) returns (added: bool)
      modifies this
      ensures edges == old(edges) + {node}
      ensures added <==> node !in old(edges)
    {
      added := node !in edges;
      edges := edges + {node};
    }

    method RemoveEdge(node: NodeId) returns (removed: bool)
      modifies this
      ensures edges == old(edges) - {node}
      ensures removed <==> node in old(edges)
    {
      if node !in edges {
        return false;
      }
      edges := edges - {node};
      return true;
    }

    predicate HasEdge(node: NodeId)
      reads this
    {
      node in edges
    }
  }
}
