/** The in-memory graph store (src/db/memory_store.cc). */
module MemoryStores {
  import opened Types
  import opened Graphs
  import opened Paths

  /** How a call ends: it returns a status, or a failing runtime `invariant` ends the process. */
  datatype Call = Done(status: Status) | Died

  ghost predicate Agrees(call: Call, after: Graph, expected: Outcome) {
    match expected
    case Aborted => call.Died?
    case Returned(status, graph) => call == Done(status) && after == graph
  }

  /** What a shortest-path query answers. */
  datatype PathAnswer = Length(distance: nat) | NoLength(status: Status) | SearchDied

  ghost function Ids(queue: seq<Node>): set<NodeId> {
    set i | 0 <= i < |queue| :: queue[i].id
  }

  class MemoryStore {
    var nodes: map<NodeId, Node>
    /** The node objects of this store, present and past. */
    ghost var repr: set<Node>

    /** Each node sits under its own id; in particular no node object is stored twice. */
    ghost predicate Valid()
      reads this
    {
      forall id :: id in nodes ==> nodes[id].id == id && nodes[id] in repr
    }

    ghost function Contents(): Graph
      reads this, repr
    {
      map id | id in nodes && nodes[id] in repr :: nodes[id].edges
    }

    constructor ()
      ensures Valid() && Contents() == map[] && nodes == map[] && repr == {}
    {
      nodes, repr := map[], {};
    }

    method AddNode(nodeId: NodeId) returns (status: Status)
      requires Valid()
      modifies this
      ensures Valid() && fresh(repr - old(repr))
      ensures Agrees(Done(status), Contents(), AfterAddNode(old(Contents()), nodeId))
      ensures forall id :: id in old(nodes) ==> id in nodes && nodes[id] == old(nodes)[id]
    {
      if nodeId in nodes {
        return NoAction;
      }
      var node := new Node(nodeId);
      nodes := nodes[nodeId := node];
      repr := repr + {node};
      return Success;
    }

    method FindNode(nodeId: NodeId) returns (node: Node?)
      requires Valid()
      ensures node == null <==> nodeId !in Contents()
      ensures node != null ==> nodeId in nodes && node == nodes[nodeId]
    {
      node := if nodeId in nodes then nodes[nodeId] else null;
    }

    method RemoveNode(nodeId: NodeId) returns (call: Call)
      requires Valid()
      modifies this, repr
      ensures Valid() && repr == old(repr)
      ensures Agrees(call, Contents(), AfterRemoveNode(old(Contents()), nodeId))
    {
      if nodeId !in nodes {
        return Done(DoesNotExist);
      }
      ghost var g := Contents();
      var edges := nodes[nodeId].edges;
      var rest := edges;
      while rest != {}
        invariant rest <= edges && nodes == old(nodes) && repr == old(repr) && Valid()
        invariant edges - rest <= nodes.Keys
        invariant Contents() == map n | n in g :: if n in edges - rest then g[n] - {nodeId} else g[n]
      {
        var neighborId :| neighborId in rest;
        if neighborId !in nodes {
          return Died;
        }
        var removed := nodes[neighborId].RemoveEdge(nodeId);
        rest := rest - {neighborId};
      }
      assert edges - rest == edges;
      nodes := nodes - {nodeId};
      assert Contents() == WithoutNode(g, nodeId);
      return Done(Success);
    }

    /** The two nodes of an edge, if it exists; the runtime checks compare its two ends. */
    method GetEdge(a: NodeId, b: NodeId) returns (call: Call, nodeA: Node?, nodeB: Node?)
      requires Valid()
      ensures call.Died? <==> a != b && a in Contents() && b in Contents() && (b in Contents()[a]) != (a in Contents()[b])
      ensures call.Done? ==> call.status ==
                             if a == b then Invalid
                             else if a in Contents() && b in Contents() && b in Contents()[a] then Success
                             else DoesNotExist
      ensures if call == Done(Success) then a in nodes && b in nodes && nodeA == nodes[a] && nodeB == nodes[b]
              else nodeA == nodeB == null
    {
      if a == b {
        return Done(Invalid), null, null;
      }
      if a !in nodes || b !in nodes {
        return Done(DoesNotExist), null, null;
      }
      if nodes[a].HasEdge(b) {
        if nodes[b].HasEdge(a) {
          return Done(Success), nodes[a], nodes[b];
        }
        return Died, null, null;
      }
      return if nodes[b].HasEdge(a) then Died else Done(DoesNotExist), null, null;
    }

    method AddEdge(a: NodeId, b: NodeId) returns (call: Call)
      requires Valid()
      modifies repr
      ensures Valid()
      ensures Agrees(call, Contents(), AfterAddEdge(old(Contents()), a, b))
    {
      if a == b {
        return Done(Invalid);
      }
      if a !in nodes || b !in nodes {
        return Done(DoesNotExist);
      }
      var addedA := nodes[a].AddEdge(b);
      var addedB := nodes[b].AddEdge(a);
      if addedA != addedB {
        return Died;
      }
      if !addedA {
        assert nodes[a].edges == old(nodes[a].edges) && nodes[b].edges == old(nodes[b].edges);
        assert Contents() == old(Contents());
      }
      return Done(if addedA then Success else NoAction);
    }

    method RemoveEdge(a: NodeId, b: NodeId) returns (call: Call)
      requires Valid()
      modifies repr
      ensures Valid()
      ensures Agrees(call, Contents(), AfterRemoveEdge(old(Contents()), a, b))
    {
      var nodeA, nodeB;
      call, nodeA, nodeB := GetEdge(a, b);
      if call != Done(Success) {
        return;
      }
      var removedA := nodeA.RemoveEdge(b);
      var removedB := nodeB.RemoveEdge(a);
      if removedA != removedB {
        return Died;
      }
      return Done(if removedA then Success else DoesNotExist);
    }

    method AddEdgePart(local: NodeId, remote: NodeId) returns (status: Status)
      requires Valid()
      modifies repr
      ensures Valid()
      ensures Agrees(Done(status), Contents(), AfterAddEdgePart(old(Contents()), local, remote))
    {
      if local == remote {
        return Invalid;
      }
      if local !in nodes {
        return DoesNotExist;
      }
      var added := nodes[local].AddEdge(remote);
      if !added {
        assert nodes[local].edges == old(nodes[local].edges);
        assert Contents() == old(Contents());
      }
      return if added then Success else NoAction;
    }

    method RemoveEdgePart(local: NodeId, remote: NodeId) returns (status: Status)
      requires Valid()
      modifies repr
      ensures Valid()
      ensures Agrees(Done(status), Contents(), AfterRemoveEdgePart(old(Contents()), local, remote))
    {
      if local !in nodes || !nodes[local].HasEdge(remote) {
        return DoesNotExist;
      }
      var removed := nodes[local].RemoveEdge(remote);
      return if removed then Success else DoesNotExist;
    }

    ghost predicate Stored(queue: seq<Node>)
      reads this
    {
      forall n :: n in queue ==> n.id in nodes && nodes[n.id] == n
    }

    /** The inner loop of the search: queue every neighbour of n that was not found before. */
    method QueueNeighbors(n: Node, found: set<NodeId>, queue: seq<Node>)
      returns (died: bool, found': set<NodeId>, queue': seq<Node>)
      requires Valid() && Stored(queue)
      ensures died ==> !(n.edges <= nodes.Keys)
      ensures !died ==> found' == found + n.edges && n.edges - found <= nodes.Keys
      ensures !died ==> Stored(queue') && Ids(queue') == Ids(queue) + (n.edges - found)
    {
      died, found', queue' := false, found, queue;
      var rest := n.edges;
      while rest != {}
        invariant rest <= n.edges
        invariant found' == found + (n.edges - rest) && n.edges - rest - found <= nodes.Keys
        invariant Stored(queue') && Ids(queue') == Ids(queue) + (n.edges - rest - found)
      {
        var edgeId :| edgeId in rest;
        rest := rest - {edgeId};
        if edgeId in found' {
          continue;
        }
        found' := found' + {edgeId};
        if edgeId !in nodes {
          died := true;
          return;
        }
        IdsAppend(queue', nodes[edgeId]);
        queue' := queue' + [nodes[edgeId]];
      }
    }

    /** One round of the search over the whole queue; `hit` says that b was met. */
    method SearchRound(toSearch: seq<Node>, found: set<NodeId>, b: NodeId)
      returns (hit: bool, died: bool, found': set<NodeId>, nextSearch: seq<Node>)
      requires Valid() && Stored(toSearch)
      ensures hit ==> b in Ids(toSearch)
      ensures died ==> exists c :: c in Ids(toSearch) && Dangling(Contents(), c)
      ensures !hit && !died ==> b !in Ids(toSearch)
      ensures !hit && !died ==> found' == found + Successors(Contents(), Ids(toSearch))
      ensures !hit && !died ==> Successors(Contents(), Ids(toSearch)) - found <= nodes.Keys
      ensures !hit && !died ==> Ids(nextSearch) == Successors(Contents(), Ids(toSearch)) - found && Stored(nextSearch)
    {
      hit, died, found', nextSearch := false, false, found, [];
      ghost var g, reached := Contents(), {};
      for i := 0 to |toSearch|
        invariant !hit && !died && b !in Ids(toSearch[..i])
        invariant reached == Successors(g, Ids(toSearch[..i]))
        invariant found' == found + reached && reached - found <= nodes.Keys
        invariant Ids(nextSearch) == reached - found && Stored(nextSearch)
      {
        var n := toSearch[i];
        assert n in toSearch && n.edges == g[n.id];
        IdsAppend(toSearch[..i], n);
        assert toSearch[..i] + [n] == toSearch[..i + 1];
        if n.id == b {
          hit := true;
          return;
        }
        SuccessorsOfOneMore(g, Ids(toSearch[..i]), n.id);
        died, found', nextSearch := QueueNeighbors(n, found', nextSearch);
        if died {
          assert n.id in Ids(toSearch) && Dangling(g, n.id);
          return;
        }
        reached := reached + n.edges;
      }
      assert toSearch[..|toSearch|] == toSearch;
    }

    /**
     * Breadth-first search. The start node is not put in `found`, so it is expanded a second time when an
     * edge leads back to it. A dangling edge ends the process only if its node is no farther than b; whether it
     * does so at the same distance depends on the iteration order.
     */
    method ShortestPath(a: NodeId, b: NodeId) returns (answer: PathAnswer)
      requires Valid()
      ensures answer == NoLength(DoesNotExist) <==> a !in Contents() || b !in Contents()
      ensures answer.Length? ==>
                a != b && IsDistance(Contents(), a, b, answer.distance) && !DanglesBefore(Contents(), a, answer.distance)
      ensures answer.NoLength? && answer.status != DoesNotExist ==>
                && answer.status == NoAction
                && (a == b || (!Reachable(Contents(), a, b) && NothingDangles(Contents(), a)))
      ensures answer.SearchDied? ==> a != b && MayDie(Contents(), a, b)
    {
      if a !in nodes || b !in nodes {
        return NoLength(DoesNotExist);
      }
      if a == b {
        return NoLength(NoAction);
      }
      answer := Search(a, b);
    }

    /** A round of the search, and what it shows. */
    method CheckedRound(a: NodeId, b: NodeId, ghost distance: nat, toSearch: seq<Node>, found: set<NodeId>)
      returns (hit: bool, died: bool, found': set<NodeId>, nextSearch: seq<Node>)
      requires Valid() && Stored(toSearch) && Round(Contents(), a, b, distance, found, Ids(toSearch))
      ensures hit ==> IsDistance(Contents(), a, b, distance) && !DanglesBefore(Contents(), a, distance)
      ensures died ==> MayDie(Contents(), a, b)
      ensures !hit && !died ==>
                && Stored(nextSearch) && Round(Contents(), a, b, distance + 1, found', Ids(nextSearch))
                && found <= found' <= nodes.Keys && (nextSearch != [] ==> found' != found)
    {
      ghost var g, queued := Contents(), Ids(toSearch);
      hit, died, found', nextSearch := SearchRound(toSearch, found, b);
      if hit {
        MetInRound(g, a, b, distance, found, queued);
      }
      if died {
        DangledInRound(g, a, b, distance, found, queued);
      }
      if !hit && !died {
        NextRound(g, a, b, distance, found, queued);
        if nextSearch != [] {
          assert nextSearch[0].id in Ids(nextSearch);
        }
      }
    }

    method Search(a: NodeId, b: NodeId) returns (answer: PathAnswer)
      requires Valid() && a in nodes && b in nodes && a != b
      ensures match answer
              case Length(d) => IsDistance(Contents(), a, b, d) && !DanglesBefore(Contents(), a, d)
              case NoLength(status) =>
                status == NoAction && !Reachable(Contents(), a, b) && NothingDangles(Contents(), a)
              case SearchDied => MayDie(Contents(), a, b)
    {
      ghost var g := Contents();
      var distance := 0;
      var toSearch := [nodes[a]];
      var found: set<NodeId> := {};
      IdsAppend([], nodes[a]);
      FirstRound(g, a, b);
      while toSearch != []
        invariant Round(g, a, b, distance, found, Ids(toSearch))
        invariant Stored(toSearch)
        decreases nodes.Keys - found, |toSearch|
      {
        var hit, died, found', nextSearch := CheckedRound(a, b, distance, toSearch, found);
        if hit {
          return Length(distance);
        }
        if died {
          return SearchDied;
        }
        distance, toSearch, found := distance + 1, nextSearch, found';
      }
      NotMetIsUnreachable(g, a, b, distance, found);
      return NoLength(NoAction);
    }
  }

  lemma IdsAppend(queue: seq<Node>, n: Node)
    ensures Ids(queue + [n]) == Ids(queue) + {n.id}
  {
    forall x
      ensures x in Ids(queue + [n]) <==> x in Ids(queue) + {n.id}
    {
      if x in Ids(queue) {
        var i :| 0 <= i < |queue| && queue[i].id == x;
        assert (queue + [n])[i].id == x;
      }
      assert (queue + [n])[|queue|] == n;
    }
  }
}
