/** What the store operations do, as functions on graphs, and the laws of those functions. */
module Graphs {
  import opened Types

  /** A store operation with its arguments. */
  datatype Op =
    | AddNode(id: NodeId)
    | RemoveNode(id: NodeId)
    | AddEdge(a: NodeId, b: NodeId)
    | RemoveEdge(a: NodeId, b: NodeId)
    | AddEdgePart(local: NodeId, remote: NodeId)
    | RemoveEdgePart(local: NodeId, remote: NodeId)

  /** A call either returns, or hits a failing runtime `invariant` and ends the process. */
  datatype Outcome = Returned(status: Status, graph: Graph) | Aborted

  /** Edge parts are the one-way edges used between partitions. */
  predicate IsPart(op: Op) {
    op.AddEdgePart? || op.RemoveEdgePart?
  }

  // ---------- the six mutations ----------

  function AfterAddNode(g: Graph, id: NodeId): Outcome {
    if id in g then Returned(NoAction, g) else Returned(Success, g[id := {}])
  }

  function WithoutNode(g: Graph, id: NodeId): Graph
    requires id in g
  {
    map n | n in g && n != id :: if n in g[id] then g[n] - {id} else g[n]
  }

  function AfterRemoveNode(g: Graph, id: NodeId): Outcome {
    if id !in g then Returned(DoesNotExist, g)
    else if !(g[id] <= g.Keys) then Aborted
    else Returned(Success, WithoutNode(g, id))
  }

  function AfterAddEdge(g: Graph, a: NodeId, b: NodeId): Outcome {
    if a == b then Returned(Invalid, g)
    else if a !in g || b !in g then Returned(DoesNotExist, g)
    else if (b in g[a]) != (a in g[b]) then Aborted
    else if b in g[a] then Returned(NoAction, g)
    else Returned(Success, g[a := g[a] + {b}][b := g[b] + {a}])
  }

  function AfterRemoveEdge(g: Graph, a: NodeId, b: NodeId): Outcome {
    if a == b then Returned(Invalid, g)
    else if a !in g || b !in g then Returned(DoesNotExist, g)
    else if (b in g[a]) != (a in g[b]) then Aborted
    else if b !in g[a] then Returned(DoesNotExist, g)
    else Returned(Success, g[a := g[a] - {b}][b := g[b] - {a}])
  }

  function AfterAddEdgePart(g: Graph, local: NodeId, remote: NodeId): Outcome {
    if local == remote then Returned(Invalid, g)
    else if local !in g then Returned(DoesNotExist, g)
    else if remote in g[local] then Returned(NoAction, g)
    else Returned(Success, g[local := g[local] + {remote}])
  }

  function AfterRemoveEdgePart(g: Graph, local: NodeId, remote: NodeId): Outcome {
    if local !in g || remote !in g[local] then Returned(DoesNotExist, g)
    else Returned(Success, g[local := g[local] - {remote}])
  }

  function Apply(g: Graph, op: Op): Outcome {
    match op
    case AddNode(id) => AfterAddNode(g, id)
    case RemoveNode(id) => AfterRemoveNode(g, id)
    case AddEdge(a, b) => AfterAddEdge(g, a, b)
    case RemoveEdge(a, b) => AfterRemoveEdge(g, a, b)
    case AddEdgePart(l, r) => AfterAddEdgePart(g, l, r)
    case RemoveEdgePart(l, r) => AfterRemoveEdgePart(g, l, r)
  }

  // ---------- the graph invariant ----------

  ghost predicate Closed(g: Graph) {
    forall n :: n in g ==> g[n] <= g.Keys
  }

  ghost predicate Symmetric(g: Graph) {
    forall a, b :: a in g && b in g && a != b ==> (b in g[a] <==> a in g[b])
  }

  ghost predicate Irreflexive(g: Graph) {
    forall n :: n in g ==> n !in g[n]
  }

  ghost predicate WellFormed(g: Graph) {
    Closed(g) && Symmetric(g) && Irreflexive(g)
  }

  /** The runtime invariants of the node and edge operations hold for every call exactly on closed symmetric graphs. */
  lemma NeverAbortsIffConsistent(g: Graph)
    ensures (forall op: Op :: !IsPart(op) ==> Apply(g, op).Returned?) <==> Closed(g) && Symmetric(g)
  {
    if forall op: Op :: !IsPart(op) ==> Apply(g, op).Returned? {
      forall n | n in g
        ensures g[n] <= g.Keys
      {
        assert Apply(g, RemoveNode(n)).Returned?;
      }
      forall a, b | a in g && b in g && a != b
        ensures b in g[a] <==> a in g[b]
      {
        assert Apply(g, AddEdge(a, b)).Returned?;
      }
    }
  }

  /** Which status is returned when. */
  lemma StatusesAre(g: Graph, op: Op)
    requires Closed(g) && Symmetric(g) && !IsPart(op) && Apply(g, op).Returned?
    ensures var status := Apply(g, op).status; match op
      case AddNode(id) => status == if id in g then NoAction else Success
      case RemoveNode(id) => status == if id in g then Success else DoesNotExist
      case AddEdge(a, b) =>
        && (status == Invalid <==> a == b)
        && (status == DoesNotExist <==> a != b && !({a, b} <= g.Keys))
        && (status == NoAction <==> a != b && {a, b} <= g.Keys && b in g[a])
        && (status == Success <==> a != b && {a, b} <= g.Keys && b !in g[a])
      case RemoveEdge(a, b) =>
        && (status == Invalid <==> a == b)
        && (status == DoesNotExist <==> a != b && !({a, b} <= g.Keys && b in g[a]))
        && (status == Success <==> a != b && {a, b} <= g.Keys && b in g[a])
      case _ => true
  {
  }

  /** An edge part between two nodes of a store breaks the symmetry that the edge operations rely on. */
  lemma PartBreaksEdges(g: Graph, a: NodeId, b: NodeId)
    requires WellFormed(g) && a != b && a in g && b in g
    ensures var h := AfterAddEdgePart(g, a, b).graph;
      Apply(h, AddEdge(a, b)).Aborted? <==> b !in g[a]
  {
  }

  /** Only the row of the local node can change, and only at the remote id. */
  ghost predicate SameButPart(g: Graph, h: Graph, local: NodeId, remote: NodeId) {
    && h.Keys == g.Keys
    && forall n, b :: n in g && (n != local || b != remote) ==> (b in h[n] <==> b in g[n])
  }

  /** When an edge part is inserted, and what every status means. */
  lemma AddingPart(g: Graph, local: NodeId, remote: NodeId)
    ensures AfterAddEdgePart(g, local, remote).Returned?
    ensures var (status, h) := (AfterAddEdgePart(g, local, remote).status, AfterAddEdgePart(g, local, remote).graph);
      && SameButPart(g, h, local, remote)
      && (status == Success <==> h != g)
      && (status == Success <==> local in g && local != remote && remote !in g[local])
      && (status == Success ==> remote in h[local])
      && (status == Invalid <==> local == remote)
      && (status == DoesNotExist <==> local != remote && local !in g)
      && (status == NoAction <==> local != remote && local in g && remote in g[local])
  {
    var h := AfterAddEdgePart(g, local, remote).graph;
    if local in g && local != remote && remote !in g[local] {
      assert remote in h[local];
    }
  }

  lemma RemovingPart(g: Graph, local: NodeId, remote: NodeId)
    ensures AfterRemoveEdgePart(g, local, remote).Returned?
    ensures var (status, h) := (AfterRemoveEdgePart(g, local, remote).status, AfterRemoveEdgePart(g, local, remote).graph);
      && SameButPart(g, h, local, remote)
      && (status == Success <==> h != g)
      && (status == Success <==> local in g && remote in g[local])
      && (status == Success ==> remote !in h[local])
      && (status == DoesNotExist <==> status != Success)
  {
    var h := AfterRemoveEdgePart(g, local, remote).graph;
    if local in g && remote in g[local] {
      assert remote !in h[local];
    }
  }

  /** Removing a part undoes its insertion, and inserting it again undoes a removal. */
  lemma PartsUndo(g: Graph, local: NodeId, remote: NodeId)
    ensures var added := AfterAddEdgePart(g, local, remote);
      added.status == Success ==> AfterRemoveEdgePart(added.graph, local, remote) == Returned(Success, g)
    ensures var removed := AfterRemoveEdgePart(g, local, remote);
      removed.status == Success && local != remote ==> AfterAddEdgePart(removed.graph, local, remote) == Returned(Success, g)
  {
    if local in g {
      assert remote !in g[local] ==> g[local] + {remote} - {remote} == g[local];
      assert remote in g[local] ==> g[local] - {remote} + {remote} == g[local];
    }
  }

  // ---------- the simple form: a set of nodes and a set of unordered links ----------

  /** An undirected simple graph: each link is stored once, smaller end first. */
  datatype Undirected = Undirected(nodes: set<NodeId>, links: set<(NodeId, NodeId)>)

  function Link(a: NodeId, b: NodeId): (NodeId, NodeId) {
    if a < b then (a, b) else (b, a)
  }

  ghost function Links(g: Graph): set<(NodeId, NodeId)> {
    set a, b | a in g && b in g[a] && a < b :: (a, b)
  }

  ghost function Abstract(g: Graph): Undirected {
    Undirected(g.Keys, Links(g))
  }

  predicate Touches(link: (NodeId, NodeId), id: NodeId) {
    link.0 == id || link.1 == id
  }

  /** The four operations as anyone would write them on a set of nodes and a set of links. */
  function SimpleApply(u: Undirected, op: Op): (Status, Undirected)
    requires !IsPart(op)
  {
    match op
    case AddNode(id) =>
      if id in u.nodes then (NoAction, u) else (Success, u.(nodes := u.nodes + {id}))
    case RemoveNode(id) =>
      if id !in u.nodes then (DoesNotExist, u)
      else (Success, Undirected(u.nodes - {id}, set l | l in u.links && !Touches(l, id)))
    case AddEdge(a, b) =>
      if a == b then (Invalid, u)
      else if a !in u.nodes || b !in u.nodes then (DoesNotExist, u)
      else if Link(a, b) in u.links then (NoAction, u)
      else (Success, u.(links := u.links + {Link(a, b)}))
    case RemoveEdge(a, b) =>
      if a == b then (Invalid, u)
      else if a !in u.nodes || b !in u.nodes || Link(a, b) !in u.links then (DoesNotExist, u)
      else (Success, u.(links := u.links - {Link(a, b)}))
  }

  lemma LinkIffEdge(g: Graph, a: NodeId, b: NodeId)
    requires WellFormed(g) && a != b && a in g && b in g
    ensures Link(a, b) in Links(g) <==> b in g[a]
  {
  }

  lemma LinksOfEdgeChange(g: Graph, a: NodeId, b: NodeId)
    requires WellFormed(g) && a != b && a in g && b in g
    ensures Links(g[a := g[a] + {b}][b := g[b] + {a}]) == Links(g) + {Link(a, b)}
    ensures Links(g[a := g[a] - {b}][b := g[b] - {a}]) == Links(g) - {Link(a, b)}
  {
    var h := g[a := g[a] + {b}][b := g[b] + {a}];
    forall x, y
      ensures (x, y) in Links(h) <==> (x, y) in Links(g) + {Link(a, b)}
    {
    }
    var k := g[a := g[a] - {b}][b := g[b] - {a}];
    forall x, y
      ensures (x, y) in Links(k) <==> (x, y) in Links(g) - {Link(a, b)}
    {
    }
  }

  lemma LinksOfRemoval(g: Graph, id: NodeId)
    requires WellFormed(g) && id in g
    ensures WithoutNode(g, id).Keys == g.Keys - {id}
    ensures Links(WithoutNode(g, id)) == set l | l in Links(g) && !Touches(l, id)
  {
  }

  /**
   * On a well-formed graph no runtime invariant fails, the result is well-formed again, and an unsuccessful status
   * changes nothing.
   */
  lemma ApplyKeepsWellFormed(g: Graph, op: Op)
    requires WellFormed(g) && !IsPart(op)
    ensures Apply(g, op).Returned?
    ensures WellFormed(Apply(g, op).graph)
    ensures !Apply(g, op).status.Success? ==> Apply(g, op).graph == g
  {
  }

  /** On a well-formed graph status and result of every operation are those of the simple undirected graph. */
  lemma ApplyRefinesSimple(g: Graph, op: Op)
    requires WellFormed(g) && !IsPart(op)
    ensures Apply(g, op).Returned?
    ensures SimpleApply(Abstract(g), op) == (Apply(g, op).status, Abstract(Apply(g, op).graph))
  {
    ApplyKeepsWellFormed(g, op);
    match op
    case AddNode(id) =>
      assert id !in g ==> g[id := {}].Keys == g.Keys + {id};
      assert Links(Apply(g, op).graph) == Links(g);
    case RemoveNode(id) =>
      if id in g {
        LinksOfRemoval(g, id);
      }
    case AddEdge(a, b) =>
      EdgeOpsRefine(g, a, b);
    case RemoveEdge(a, b) =>
      EdgeOpsRefine(g, a, b);
  }

  lemma EdgeOpsRefine(g: Graph, a: NodeId, b: NodeId)
    requires WellFormed(g)
    ensures AfterAddEdge(g, a, b).Returned? && AfterRemoveEdge(g, a, b).Returned?
    ensures SimpleApply(Abstract(g), AddEdge(a, b))
            == (AfterAddEdge(g, a, b).status, Abstract(AfterAddEdge(g, a, b).graph))
    ensures SimpleApply(Abstract(g), RemoveEdge(a, b))
            == (AfterRemoveEdge(g, a, b).status, Abstract(AfterRemoveEdge(g, a, b).graph))
  {
    if a != b && a in g && b in g {
      LinkIffEdge(g, a, b);
      LinksOfEdgeChange(g, a, b);
      assert g[a := g[a] + {b}][b := g[b] + {a}].Keys == g.Keys;
      assert g[a := g[a] - {b}][b := g[b] - {a}].Keys == g.Keys;
    }
  }

  /** Nothing is lost by the simple view: it determines a well-formed graph. */
  lemma AbstractIsInjective(g: Graph, h: Graph)
    requires WellFormed(g) && WellFormed(h) && Abstract(g) == Abstract(h)
    ensures g == h
  {
    forall a | a in g
      ensures g[a] == h[a]
    {
      forall b: NodeId
        ensures b in g[a] <==> b in h[a]
      {
        if a != b && b in g {
          LinkIffEdge(g, a, b);
          LinkIffEdge(h, a, b);
        }
      }
    }
  }

  // ---------- counting edges ----------

  /** The directed edges stored in the adjacency sets. */
  ghost function Arcs(g: Graph): set<(NodeId, NodeId)> {
    set a, b | a in g && b in g[a] :: (a, b)
  }

  ghost function Flipped(s: set<(NodeId, NodeId)>): set<(NodeId, NodeId)> {
    set l | l in s :: (l.1, l.0)
  }

  lemma {:induction false} FlippedSize(s: set<(NodeId, NodeId)>)
    ensures |Flipped(s)| == |s|
  {
    if s != {} {
      var l :| l in s;
      FlippedSize(s - {l});
      assert Flipped(s) == Flipped(s - {l}) + {(l.1, l.0)};
    }
  }

  /** The handshake lemma: every link is stored on both of its ends. */
  lemma Handshake(g: Graph)
    requires WellFormed(g)
    ensures |Arcs(g)| == 2 * |Links(g)|
  {
    FlippedSize(Links(g));
    assert Arcs(g) == Links(g) + Flipped(Links(g)) by {
      forall a, b
        ensures (a, b) in Arcs(g) <==> (a, b) in Links(g) + Flipped(Links(g))
      {
        assert (b, a) in Links(g) ==> (a, b) in Flipped(Links(g));
      }
    }
    assert Links(g) !! Flipped(Links(g));
  }

  // ---------- runs ----------

  /** Apply operations in turn; statuses are ignored, as a replay ignores them. */
  function ApplyAll(g: Graph, ops: seq<Op>): Outcome {
    if ops == [] then Returned(Success, g)
    else
      match ApplyAll(g, ops[..|ops| - 1])
      case Aborted => Aborted
      case Returned(_, h) =>
        match Apply(h, ops[|ops| - 1])
        case Aborted => Aborted
        case Returned(_, k) => Returned(Success, k)
  }

  function SimpleApplyAll(u: Undirected, ops: seq<Op>): Undirected
    requires forall op :: op in ops ==> !IsPart(op)
  {
    if ops == [] then u else SimpleApply(SimpleApplyAll(u, ops[..|ops| - 1]), ops[|ops| - 1]).1
  }

  /** Over every run of node and edge operations the store stays a well-formed graph and tracks the simple one. */
  lemma {:induction false} RunRefinesSimple(g: Graph, ops: seq<Op>)
    requires WellFormed(g)
    requires forall op :: op in ops ==> !IsPart(op)
    ensures ApplyAll(g, ops).Returned?
    ensures WellFormed(ApplyAll(g, ops).graph)
    ensures Abstract(ApplyAll(g, ops).graph) == SimpleApplyAll(Abstract(g), ops)
  {
    if ops != [] {
      var init := ops[..|ops| - 1];
      RunRefinesSimple(g, init);
      ApplyKeepsWellFormed(ApplyAll(g, init).graph, ops[|ops| - 1]);
      ApplyRefinesSimple(ApplyAll(g, init).graph, ops[|ops| - 1]);
    }
  }
}
