/**
 * Which divergences between replicas last for good: exactly those in which some replica has a node that the head
 * has not. From every other state requests without failures lead back to agreement.
 */
module ChainRepair {
  import opened Types
  import opened Graphs
  import opened Chains

  // ---------- one node or one link, present or absent ----------

  datatype Item = NodeItem(id: NodeId) | LinkItem(a: NodeId, b: NodeId)

  predicate Has(g: Graph, x: Item) {
    match x
    case NodeItem(id) => id in g
    case LinkItem(a, b) => a in g && b in g[a]
  }

  /** The operation that makes the item present, or absent. */
  function Toggle(x: Item, present: bool): Op {
    match x
    case NodeItem(id) => if present then AddNode(id) else RemoveNode(id)
    case LinkItem(a, b) => if present then AddEdge(a, b) else RemoveEdge(a, b)
  }

  /** A link is between two different nodes of the graph. */
  predicate Ready(g: Graph, x: Item) {
    x.LinkItem? ==> x.a != x.b && x.a in g && x.b in g
  }

  /** The graphs differ at most in x; a node takes its links along. */
  ghost predicate SameBut(g: Graph, h: Graph, x: Item) {
    match x
    case NodeItem(id) => forall n: NodeId :: n != id ==> (n in g <==> n in h)
    case LinkItem(a, b) =>
      && g.Keys == h.Keys
      && forall n: NodeId, t: NodeId :: n in g && t in g && Link(n, t) != Link(a, b) ==> (t in g[n] <==> t in h[n])
  }

  lemma ToggleIs(g: Graph, x: Item, present: bool)
    requires WellFormed(g) && Ready(g, x)
    ensures !IsPart(Toggle(x, present)) && Apply(g, Toggle(x, present)).Returned?
    ensures var h := Apply(g, Toggle(x, present)).graph;
      && (Apply(g, Toggle(x, present)).status == Success <==> Has(g, x) != present)
      && WellFormed(h) && (Has(g, x) != present ==> Has(h, x) == present && SameBut(g, h, x))
  {
    ApplyKeepsWellFormed(g, Toggle(x, present));
  }

  // ---------- runs ----------

  /** A run of requests leads from one state to the other. */
  ghost predicate Leads(from: seq<Replica>, to: seq<Replica>) {
    exists states, writes :: Run(states, writes) && states[0] == from && states[|writes|] == to
  }

  ghost predicate LeadsFaultless(from: seq<Replica>, to: seq<Replica>) {
    exists states, writes :: FaultlessRun(states, writes) && states[0] == from && states[|writes|] == to
  }

  lemma LeadsNowhere(rs: seq<Replica>)
    requires rs != []
    ensures LeadsFaultless(rs, rs)
  {
    var states, writes: seq<Write> := [rs], [];
    assert FaultlessRun(states, writes) && states[0] == rs && states[|writes|] == rs;
  }

  lemma LeadsFurther(from: seq<Replica>, rs: seq<Replica>, w: Write, after: seq<Replica>)
    requires LeadsFaultless(from, rs) && WriteStep(rs, w, after) && Faultless(w.faults)
    ensures LeadsFaultless(from, after)
  {
    var states, writes :| FaultlessRun(states, writes) && states[0] == from && states[|writes|] == rs;
    var states', writes' := states + [after], writes + [w];
    assert forall i :: 0 <= i < |writes'| ==> WriteStep(states'[i], writes'[i], states'[i + 1]);
    assert FaultlessRun(states', writes') && states'[0] == from && states'[|writes'|] == after;
  }

  // ---------- bringing one item into line ----------

  ghost predicate Sane(rs: seq<Replica>) {
    |rs| >= 2 && forall j :: 0 <= j < |rs| ==> WellFormed(rs[j].graph)
  }

  /** Every replica can take the operations on x; the head has the nodes that come with it. */
  ghost predicate AllReady(rs: seq<Replica>, x: Item) {
    && rs != [] && (x.NodeItem? ==> x.id in rs[0].graph)
    && forall j :: 0 <= j < |rs| ==> Ready(rs[j].graph, x)
  }

  /** The head is as it was, and the others differ at most in x. */
  ghost predicate Adjusted(rs: seq<Replica>, x: Item, after: seq<Replica>) {
    && |after| == |rs| >= 1 && after[0] == rs[0]
    && forall j :: 0 <= j < |rs| ==> SameBut(rs[j].graph, after[j].graph, x)
  }

  lemma AdjustedTwice(rs: seq<Replica>, x: Item, mid: seq<Replica>, after: seq<Replica>)
    requires Adjusted(rs, x, mid) && Adjusted(mid, x, after)
    ensures Adjusted(rs, x, after)
  {
    forall j | 0 <= j < |rs|
      ensures SameBut(rs[j].graph, after[j].graph, x)
    {
      assert SameBut(rs[j].graph, mid[j].graph, x) && SameBut(mid[j].graph, after[j].graph, x);
    }
  }

  /** One request without failures that the replicas from 1 up to m apply, and the head does not. */
  lemma Flip(from: seq<Replica>, rs: seq<Replica>, x: Item, present: bool, m: nat) returns (after: seq<Replica>)
    requires LeadsFaultless(from, rs) && Sane(rs) && AllReady(rs, x) && 1 <= m <= |rs|
    requires forall j :: 1 <= j < m ==> Has(rs[j].graph, x) != present
    requires Has(rs[if m < |rs| then m else 0].graph, x) == present
    ensures LeadsFaultless(from, after) && Sane(after) && AllReady(after, x) && Adjusted(rs, x, after)
    ensures forall j :: 1 <= j < |rs| ==> Has(after[j].graph, x) == if j < m then present else Has(rs[j].graph, x)
  {
    var op := Toggle(x, present);
    forall j | 0 <= j < |rs|
      ensures Succeeds(rs[j], op) <==> Has(rs[j].graph, x) != present
      ensures Succeeds(rs[j], op) ==> WellFormed(Apply(rs[j].graph, op).graph) && Ready(Apply(rs[j].graph, op).graph, x)
      ensures Succeeds(rs[j], op) ==> Has(Apply(rs[j].graph, op).graph, x) == present
      ensures Succeeds(rs[j], op) ==> SameBut(rs[j].graph, Apply(rs[j].graph, op).graph, x)
    {
      ToggleIs(rs[j].graph, x, present);
    }
    var faults := seq(|rs|, _ => NO_FAULT);
    var response := Answer(rs, op, faults, m);
    after := seq(|rs|, j requires 0 <= j < |rs| => if 1 <= j < m then Applied(rs[j], op) else rs[j]);
    assert WriteStep(rs, Write(op, faults, response, m), after);
    LeadsFurther(from, rs, Write(op, faults, response, m), after);
  }

  /** If the replicas from 1 to p have the same in x, requests make all others, and then the head's value, follow. */
  lemma {:induction false} Align(from: seq<Replica>, rs: seq<Replica>, x: Item, p: nat) returns (after: seq<Replica>)
    requires LeadsFaultless(from, rs) && Sane(rs) && AllReady(rs, x) && 1 <= p < |rs|
    requires forall j :: 1 <= j <= p ==> Has(rs[j].graph, x) == Has(rs[1].graph, x)
    ensures LeadsFaultless(from, after) && Sane(after) && Adjusted(rs, x, after)
    ensures forall j :: 0 <= j < |rs| ==> Has(after[j].graph, x) == Has(rs[0].graph, x)
    decreases |rs| - p
  {
    var present := Has(rs[1].graph, x);
    var wanted := Has(rs[if p + 1 < |rs| then p + 1 else 0].graph, x);
    after := rs;
    if present != wanted {
      after := Flip(from, rs, x, wanted, p + 1);
    }
    if p + 1 < |rs| {
      var mid := after;
      after := Align(from, mid, x, p + 1);
      AdjustedTwice(rs, x, mid, after);
    }
  }

  // ---------- bringing everything into line ----------

  ghost predicate NoOrphans(rs: seq<Replica>) {
    rs != [] && forall j :: 0 <= j < |rs| ==> rs[j].graph.Keys <= rs[0].graph.Keys
  }

  lemma {:induction false} AlignNodes(from: seq<Replica>, rs: seq<Replica>, todo: set<NodeId>) returns (after: seq<Replica>)
    requires LeadsFaultless(from, rs) && Sane(rs) && NoOrphans(rs) && todo <= rs[0].graph.Keys
    requires forall j :: 0 <= j < |rs| ==> rs[0].graph.Keys - todo <= rs[j].graph.Keys
    ensures LeadsFaultless(from, after) && Sane(after) && |after| == |rs|
    ensures forall j :: 0 <= j < |rs| ==> after[j].graph.Keys == after[0].graph.Keys
    decreases |todo|
  {
    after := rs;
    if todo != {} {
      var id :| id in todo;
      var mid := Align(from, rs, NodeItem(id), 1);
      forall j | 0 <= j < |rs|
        ensures mid[j].graph.Keys <= mid[0].graph.Keys && mid[0].graph.Keys - (todo - {id}) <= mid[j].graph.Keys
      {
        assert SameBut(rs[j].graph, mid[j].graph, NodeItem(id));
        assert Has(mid[j].graph, NodeItem(id));
      }
      after := AlignNodes(from, mid, todo - {id});
    }
  }

  /** All replicas have the same nodes, and the same links except perhaps those in `todo`. */
  ghost predicate LinksAgree(rs: seq<Replica>, todo: set<(NodeId, NodeId)>) {
    && rs != []
    && (forall j :: 0 <= j < |rs| ==> rs[j].graph.Keys == rs[0].graph.Keys)
    && forall j, a, b :: 0 <= j < |rs| && a in rs[0].graph && b in rs[0].graph && a != b && Link(a, b) !in todo ==>
         (b in rs[j].graph[a] <==> b in rs[0].graph[a])
  }

  lemma AllLinksAgree(rs: seq<Replica>)
    requires Sane(rs) && LinksAgree(rs, {})
    ensures Agree(rs)
  {
    forall j | 0 <= j < |rs|
      ensures rs[j].graph == rs[0].graph
    {
      forall a | a in rs[0].graph
        ensures rs[j].graph[a] == rs[0].graph[a]
      {
        forall b
          ensures b in rs[j].graph[a] <==> b in rs[0].graph[a]
        {
          assert WellFormed(rs[j].graph) && WellFormed(rs[0].graph);
          assert b in rs[0].graph && a != b ==> (b in rs[j].graph[a] <==> b in rs[0].graph[a]);
        }
      }
    }
  }

  lemma LinkAligned(rs: seq<Replica>, todo: set<(NodeId, NodeId)>, l: (NodeId, NodeId), after: seq<Replica>)
    requires Sane(rs) && Sane(after) && LinksAgree(rs, todo) && l in todo && Adjusted(rs, LinkItem(l.0, l.1), after)
    requires l.0 < l.1 && l.0 in rs[0].graph && l.1 in rs[0].graph
    requires forall j :: 0 <= j < |rs| ==> Has(after[j].graph, LinkItem(l.0, l.1)) == Has(rs[0].graph, LinkItem(l.0, l.1))
    ensures LinksAgree(after, todo - {l})
  {
    var x := LinkItem(l.0, l.1);
    forall j | 0 <= j < |rs|
      ensures after[j].graph.Keys == rs[0].graph.Keys
    {
      assert SameBut(rs[j].graph, after[j].graph, x);
    }
    forall j, a, b | 0 <= j < |rs| && a in rs[0].graph && b in rs[0].graph && a != b && Link(a, b) !in todo - {l}
      ensures b in after[j].graph[a] <==> b in rs[0].graph[a]
    {
      assert SameBut(rs[j].graph, after[j].graph, x);
      if Link(a, b) == l {
        assert Has(after[j].graph, x) == Has(rs[0].graph, x);
      }
    }
  }

  lemma AlignLink(from: seq<Replica>, rs: seq<Replica>, todo: set<(NodeId, NodeId)>, l: (NodeId, NodeId))
    returns (after: seq<Replica>)
    requires LeadsFaultless(from, rs) && Sane(rs) && LinksAgree(rs, todo)
    requires l in todo && l.0 < l.1 && l.0 in rs[0].graph && l.1 in rs[0].graph
    ensures LeadsFaultless(from, after) && Sane(after) && LinksAgree(after, todo - {l}) && after[0] == rs[0]
  {
    assert forall j :: 0 <= j < |rs| ==> rs[j].graph.Keys == rs[0].graph.Keys;
    after := Align(from, rs, LinkItem(l.0, l.1), 1);
    LinkAligned(rs, todo, l, after);
  }

  lemma {:induction false} AlignLinks(from: seq<Replica>, rs: seq<Replica>, todo: set<(NodeId, NodeId)>)
    returns (after: seq<Replica>)
    requires LeadsFaultless(from, rs) && Sane(rs) && LinksAgree(rs, todo)
    requires forall l :: l in todo ==> l.0 < l.1 && l.0 in rs[0].graph && l.1 in rs[0].graph
    ensures LeadsFaultless(from, after) && Agree(after)
    decreases |todo|
  {
    after := rs;
    if todo == {} {
      AllLinksAgree(rs);
    } else {
      var l :| l in todo;
      after := AlignLink(from, rs, todo, l);
      after := AlignLinks(from, after, todo - {l});
    }
  }

  /**
   * For every chain of well-formed stores, however they differ: requests can bring them back to agreement, even
   * requests without failures, if and only if no replica has a node that the head has not.
   */
  lemma RepairableIff(rs: seq<Replica>)
    requires rs != [] && forall j :: 0 <= j < |rs| ==> WellFormed(rs[j].graph)
    ensures (exists after :: LeadsFaultless(rs, after) && Agree(after)) <==> NoOrphans(rs)
    ensures (exists after :: Leads(rs, after) && Agree(after)) <==> NoOrphans(rs)
  {
    LeadsNowhere(rs);
    if |rs| >= 2 && NoOrphans(rs) {
      var mid := AlignNodes(rs, rs, rs[0].graph.Keys);
      var keys := mid[0].graph.Keys;
      var after := AlignLinks(rs, mid, set a, b | a in keys && b in keys && a < b :: (a, b));
      FaultlessLeads(rs, after);
    } else if |rs| == 1 {
      FaultlessLeads(rs, rs);
    } else {
      var j :| 0 <= j < |rs| && !(rs[j].graph.Keys <= rs[0].graph.Keys);
      var id :| id in rs[j].graph && id !in rs[0].graph;
      OrphanDisagrees(rs, j, id);
    }
  }

  lemma FaultlessLeads(from: seq<Replica>, to: seq<Replica>)
    requires LeadsFaultless(from, to)
    ensures Leads(from, to)
  {
    var states, writes :| FaultlessRun(states, writes) && states[0] == from && states[|writes|] == to;
    assert Run(states, writes);
  }

  lemma OrphanDisagrees(rs: seq<Replica>, j: nat, id: NodeId)
    requires Orphan(rs, j, id)
    ensures forall after :: Leads(rs, after) ==> !Agree(after)
    ensures forall after :: LeadsFaultless(rs, after) ==> !Agree(after)
  {
    forall after | Leads(rs, after)
      ensures !Agree(after)
    {
      var states, writes :| Run(states, writes) && states[0] == rs && states[|writes|] == after;
      OrphanForever(states, writes, j, id);
    }
    forall after | LeadsFaultless(rs, after)
      ensures Leads(rs, after)
    {
      FaultlessLeads(rs, after);
    }
  }

  /** A request that leaves agreeing replicas divided does so for good exactly if it was the insertion of a node. */
  lemma DivisionIsPermanentIff(before: seq<Replica>, w: Write, after: seq<Replica>)
    requires before != [] && Agree(before) && WellFormed(before[0].graph) && WriteStep(before, w, after) && !Agree(after)
    ensures (forall later :: Leads(after, later) ==> !Agree(later)) <==> w.op.AddNode?
  {
    var g := before[0].graph;
    ApplyKeepsWellFormed(g, w.op);
    var h := Apply(g, w.op).graph;
    forall j | 0 <= j < |after|
      ensures after[j].graph == g || after[j].graph == h
    {
      assert before[j].graph == g;
    }
    AgreementIsKeptIff(before, w.op, w.faults, w.response, w.reached, after);
    HeadStaysBehind(before, w, after);
    RepairableIff(after);
    if w.op.AddNode? {
      assert after[1].graph == h && w.op.id in h && w.op.id !in g;
    } else {
      assert h.Keys <= g.Keys;
    }
  }

  /** In a division, the head's successor applied the operation and the head did not. */
  lemma HeadStaysBehind(before: seq<Replica>, w: Write, after: seq<Replica>)
    requires before != [] && Agree(before) && WriteStep(before, w, after) && !Agree(after)
    ensures |after| == |before| >= 2 && after[0] == before[0]
    ensures Succeeds(before[1], w.op) && after[1] == Applied(before[1], w.op)
  {
    assert w.response != Ok200 && w.reached == 1 ==> after == before;
    if w.response == Ok200 {
      AcknowledgedKeepsAgreement(before, w, after);
    }
  }

  lemma AcknowledgedKeepsAgreement(before: seq<Replica>, w: Write, after: seq<Replica>)
    requires Agree(before) && WriteStep(before, w, after) && w.response == Ok200
    ensures Agree(after)
  {
    assert forall j :: 0 <= j < |before| ==> after[j] == Applied(before[j], w.op);
  }
}
