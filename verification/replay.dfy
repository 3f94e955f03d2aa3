/**
 * Replaying a log onto a graph. The switch in src/db/logged_store.cc, lines 126-144, has no `break` after
 * REMOVE_EDGE, so that case also runs the edge-part insertion below it. Both readings are defined here: what each
 * entry means, and what the switch does; and the exact condition under which a whole log replays the same.
 */
module Replays {
  import opened Types
  import opened Words
  import opened Graphs
  import opened LogLayout

  function EntryOf(op: Op): Entry {
    match op
    case AddNode(id) => Entry(ADD_NODE, id, 0)
    case RemoveNode(id) => Entry(REMOVE_NODE, id, 0)
    case AddEdge(a, b) => Entry(ADD_EDGE, a, b)
    case RemoveEdge(a, b) => Entry(REMOVE_EDGE, a, b)
    case AddEdgePart(l, r) => Entry(ADD_EDGE_PART, l, r)
    case RemoveEdgePart(l, r) => Entry(REMOVE_EDGE_PART, l, r)
  }

  predicate IsPartEntry(e: Entry) {
    e.opcode == ADD_EDGE_PART || e.opcode == REMOVE_EDGE_PART
  }

  /** What an entry means: the operation it was logged for. An unknown code means nothing. */
  function Meaning(g: Graph, e: Entry): Outcome {
    if e.opcode == ADD_NODE then AfterAddNode(g, e.idA)
    else if e.opcode == REMOVE_NODE then AfterRemoveNode(g, e.idA)
    else if e.opcode == ADD_EDGE then AfterAddEdge(g, e.idA, e.idB)
    else if e.opcode == REMOVE_EDGE then AfterRemoveEdge(g, e.idA, e.idB)
    else if e.opcode == ADD_EDGE_PART then AfterAddEdgePart(g, e.idA, e.idB)
    else if e.opcode == REMOVE_EDGE_PART then AfterRemoveEdgePart(g, e.idA, e.idB)
    else Returned(NoAction, g)
  }

  /** What the switch does with it. */
  function Switch(g: Graph, e: Entry): Outcome {
    if e.opcode == REMOVE_EDGE then
      match AfterRemoveEdge(g, e.idA, e.idB)
      case Aborted => Aborted
      case Returned(_, h) => AfterAddEdgePart(h, e.idA, e.idB)
    else Meaning(g, e)
  }

  /** The graph a log stands for. */
  function Replay(g: Graph, es: seq<Entry>): Outcome {
    if es == [] then Returned(Success, g)
    else
      match Replay(g, es[..|es| - 1])
      case Aborted => Aborted
      case Returned(_, h) =>
        match Meaning(h, es[|es| - 1])
        case Aborted => Aborted
        case Returned(_, k) => Returned(Success, k)
  }

  /** The graph the recovery loop computes. */
  function SwitchAll(g: Graph, es: seq<Entry>): Outcome {
    if es == [] then Returned(Success, g)
    else
      match SwitchAll(g, es[..|es| - 1])
      case Aborted => Aborted
      case Returned(_, h) =>
        match Switch(h, es[|es| - 1])
        case Aborted => Aborted
        case Returned(_, k) => Returned(Success, k)
  }

  /** The loop seen from the front of the log. */
  lemma {:induction false} SwitchFirst(g: Graph, es: seq<Entry>)
    requires es != []
    ensures SwitchAll(g, es) == match Switch(g, es[0])
                                case Aborted => Aborted
                                case Returned(_, h) => SwitchAll(h, es[1..])
    decreases |es|
  {
    var n := |es| - 1;
    if n == 0 {
      assert es[..0] == [] && es[1..] == [];
    } else {
      SwitchFirst(g, es[..n]);
      assert es[..n][1..] == es[1..][..n - 1] && es[1..][n - 1] == es[n];
    }
  }

  lemma LoggedMeaning(g: Graph, op: Op)
    ensures Meaning(g, EntryOf(op)) == Apply(g, op)
    ensures IsPartEntry(EntryOf(op)) <==> IsPart(op)
  {
  }

  lemma ReplayAppend(g: Graph, es: seq<Entry>, op: Op)
    requires Replay(g, es).Returned?
    ensures Replay(g, es + [EntryOf(op)])
            == match Apply(Replay(g, es).graph, op)
               case Aborted => Aborted
               case Returned(_, h) => Returned(Success, h)
  {
    LoggedMeaning(Replay(g, es).graph, op);
    assert (es + [EntryOf(op)])[..|es|] == es;
  }

  lemma {:induction false} ReplayKeepsWellFormed(g: Graph, es: seq<Entry>)
    requires WellFormed(g) && forall e :: e in es ==> !IsPartEntry(e)
    ensures Replay(g, es).Returned? && WellFormed(Replay(g, es).graph)
  {
    if es != [] {
      ReplayKeepsWellFormed(g, es[..|es| - 1]);
      MeaningKeepsWellFormed(Replay(g, es[..|es| - 1]).graph, es[|es| - 1]);
    }
  }

  lemma MeaningKeepsWellFormed(g: Graph, e: Entry)
    requires WellFormed(g) && !IsPartEntry(e)
    ensures Meaning(g, e).Returned? && WellFormed(Meaning(g, e).graph)
  {
    ApplyKeepsWellFormed(g, AddNode(e.idA));
    ApplyKeepsWellFormed(g, RemoveNode(e.idA));
    ApplyKeepsWellFormed(g, AddEdge(e.idA, e.idB));
    ApplyKeepsWellFormed(g, RemoveEdge(e.idA, e.idB));
  }

  /** For a single entry the switch differs exactly at a removal between distinct ids whose first node exists. */
  lemma SwitchDiffersIff(g: Graph, e: Entry)
    requires WellFormed(g)
    ensures Switch(g, e).Returned? || IsPartEntry(e)
    ensures (Switch(g, e).Returned? && Meaning(g, e).Returned? && Switch(g, e).graph == Meaning(g, e).graph)
            <==> !(e.opcode == REMOVE_EDGE && e.idA != e.idB && e.idA in g)
  {
    if e.opcode == REMOVE_EDGE && e.idA != e.idB && e.idA in g {
      assert e.idB in Switch(g, e).graph[e.idA];
    }
  }

  // ---------- whole logs ----------

  /**
   * What can be told about the replay from the log and the initial node ids alone: whether the process survives,
   * which nodes exist, and which one-way edges the fall-through left behind.
   */
  datatype Track = Track(alive: bool, nodes: set<NodeId>, stale: set<(NodeId, NodeId)>)

  function TrackEntry(t: Track, e: Entry): Track {
    var a, b := e.idA, e.idB;
    if e.opcode == ADD_NODE then t.(nodes := t.nodes + {a})
    else if e.opcode == REMOVE_NODE && a in t.nodes then
      Track(t.alive && (forall p | p in t.stale :: p.0 == a ==> p.1 in t.nodes),
            t.nodes - {a},
            set p | p in t.stale && p.0 != a)
    else if e.opcode == ADD_EDGE && a != b && a in t.nodes && b in t.nodes then
      t.(alive := t.alive && (a, b) !in t.stale && (b, a) !in t.stale)
    else if e.opcode == REMOVE_EDGE && a != b && a in t.nodes then
      Track(t.alive && (b in t.nodes ==> (a, b) !in t.stale && (b, a) !in t.stale), t.nodes, t.stale + {(a, b)})
    else t
  }

  function TrackAll(nodes: set<NodeId>, es: seq<Entry>): Track {
    if es == [] then Track(true, nodes, {}) else TrackEntry(TrackAll(nodes, es[..|es| - 1]), es[|es| - 1])
  }

  /** Nothing is left behind: every one-way edge was swept away with its node before anything ran into it. */
  predicate Faithful(nodes: set<NodeId>, es: seq<Entry>) {
    var t := TrackAll(nodes, es);
    t.alive && t.stale == {}
  }

  /** g with the one-way edges added. */
  ghost function Smeared(g: Graph, stale: set<(NodeId, NodeId)>): Graph {
    map n | n in g :: g[n] + StaleFrom(stale, n)
  }

  ghost function StaleFrom(stale: set<(NodeId, NodeId)>, n: NodeId): set<NodeId> {
    set p | p in stale && p.0 == n :: p.1
  }

  /** Stale edges start at nodes, are no edges of g, never lead back and never come in pairs. */
  ghost predicate Consistent(g: Graph, t: Track) {
    && t.nodes == g.Keys
    && forall p :: p in t.stale ==> p.0 in g && p.0 != p.1 && p.1 !in g[p.0] && (p.1, p.0) !in t.stale
  }

  lemma SmearedEdge(g: Graph, stale: set<(NodeId, NodeId)>, a: NodeId, b: NodeId)
    requires a in g
    ensures b in Smeared(g, stale)[a] <==> b in g[a] || (a, b) in stale
  {
  }

  /** The smeared graph, edge by edge. */
  ghost predicate IsSmeared(h: Graph, g: Graph, stale: set<(NodeId, NodeId)>) {
    && h.Keys == g.Keys
    && forall n, b :: n in g ==> (b in h[n] <==> b in g[n] || (n, b) in stale)
  }

  lemma IsSmearedIs(h: Graph, g: Graph, stale: set<(NodeId, NodeId)>)
    ensures IsSmeared(h, g, stale) <==> h == Smeared(g, stale)
  {
    if IsSmeared(h, g, stale) {
      forall n | n in g
        ensures h[n] == Smeared(g, stale)[n]
      {
        forall b
          ensures b in h[n] <==> b in Smeared(g, stale)[n]
        {
          SmearedEdge(g, stale, n, b);
        }
      }
    }
  }

  lemma TracksAddNode(g: Graph, h: Graph, t: Track, e: Entry)
    requires WellFormed(g) && t.alive && Consistent(g, t) && e.opcode == ADD_NODE && IsSmeared(h, g, t.stale)
    ensures var k := AfterAddNode(g, e.idA).graph;
      Consistent(k, TrackEntry(t, e)) && IsSmeared(AfterAddNode(h, e.idA).graph, k, t.stale)
  {
  }

  lemma TracksRemoveNode(g: Graph, h: Graph, t: Track, e: Entry)
    requires WellFormed(g) && t.alive && Consistent(g, t) && e.opcode == REMOVE_NODE && IsSmeared(h, g, t.stale)
    requires e.idA in g
    ensures var u := TrackEntry(t, e);
      if h[e.idA] <= h.Keys
      then u.alive && Consistent(WithoutNode(g, e.idA), u) && IsSmeared(WithoutNode(h, e.idA), WithoutNode(g, e.idA), u.stale)
      else !u.alive
  {
    var a := e.idA;
    if !(h[a] <= h.Keys) {
      var b :| b in h[a] && b !in h;
      assert (a, b) in t.stale;
    }
  }

  lemma TracksAddEdge(g: Graph, h: Graph, t: Track, a: NodeId, b: NodeId)
    requires WellFormed(g) && Consistent(g, t) && IsSmeared(h, g, t.stale)
    requires a != b && a in g && b in g && (a, b) !in t.stale && (b, a) !in t.stale && b !in g[a]
    ensures var k := g[a := g[a] + {b}][b := g[b] + {a}];
      Consistent(k, t) && IsSmeared(h[a := h[a] + {b}][b := h[b] + {a}], k, t.stale)
  {
  }

  /** Removing the edge from both graphs and putting a's half back leaves that half stale. */
  lemma TracksRemoveEdge(g: Graph, h: Graph, t: Track, a: NodeId, b: NodeId)
    requires WellFormed(g) && Consistent(g, t) && IsSmeared(h, g, t.stale)
    requires a != b && a in g && b in g && (a, b) !in t.stale && (b, a) !in t.stale
    ensures var k, l := g[a := g[a] - {b}][b := g[b] - {a}], h[a := h[a] - {b}][b := h[b] - {a}];
      && Consistent(k, t.(stale := t.stale + {(a, b)}))
      && IsSmeared(l[a := l[a] + {b}], k, t.stale + {(a, b)})
  {
    var k, l := g[a := g[a] - {b}][b := g[b] - {a}], h[a := h[a] - {b}][b := h[b] - {a}];
    var m := l[a := l[a] + {b}];
    assert m[a] == h[a] - {b} + {b} && m[b] == h[b] - {a};
    assert m.Keys == k.Keys == g.Keys;
  }

  lemma RemovingNoEdge(g: Graph, a: NodeId, b: NodeId)
    requires a != b && a in g && b in g && b !in g[a] && a !in g[b]
    ensures g[a := g[a] - {b}][b := g[b] - {a}] == g
  {
    assert g[a] - {b} == g[a] && g[b] - {a} == g[b];
  }

  lemma TracksAbsentEdge(g: Graph, h: Graph, t: Track, a: NodeId, b: NodeId)
    requires WellFormed(g) && Consistent(g, t) && IsSmeared(h, g, t.stale)
    requires a != b && a in g && b !in g
    ensures Consistent(g, t.(stale := t.stale + {(a, b)}))
    ensures IsSmeared(h[a := h[a] + {b}], g, t.stale + {(a, b)})
    ensures b in h[a] ==> h[a := h[a] + {b}] == h
  {
    if b in h[a] {
      assert h[a] + {b} == h[a];
    }
  }

  /** One step of the switch from the smeared graph agrees with what is tracked. */
  lemma SwitchTracksOn(g: Graph, h: Graph, t: Track, e: Entry)
    requires WellFormed(g) && !IsPartEntry(e) && t.alive && Consistent(g, t) && IsSmeared(h, g, t.stale)
    ensures Meaning(g, e).Returned?
    ensures var u := TrackEntry(t, e);
      if u.alive
      then Consistent(Meaning(g, e).graph, u) && Switch(h, e).Returned?
           && IsSmeared(Switch(h, e).graph, Meaning(g, e).graph, u.stale)
      else Switch(h, e).Aborted?
  {
    var a, b := e.idA, e.idB;
    if e.opcode == ADD_NODE {
      TracksAddNode(g, h, t, e);
    } else if e.opcode == REMOVE_NODE {
      if a in g {
        TracksRemoveNode(g, h, t, e);
      }
    } else if a == b || a !in g {
    } else if e.opcode == ADD_EDGE {
      if b in g && b !in g[a] && TrackEntry(t, e).alive {
        TracksAddEdge(g, h, t, a, b);
      }
    } else if e.opcode == REMOVE_EDGE {
      if b !in g {
        TracksAbsentEdge(g, h, t, a, b);
      } else if TrackEntry(t, e).alive {
        TracksRemoveEdge(g, h, t, a, b);
        if b !in g[a] {
          RemovingNoEdge(g, a, b);
          RemovingNoEdge(h, a, b);
        }
      }
    }
  }

  /**
   * What the recovery loop computes, for every log without edge parts: it dies exactly when the tracked process
   * does, and otherwise yields the graph the log stands for plus the stale one-way edges.
   */
  lemma {:induction false} SwitchAllIs(g: Graph, es: seq<Entry>)
    requires WellFormed(g) && forall e :: e in es ==> !IsPartEntry(e)
    ensures Replay(g, es).Returned? && WellFormed(Replay(g, es).graph)
    ensures var t := TrackAll(g.Keys, es);
      if t.alive then Consistent(Replay(g, es).graph, t)
                      && SwitchAll(g, es) == Returned(Success, Smeared(Replay(g, es).graph, t.stale))
      else SwitchAll(g, es).Aborted?
  {
    ReplayKeepsWellFormed(g, es);
    if es == [] {
      IsSmearedIs(g, g, {});
    } else {
      var init, e := es[..|es| - 1], es[|es| - 1];
      SwitchAllIs(g, init);
      if TrackAll(g.Keys, init).alive {
        var h, k, t := Replay(g, init).graph, SwitchAll(g, init).graph, TrackAll(g.Keys, init);
        IsSmearedIs(k, h, t.stale);
        SwitchTracksOn(h, k, t, e);
        if TrackEntry(t, e).alive {
          IsSmearedIs(Switch(k, e).graph, Meaning(h, e).graph, TrackEntry(t, e).stale);
        }
      } else {
        assert !TrackEntry(TrackAll(g.Keys, init), e).alive;
      }
    }
  }

  /** The recovery loop rebuilds the graph a log stands for if and only if the log is faithful. */
  lemma SwitchExactIff(g: Graph, es: seq<Entry>)
    requires WellFormed(g) && forall e :: e in es ==> !IsPartEntry(e)
    ensures SwitchAll(g, es) == Replay(g, es) <==> Faithful(g.Keys, es)
  {
    SwitchAllIs(g, es);
    var t := TrackAll(g.Keys, es);
    if t.alive {
      var h := Replay(g, es).graph;
      ReplaySucceeds(g, es);
      if t.stale == {} {
        IsSmearedIs(h, h, {});
      } else {
        var p :| p in t.stale;
        SmearedEdge(h, t.stale, p.0, p.1);
      }
    }
  }

  lemma ReplaySucceeds(g: Graph, es: seq<Entry>)
    ensures Replay(g, es).Returned? ==> Replay(g, es).status == Success
  {
  }

  /** The smallest case: adding and removing one edge is replayed as one half of that edge; adding it again ends the process. */
  lemma FallThroughWitness()
    ensures var es := [Entry(ADD_NODE, 1, 0), Entry(ADD_NODE, 2, 0), Entry(ADD_EDGE, 1, 2), Entry(REMOVE_EDGE, 1, 2)];
      && Replay(map[], es) == Returned(Success, map[1 := {}, 2 := {}])
      && SwitchAll(map[], es) == Returned(Success, map[1 := {2}, 2 := {}])
      && !Symmetric(map[1 := {2}, 2 := {}])
      && SwitchAll(map[], es + [Entry(ADD_EDGE, 1, 2)]) == Aborted
  {
    var e1, e2, e3, e4, e5 :=
      Entry(ADD_NODE, 1, 0), Entry(ADD_NODE, 2, 0), Entry(ADD_EDGE, 1, 2), Entry(REMOVE_EDGE, 1, 2), Entry(ADD_EDGE, 1, 2);
    var es := [e1, e2, e3, e4];
    assert [e1][..0] == [] && [e1, e2][..1] == [e1] && [e1, e2, e3][..2] == [e1, e2] && es[..3] == [e1, e2, e3];
    assert (es + [e5])[..4] == es;
    var g1: Graph, g2: Graph, g3: Graph, g4: Graph :=
      map[1 := {}], map[1 := {}, 2 := {}], map[1 := {2}, 2 := {1}], map[1 := {2}, 2 := {}];
    assert Meaning(map[], e1) == Returned(Success, g1) && Meaning(g1, e2) == Returned(Success, g2);
    assert {} + {2} == {2} && {} + {1} == {1};
    assert Meaning(g2, e3) == Returned(Success, g3);
    assert g3[1] - {2} == {} && g3[2] - {1} == {};
    assert Meaning(g3, e4) == Returned(Success, g2) && Switch(g3, e4) == Returned(Success, g4);
    assert Replay(map[], [e1]) == SwitchAll(map[], [e1]) == Returned(Success, g1);
    assert Replay(map[], [e1, e2]) == SwitchAll(map[], [e1, e2]) == Returned(Success, g2);
    assert Replay(map[], [e1, e2, e3]) == SwitchAll(map[], [e1, e2, e3]) == Returned(Success, g3);
    assert 2 in g4[1] && 1 !in g4[2];
    assert Switch(g4, e5) == Aborted;
  }

  /** Logs without edge removals replay exactly. */
  lemma {:induction false} NoRemovalIsFaithful(nodes: set<NodeId>, es: seq<Entry>)
    requires forall e :: e in es ==> e.opcode != REMOVE_EDGE
    ensures Faithful(nodes, es)
  {
    if es != [] {
      NoRemovalIsFaithful(nodes, es[..|es| - 1]);
    }
  }

  /** A removal of an edge of an existing node never replays exactly unless that node is removed later on. */
  lemma {:induction false} RemovalIsUnfaithful(nodes: set<NodeId>, es: seq<Entry>, i: nat)
    requires i < |es| && es[i].opcode == REMOVE_EDGE && es[i].idA != es[i].idB
    requires es[i].idA in TrackAll(nodes, es[..i]).nodes
    requires forall j :: i < j < |es| ==> !(es[j].opcode == REMOVE_NODE && es[j].idA == es[i].idA)
    ensures (es[i].idA, es[i].idB) in TrackAll(nodes, es).stale && !Faithful(nodes, es)
  {
    var n := |es| - 1;
    if i < n {
      assert es[..n][..i] == es[..i];
      RemovalIsUnfaithful(nodes, es[..n], i);
    }
  }
}
