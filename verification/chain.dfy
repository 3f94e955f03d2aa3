/**
 * Chain replication: the head's write path, the replica handlers and their forwarding
 * (src/net/http_controller.cc, src/net/replication_server.cc, src/db/replication_manager.cc).
 */
module Chains {
  import opened Types
  import opened Graphs

  /** A replica's store, and the operations that took effect on it, in order. */
  datatype Replica = Replica(graph: Graph, history: seq<Op>)

  /**
   * What goes wrong at one replica during one request: the call never arrives, its store is out of space, or the
   * answer never gets back. A replica that is down loses every call.
   */
  datatype Fault = Fault(requestLost: bool, noSpace: bool, replyLost: bool)

  datatype Response = Ok200 | NoContent204 | BadRequest400 | Error500 | NoSpace507

  ghost predicate Succeeds(r: Replica, op: Op) {
    Apply(r.graph, op).Returned? && Apply(r.graph, op).status == Success
  }

  ghost function Applied(r: Replica, op: Op): Replica
    requires Succeeds(r, op)
  {
    Replica(Apply(r.graph, op).graph, r.history + [op])
  }

  ghost predicate Blocked(r: Replica, op: Op, f: Fault) {
    f.requestLost || f.noSpace || !Succeeds(r, op)
  }

  /** The operation took effect at exactly the replicas from `from` up to `to`. */
  ghost predicate Extended(before: seq<Replica>, op: Op, from: nat, to: nat, after: seq<Replica>) {
    && |after| == |before|
    && forall j :: 0 <= j < |before| ==>
         if from <= j < to then Succeeds(before[j], op) && after[j] == Applied(before[j], op)
         else after[j] == before[j]
  }

  /** The checks the head makes on its own store before forwarding. */
  predicate Admitted(g: Graph, op: Op) {
    match op
    case AddNode(_) => true
    case RemoveNode(id) => id in g
    case AddEdge(a, b) => a in g && b in g
    case RemoveEdge(a, b) => a in g && b in g
    case AddEdgePart(_, _) => false
    case RemoveEdgePart(_, _) => false
  }

  class Chain {
    /** The head is replica 0, the tail the last one; a chain of one is a server without replication. */
    var replicas: seq<Replica>

    /** Run the operation on one store; an unsuccessful status changes nothing. */
    method Store(i: nat, op: Op, f: Fault) returns (status: Status)
      requires i < |replicas| && Apply(replicas[i].graph, op).Returned?
      requires Apply(replicas[i].graph, op).status != Success ==> Apply(replicas[i].graph, op).graph == replicas[i].graph
      modifies this
      ensures status == if f.noSpace then NoSpace else Apply(old(replicas)[i].graph, op).status
      ensures replicas == if status == Success then old(replicas)[i := Applied(old(replicas)[i], op)] else old(replicas)
    {
      if f.noSpace {
        return NoSpace;
      }
      var r := replicas[i];
      var outcome := Apply(r.graph, op);
      status := outcome.status;
      if status == Success {
        replicas := replicas[i := Replica(outcome.graph, r.history + [op])];
      }
    }

    /**
     * A replica's handler: apply, and only after success forward to the successor; the tail just answers. `m` is
     * the first replica that did not apply the operation.
     */
    method Handle(i: nat, op: Op, faults: seq<Fault>) returns (ok: bool, ghost m: nat)
      requires 1 <= i < |replicas| == |faults| && !IsPart(op)
      requires forall j :: i <= j < |replicas| ==> WellFormed(replicas[j].graph)
      modifies this
      ensures i <= m <= |replicas| && Extended(old(replicas), op, i, m, replicas)
      ensures forall j :: i <= j < m ==> !Blocked(old(replicas)[j], op, faults[j])
      ensures m < |replicas| ==> Blocked(old(replicas)[m], op, faults[m])
      ensures ok <==> m == |replicas| && forall j :: i <= j < m ==> !faults[j].replyLost
      decreases |replicas| - i
    {
      if faults[i].requestLost {
        return false, i;
      }
      ApplyKeepsWellFormed(replicas[i].graph, op);
      var status := Store(i, op, faults[i]);
      if status != Success {
        return false, i;
      }
      if i == |replicas| - 1 {
        ok, m := true, i + 1;
      } else {
        ghost var mid := replicas;
        ok, m := Handle(i + 1, op, faults);
        forall j | 0 <= j < |replicas|
          ensures if i <= j < m then Succeeds(old(replicas)[j], op) && replicas[j] == Applied(old(replicas)[j], op)
                  else replicas[j] == old(replicas)[j]
        {
          assert j != i ==> mid[j] == old(replicas)[j];
        }
      }
      ok := ok && !faults[i].replyLost;
    }

    /** A write request at the head: check, forward, and apply only once every other replica has acknowledged. */
    method Request(op: Op, faults: seq<Fault>) returns (response: Response, ghost m: nat)
      requires 1 <= |replicas| == |faults| && !IsPart(op)
      requires forall j :: 0 <= j < |replicas| ==> WellFormed(replicas[j].graph)
      modifies this
      ensures Served(old(replicas), op, faults, response, m, replicas)
      ensures Tells(old(replicas), op, faults, response)
    {
      response, m := CheckForwardApply(op, faults);
      AnswersAre(old(replicas), op, faults, response, m, replicas);
    }

    method CheckForwardApply(op: Op, faults: seq<Fault>) returns (response: Response, ghost m: nat)
      requires 1 <= |replicas| == |faults| && !IsPart(op)
      requires forall j :: 0 <= j < |replicas| ==> WellFormed(replicas[j].graph)
      modifies this
      ensures Served(old(replicas), op, faults, response, m, replicas)
    {
      m := 1;
      if !Admitted(replicas[0].graph, op) {
        return BadRequest400, m;
      }
      if |replicas| > 1 {
        var ok;
        ok, m := Handle(1, op, faults);
        if !ok {
          return Error500, m;
        }
      }
      ApplyKeepsWellFormed(replicas[0].graph, op);
      var status := Store(0, op, faults[0]);
      if status == Success {
        return Ok200, m;
      } else if status == NoSpace {
        return NoSpace507, m;
      } else if status == NoAction && (op.AddNode? || op.AddEdge?) {
        return NoContent204, m;
      }
      return BadRequest400, m;
    }
  }

  /** What the head answers to a request that the replicas from 1 up to m applied. */
  ghost function Answer(before: seq<Replica>, op: Op, faults: seq<Fault>, m: nat): Response
    requires 1 <= m <= |before| == |faults|
  {
    if !Admitted(before[0].graph, op) then BadRequest400
    else if m < |before| || (exists j :: 1 <= j < m && faults[j].replyLost) then Error500
    else if faults[0].noSpace then NoSpace507
    else Alone(before[0].graph, op)
  }

  /** What a server without replication and with enough space answers. */
  function Alone(g: Graph, op: Op): Response {
    if !Admitted(g, op) then BadRequest400
    else
      match Apply(g, op)
      case Aborted => BadRequest400
      case Returned(status, _) =>
        match status
        case Success => Ok200
        case NoAction => NoContent204
        case _ => BadRequest400
  }

  /**
   * What a request did: the replicas from 1 up to m applied it, m being the first at which it was blocked, and the
   * head as well exactly when it answered Ok200.
   */
  ghost predicate Served(before: seq<Replica>, op: Op, faults: seq<Fault>, response: Response, m: nat, after: seq<Replica>)
    requires |faults| == |before|
  {
    && 1 <= m <= |before|
    && (forall j :: 1 <= j < m ==> !Blocked(before[j], op, faults[j]))
    && (Admitted(before[0].graph, op) && m < |before| ==> Blocked(before[m], op, faults[m]))
    && (!Admitted(before[0].graph, op) ==> m == 1)
    && response == Answer(before, op, faults, m)
    && Extended(before, op, if response == Ok200 then 0 else 1, m, after)
  }

  // ---------- the answers, from graphs and failures alone ----------

  /** The operation would change this graph. */
  predicate Effective(g: Graph, op: Op) {
    match op
    case AddNode(id) => id !in g
    case RemoveNode(id) => id in g
    case AddEdge(a, b) => a != b && a in g && b in g && b !in g[a]
    case RemoveEdge(a, b) => a != b && a in g && b in g && b in g[a]
    case AddEdgePart(_, _) => false
    case RemoveEdgePart(_, _) => false
  }

  /** It asks for something that is already there. */
  predicate Redundant(g: Graph, op: Op) {
    || (op.AddNode? && op.id in g)
    || (op.AddEdge? && op.a != op.b && op.a in g && op.b in g && op.b in g[op.a])
  }

  /** It names a node that is not there, other than one to be added. */
  predicate NamesMissing(g: Graph, op: Op) {
    (op.RemoveNode? && op.id !in g) || ((op.AddEdge? || op.RemoveEdge?) && (op.a !in g || op.b !in g))
  }

  /** No replica behind the head stops the request or loses its acknowledgement. */
  ghost predicate Passes(rs: seq<Replica>, op: Op, faults: seq<Fault>)
    requires |faults| == |rs|
  {
    forall j :: 1 <= j < |rs| ==> Effective(rs[j].graph, op) && faults[j] == Fault(false, false, false)
  }

  /** Which of the five answers is given when. */
  ghost predicate Tells(rs: seq<Replica>, op: Op, faults: seq<Fault>, response: Response)
    requires 1 <= |rs| == |faults|
  {
    var g, missing, passes := rs[0].graph, NamesMissing(rs[0].graph, op), Passes(rs, op, faults);
    && (response == Error500 <==> !missing && !passes)
    && (response == NoSpace507 <==> !missing && passes && faults[0].noSpace)
    && (response == Ok200 <==> passes && !faults[0].noSpace && Effective(g, op))
    && (response == NoContent204 <==> passes && !faults[0].noSpace && Redundant(g, op))
    && (response == BadRequest400 <==>
          missing || (passes && !faults[0].noSpace && !Effective(g, op) && !Redundant(g, op)))
  }

  lemma EffectIs(g: Graph, op: Op)
    requires WellFormed(g) && !IsPart(op)
    ensures Apply(g, op).Returned?
    ensures Apply(g, op).status == Success <==> Effective(g, op)
    ensures Apply(g, op).status == NoAction <==> Redundant(g, op)
    ensures Admitted(g, op) <==> !NamesMissing(g, op)
    ensures Effective(g, op) || Redundant(g, op) ==> !NamesMissing(g, op)
  {
  }

  /** For all well-formed stores and all failures, the answer follows from graphs and failures. */
  lemma AnswersAre(before: seq<Replica>, op: Op, faults: seq<Fault>, response: Response, m: nat, after: seq<Replica>)
    requires 1 <= |before| == |faults| && !IsPart(op) && Served(before, op, faults, response, m, after)
    requires forall j :: 0 <= j < |before| ==> WellFormed(before[j].graph)
    ensures Tells(before, op, faults, response)
  {
    forall j | 0 <= j < |before|
      ensures Succeeds(before[j], op) <==> Effective(before[j].graph, op)
    {
      EffectIs(before[j].graph, op);
    }
    EffectIs(before[0].graph, op);
    if Admitted(before[0].graph, op) {
      PassesIff(before, op, faults, m);
    }
  }

  lemma PassesIff(before: seq<Replica>, op: Op, faults: seq<Fault>, m: nat)
    requires 1 <= m <= |before| == |faults|
    requires forall j :: 0 <= j < |before| ==> (Succeeds(before[j], op) <==> Effective(before[j].graph, op))
    requires forall j :: 1 <= j < m ==> !Blocked(before[j], op, faults[j])
    requires m < |before| ==> Blocked(before[m], op, faults[m])
    ensures Passes(before, op, faults) <==> m == |before| && !exists j :: 1 <= j < m && faults[j].replyLost
  {
    if m == |before| && !exists j :: 1 <= j < m && faults[j].replyLost {
      forall j | 1 <= j < |before|
        ensures Effective(before[j].graph, op) && faults[j] == Fault(false, false, false)
      {
        assert !Blocked(before[j], op, faults[j]);
      }
    }
  }

  /** On a single server with space: */
  lemma SingleAnswers(g: Graph, op: Op)
    requires WellFormed(g) && !IsPart(op)
    ensures Alone(g, op) == Ok200 <==> Effective(g, op)
    ensures Alone(g, op) == NoContent204 <==> Redundant(g, op)
    ensures Alone(g, op) == BadRequest400 <==> !Effective(g, op) && !Redundant(g, op)
  {
  }

  // ---------- order of histories ----------

  /** xs can be had from ys by leaving elements out. */
  ghost predicate Sub<T(!new)>(xs: seq<T>, ys: seq<T>)
    decreases |ys|
  {
    xs == []
    || (ys != [] && (Sub(xs, ys[..|ys| - 1])
                     || (xs[|xs| - 1] == ys[|ys| - 1] && Sub(xs[..|xs| - 1], ys[..|ys| - 1]))))
  }

  lemma SubGrows<T(!new)>(xs: seq<T>, ys: seq<T>, y: T)
    requires Sub(xs, ys)
    ensures Sub(xs, ys + [y]) && Sub(xs + [y], ys + [y])
  {
    assert (ys + [y])[..|ys|] == ys && (xs + [y])[..|xs|] == xs;
  }

  lemma {:induction false} SubTransitive<T(!new)>(xs: seq<T>, ys: seq<T>, zs: seq<T>)
    requires Sub(xs, ys) && Sub(ys, zs)
    ensures Sub(xs, zs)
    decreases |zs|
  {
    if xs != [] {
      var zs' := zs[..|zs| - 1];
      if Sub(ys, zs') {
        SubTransitive(xs, ys, zs');
      } else {
        var ys' := ys[..|ys| - 1];
        if Sub(xs, ys') {
          SubTransitive(xs, ys', zs');
        } else {
          SubTransitive(xs[..|xs| - 1], ys', zs');
        }
      }
    }
  }

  lemma {:induction false} SubReflexive<T(!new)>(xs: seq<T>)
    ensures Sub(xs, xs)
  {
    if xs != [] {
      SubReflexive(xs[..|xs| - 1]);
      SubGrows(xs[..|xs| - 1], xs[..|xs| - 1], xs[|xs| - 1]);
      assert xs[..|xs| - 1] + [xs[|xs| - 1]] == xs;
    }
  }

  /** Successive histories lose operations towards the tail, and the head's history is part of the tail's. */
  ghost predicate Ordered(rs: seq<Replica>) {
    && (forall i :: 1 <= i < |rs| - 1 ==> Sub(rs[i + 1].history, rs[i].history))
    && (rs != [] ==> Sub(rs[0].history, rs[|rs| - 1].history))
  }

  /** Every store holds what its own history builds. */
  ghost predicate Grounded(rs: seq<Replica>) {
    forall i :: 0 <= i < |rs| ==>
      && WellFormed(rs[i].graph)
      && ApplyAll(map[], rs[i].history) == Returned(Status.Success, rs[i].graph)
  }

  lemma ServedKeepsGrounded(before: seq<Replica>, op: Op, faults: seq<Fault>, response: Response, m: nat, after: seq<Replica>)
    requires |faults| == |before| && !IsPart(op) && Grounded(before) && Served(before, op, faults, response, m, after)
    ensures Grounded(after)
  {
    forall i | 0 <= i < |after|
      ensures WellFormed(after[i].graph) && ApplyAll(map[], after[i].history) == Returned(Status.Success, after[i].graph)
    {
      if after[i] != before[i] {
        ApplyKeepsWellFormed(before[i].graph, op);
        assert after[i] == Applied(before[i], op);
        assert (before[i].history + [op])[..|before[i].history|] == before[i].history;
      }
    }
  }

  lemma ServedKeepsOrdered(before: seq<Replica>, op: Op, faults: seq<Fault>, response: Response, m: nat, after: seq<Replica>)
    requires |faults| == |before| && Ordered(before) && Served(before, op, faults, response, m, after)
    ensures Ordered(after)
  {
    forall i | 1 <= i < |after| - 1
      ensures Sub(after[i + 1].history, after[i].history)
    {
      SubGrows(before[i + 1].history, before[i].history, op);
    }
    if |after| == 1 {
      SubReflexive(after[0].history);
    } else {
      SubGrows(before[0].history, before[|before| - 1].history, op);
    }
  }

  /** The head's history is part of every replica's: what it acknowledged was applied everywhere, in its order. */
  lemma {:induction false} HeadIsEverywhere(rs: seq<Replica>, i: nat)
    requires Ordered(rs) && i < |rs|
    ensures Sub(rs[0].history, rs[i].history)
    decreases |rs| - i
  {
    if i == 0 {
      SubReflexive(rs[0].history);
    } else if i < |rs| - 1 {
      HeadIsEverywhere(rs, i + 1);
      SubTransitive(rs[0].history, rs[i + 1].history, rs[i].history);
    }
  }

  // ---------- runs ----------

  datatype Write = Write(op: Op, faults: seq<Fault>, response: Response, reached: nat)

  ghost predicate Empty(rs: seq<Replica>) {
    forall i :: 0 <= i < |rs| ==> rs[i] == Replica(map[], [])
  }

  ghost predicate Run(states: seq<seq<Replica>>, writes: seq<Write>) {
    && |states| == |writes| + 1 && states[0] != []
    && forall i :: 0 <= i < |writes| ==> WriteStep(states[i], writes[i], states[i + 1])
  }

  ghost predicate WriteStep(before: seq<Replica>, w: Write, after: seq<Replica>) {
    !IsPart(w.op) && |w.faults| == |before| && Served(before, w.op, w.faults, w.response, w.reached, after)
  }

  lemma RunPrefix(states: seq<seq<Replica>>, writes: seq<Write>)
    requires Run(states, writes) && writes != []
    ensures var n := |writes|;
      && Run(states[..n], writes[..n - 1]) && states[..n][0] == states[0] && states[..n][n - 1] == states[n - 1]
      && WriteStep(states[n - 1], writes[n - 1], states[n])
  {
  }

  /** The operations answered Ok200, in order. */
  function Acknowledged(writes: seq<Write>): seq<Op> {
    if writes == [] then []
    else
      var init := Acknowledged(writes[..|writes| - 1]);
      if writes[|writes| - 1].response == Ok200 then init + [writes[|writes| - 1].op] else init
  }

  ghost predicate Safe(rs: seq<Replica>, acknowledged: seq<Op>) {
    rs != [] && Ordered(rs) && Grounded(rs) && rs[0].history == acknowledged
  }

  lemma WriteKeepsSafe(before: seq<Replica>, w: Write, after: seq<Replica>, acknowledged: seq<Op>)
    requires Safe(before, acknowledged) && WriteStep(before, w, after)
    ensures Safe(after, if w.response == Ok200 then acknowledged + [w.op] else acknowledged)
  {
    ServedKeepsOrdered(before, w.op, w.faults, w.response, w.reached, after);
    ServedKeepsGrounded(before, w.op, w.faults, w.response, w.reached, after);
  }

  lemma {:induction false} RunKeepsSafe(states: seq<seq<Replica>>, writes: seq<Write>)
    requires Run(states, writes) && Empty(states[0])
    ensures Safe(states[|writes|], Acknowledged(writes))
    decreases |writes|
  {
    var n := |writes|;
    if n != 0 {
      RunPrefix(states, writes);
      RunKeepsSafe(states[..n], writes[..n - 1]);
      WriteKeepsSafe(states[n - 1], writes[n - 1], states[n], Acknowledged(writes[..n - 1]));
    }
  }

  /**
   * Chain safety over every run and every pattern of failures: successive histories lose operations towards the
   * tail, and what was acknowledged is part of every replica's history, in the order in which it was acknowledged.
   */
  lemma ChainSafety(states: seq<seq<Replica>>, writes: seq<Write>)
    requires Run(states, writes) && Empty(states[0])
    ensures Ordered(states[|writes|]) && Grounded(states[|writes|]) && states[|writes|] != []
    ensures states[|writes|][0].history == Acknowledged(writes)
    ensures forall i :: 0 <= i < |states[|writes|]| ==> Sub(Acknowledged(writes), states[|writes|][i].history)
  {
    RunKeepsSafe(states, writes);
    forall i | 0 <= i < |states[|writes|]|
      ensures Sub(states[|writes|][0].history, states[|writes|][i].history)
    {
      HeadIsEverywhere(states[|writes|], i);
    }
  }

  // ---------- agreement ----------

  const NO_FAULT: Fault := Fault(false, false, false)

  ghost predicate Faultless(faults: seq<Fault>) {
    forall j :: 0 <= j < |faults| ==> faults[j] == NO_FAULT
  }

  ghost predicate Agree(rs: seq<Replica>) {
    forall i, j :: 0 <= i < |rs| && 0 <= j < |rs| ==> rs[i].graph == rs[j].graph
  }

  lemma SuccessChanges(g: Graph, op: Op)
    requires !IsPart(op) && Apply(g, op).Returned? && Apply(g, op).status == Success
    ensures Apply(g, op).graph != g
  {
    var h := Apply(g, op).graph;
    match op
    case AddNode(id) => assert id in h && id !in g;
    case RemoveNode(id) => assert id !in h && id in g;
    case AddEdge(a, b) => assert b in h[a] && b !in g[a];
    case RemoveEdge(a, b) => assert b !in h[a] && b in g[a];
  }

  /**
   * Replicas that agree still agree after a request exactly when it could not take effect anywhere, was stopped
   * before the head's successor, or met no failure at all beyond the head, and space at the head.
   */
  lemma AgreementIsKeptIff(before: seq<Replica>, op: Op, faults: seq<Fault>, response: Response, m: nat, after: seq<Replica>)
    requires |faults| == |before| && !IsPart(op) && Agree(before) && Served(before, op, faults, response, m, after)
    ensures Agree(after) <==>
            || |before| == 1 || !Admitted(before[0].graph, op) || !Succeeds(before[0], op)
            || faults[1].requestLost || faults[1].noSpace
            || (!faults[0].noSpace && forall j :: 1 <= j < |faults| ==> faults[j] == NO_FAULT)
  {
    var g := before[0].graph;
    assert forall j :: 0 <= j < |before| ==> before[j].graph == g;
    if |before| > 1 && Admitted(g, op) && Succeeds(before[0], op) {
      SuccessChanges(g, op);
      var h := Apply(g, op).graph;
      assert forall j :: 0 <= j < |before| ==> after[j].graph == if (j == 0 && response == Ok200) || 1 <= j < m then h else g;
      if m > 1 && response == Ok200 {
        assert forall j :: 1 <= j < |faults| ==> !Blocked(before[j], op, faults[j]) && !faults[j].replyLost;
      } else if m > 1 {
        assert after[1].graph == h && after[0].graph == g;
      }
    } else if |before| > 1 {
      assert !Succeeds(before[0], op) ==> Blocked(before[1], op, faults[1]);
      assert m == 1;
    }
  }

  /** Without failures a request takes effect on all replicas or on none. */
  lemma FaultlessConverges(before: seq<Replica>, op: Op, faults: seq<Fault>, response: Response, m: nat, after: seq<Replica>)
    requires |faults| == |before| && !IsPart(op) && Served(before, op, faults, response, m, after)
    requires Faultless(faults) && Agree(before)
    ensures Agree(after)
    ensures response == Ok200 <==> Admitted(before[0].graph, op) && Succeeds(before[0], op)
    ensures if response == Ok200 then Extended(before, op, 0, |before|, after) else after == before
  {
    AgreementIsKeptIff(before, op, faults, response, m, after);
    if Admitted(before[0].graph, op) && Succeeds(before[0], op) {
      assert forall j :: 0 <= j < |before| ==> !Blocked(before[j], op, faults[j]);
      assert m == |before|;
    } else {
      if |before| > 1 {
        assert before[1].graph == before[0].graph;
        assert Admitted(before[0].graph, op) ==> Blocked(before[1], op, faults[1]);
      }
      assert m == 1;
    }
  }

  /**
   * The answer is that of a single server, except that a chain answers Error500 where a single server says that an
   * admitted request had nothing to do or was invalid: the head's successor is asked first, and refuses.
   */
  lemma FaultlessAnswerIff(before: seq<Replica>, op: Op, faults: seq<Fault>, response: Response, m: nat, after: seq<Replica>)
    requires |faults| == |before| && !IsPart(op) && Served(before, op, faults, response, m, after)
    requires Faultless(faults) && Agree(before)
    ensures response == Alone(before[0].graph, op) <==>
            |before| == 1 || !Admitted(before[0].graph, op) || Succeeds(before[0], op)
    ensures response != Alone(before[0].graph, op) ==> response == Error500
  {
    if |before| > 1 && Admitted(before[0].graph, op) {
      if Succeeds(before[0], op) {
        assert forall j :: 0 <= j < |before| ==> !Blocked(before[j], op, faults[j]);
        assert m == |before|;
      } else {
        assert before[1].graph == before[0].graph && Blocked(before[1], op, faults[1]);
        assert m == 1 && Alone(before[0].graph, op) != Error500;
      }
    }
  }

  function OpsOf(writes: seq<Write>): seq<Op> {
    seq(|writes|, i requires 0 <= i < |writes| => writes[i].op)
  }

  ghost predicate FaultlessRun(states: seq<seq<Replica>>, writes: seq<Write>) {
    Run(states, writes) && forall k :: 0 <= k < |writes| ==> Faultless(writes[k].faults)
  }

  /** The graph a single server has after the first k writes. */
  ghost function GraphAfter(g: Graph, writes: seq<Write>, k: nat): Graph
    requires k <= |writes| && ApplyAll(g, OpsOf(writes)[..k]).Returned?
  {
    ApplyAll(g, OpsOf(writes)[..k]).graph
  }

  /**
   * Over every run without failures, for any number of replicas that start out equal: after every request all hold
   * the graph that a single server would have, namely all requests applied in turn.
   */
  lemma {:induction false} FaultlessRunConverges(states: seq<seq<Replica>>, writes: seq<Write>, g: Graph, k: nat)
    requires FaultlessRun(states, writes) && k <= |writes| && WellFormed(g)
    requires forall i :: 0 <= i < |states[0]| ==> states[0][i].graph == g
    ensures ApplyAll(g, OpsOf(writes)[..k]).Returned? && WellFormed(GraphAfter(g, writes, k))
    ensures |states[k]| == |states[0]|
    ensures forall i :: 0 <= i < |states[k]| ==> states[k][i].graph == GraphAfter(g, writes, k)
  {
    if k != 0 {
      FaultlessRunConverges(states, writes, g, k - 1);
      var before, w, after := states[k - 1], writes[k - 1], states[k];
      assert WriteStep(before, w, after);
      FaultlessConverges(before, w.op, w.faults, w.response, w.reached, after);
      assert OpsOf(writes)[..k][..k - 1] == OpsOf(writes)[..k - 1] && OpsOf(writes)[..k][k - 1] == w.op;
      ApplyKeepsWellFormed(before[0].graph, w.op);
      SuccessIsAdmitted(before[0].graph, w.op);
    }
  }

  /** And every answer is the single server's, or Error500 where that had nothing to do or was invalid. */
  lemma FaultlessRunAnswers(states: seq<seq<Replica>>, writes: seq<Write>, g: Graph, k: nat)
    requires FaultlessRun(states, writes) && k < |writes| && WellFormed(g)
    requires forall i :: 0 <= i < |states[0]| ==> states[0][i].graph == g
    ensures ApplyAll(g, OpsOf(writes)[..k]).Returned?
    ensures var alone := Alone(GraphAfter(g, writes, k), writes[k].op);
      writes[k].response ==
        if |states[0]| == 1 || alone == Ok200 || !Admitted(GraphAfter(g, writes, k), writes[k].op) then alone else Error500
  {
    FaultlessRunConverges(states, writes, g, k);
    var w := writes[k];
    assert WriteStep(states[k], w, states[k + 1]);
    FaultlessAnswerIff(states[k], w.op, w.faults, w.response, w.reached, states[k + 1]);
    SuccessIsAdmitted(states[k][0].graph, w.op);
  }

  lemma SuccessIsAdmitted(g: Graph, op: Op)
    requires WellFormed(g) && !IsPart(op)
    ensures Apply(g, op).Returned?
    ensures !Admitted(g, op) ==> Apply(g, op).status != Success && Apply(g, op).graph == g
  {
  }

  // ---------- what a lost acknowledgement does for good ----------

  /** Replica j has a node that the head has not. */
  ghost predicate Orphan(rs: seq<Replica>, j: nat, id: NodeId) {
    1 <= j < |rs| && id !in rs[0].graph && id in rs[j].graph
  }

  /** Adding such a node is refused by that replica, removing it by the head: no request ever repairs this. */
  lemma {:induction false} OrphanForever(states: seq<seq<Replica>>, writes: seq<Write>, j: nat, id: NodeId)
    requires Run(states, writes) && Orphan(states[0], j, id)
    ensures Orphan(states[|writes|], j, id)
    ensures forall k :: 0 <= k < |writes| && (writes[k].op == AddNode(id) || writes[k].op == RemoveNode(id)) ==>
              writes[k].response != Ok200
    decreases |writes|
  {
    var n := |writes|;
    if n != 0 {
      RunPrefix(states, writes);
      OrphanForever(states[..n], writes[..n - 1], j, id);
      OrphanStays(states[n - 1], writes[n - 1], states[n], j, id);
    }
  }

  lemma OrphanStays(before: seq<Replica>, w: Write, after: seq<Replica>, j: nat, id: NodeId)
    requires Orphan(before, j, id) && WriteStep(before, w, after)
    ensures Orphan(after, j, id)
    ensures w.op == AddNode(id) || w.op == RemoveNode(id) ==> w.response != Ok200
  {
    assert w.op == RemoveNode(id) ==> !Admitted(before[0].graph, w.op);
    assert w.op == AddNode(id) ==> Blocked(before[j], w.op, w.faults[j]);
    if after[j] != before[j] {
      assert after[j] == Applied(before[j], w.op);
    }
    if after[0] != before[0] {
      assert after[0] == Applied(before[0], w.op);
    }
  }

  /** One lost answer is enough to get there. */
  lemma LostReplyMakesOrphan(before: seq<Replica>, id: NodeId, faults: seq<Fault>, response: Response, m: nat, after: seq<Replica>)
    requires |faults| == |before| >= 2 && id !in before[0].graph && id !in before[1].graph
    requires faults[1] == Fault(false, false, true)
    requires Served(before, AddNode(id), faults, response, m, after)
    ensures response != Ok200 && Orphan(after, 1, id)
  {
    assert !Blocked(before[1], AddNode(id), faults[1]);
    assert m > 1;
    assert faults[1].replyLost;
  }
}
