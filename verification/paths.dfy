/** Paths in a graph, shortest distances, and the layers a breadth-first search visits. */
module Paths {
  import opened Types
  import opened Graphs

  ghost predicate IsPath(g: Graph, p: seq<NodeId>) {
    && p != []
    && (forall i :: 0 <= i < |p| ==> p[i] in g)
    && (forall i :: 0 <= i < |p| - 1 ==> p[i + 1] in g[p[i]])
  }

  ghost predicate Connects(g: Graph, p: seq<NodeId>, a: NodeId, b: NodeId) {
    IsPath(g, p) && p[0] == a && p[|p| - 1] == b
  }

  /** Some path of exactly n edges leads from a to b. */
  ghost predicate Reaches(g: Graph, a: NodeId, b: NodeId, n: nat) {
    exists p :: Connects(g, p, a, b) && |p| == n + 1
  }

  ghost predicate IsDistance(g: Graph, a: NodeId, b: NodeId, d: nat) {
    Reaches(g, a, b, d) && forall n: nat :: n < d ==> !Reaches(g, a, b, n)
  }

  ghost predicate Reachable(g: Graph, a: NodeId, b: NodeId) {
    exists n: nat :: Reaches(g, a, b, n)
  }

  lemma ReachesSelf(g: Graph, a: NodeId)
    requires a in g
    ensures Reaches(g, a, a, 0)
  {
    assert Connects(g, [a], a, a);
  }

  lemma ReachesStep(g: Graph, a: NodeId, c: NodeId, b: NodeId, n: nat)
    requires Reaches(g, a, c, n) && c in g && b in g && b in g[c]
    ensures Reaches(g, a, b, n + 1)
  {
    var p :| Connects(g, p, a, c) && |p| == n + 1;
    assert Connects(g, p + [b], a, b);
  }

  lemma ReachesLast(g: Graph, a: NodeId, b: NodeId, n: nat) returns (c: NodeId)
    requires Reaches(g, a, b, n + 1)
    ensures c in g && Reaches(g, a, c, n) && b in g[c]
  {
    var p :| Connects(g, p, a, b) && |p| == n + 2;
    c := p[n];
    assert Connects(g, p[..n + 1], a, c);
  }

  // ---------- the layers of the search ----------

  ghost function Successors(g: Graph, s: set<NodeId>): set<NodeId> {
    set x, y | x in s && x in g && y in g[x] :: y
  }

  lemma SuccessorsOfOneMore(g: Graph, s: set<NodeId>, n: NodeId)
    requires n in g
    ensures Successors(g, s + {n}) == Successors(g, s) + g[n]
  {
  }

  /** Nodes found after d rounds; the start is found only if a cycle leads back to it. */
  ghost function Found(g: Graph, a: NodeId, d: nat): set<NodeId>
    decreases d, 1
  {
    if d == 0 then {} else Found(g, a, d - 1) + Layer(g, a, d)
  }

  /** Nodes queued for round d. */
  ghost function Layer(g: Graph, a: NodeId, d: nat): set<NodeId>
    decreases d, 0
  {
    if d == 0 then {a} else Successors(g, Layer(g, a, d - 1)) - Found(g, a, d - 1)
  }

  lemma {:induction false} FoundGrows(g: Graph, a: NodeId, m: nat, n: nat)
    requires m <= n
    ensures Found(g, a, m) <= Found(g, a, n)
  {
    if m < n {
      FoundGrows(g, a, m, n - 1);
    }
  }

  lemma {:induction false} LayerReached(g: Graph, a: NodeId, d: nat, v: NodeId)
    requires a in g && Found(g, a, d) <= g.Keys && v in Layer(g, a, d)
    ensures Reaches(g, a, v, d)
  {
    if d == 0 {
      ReachesSelf(g, a);
    } else {
      var u :| u in Layer(g, a, d - 1) && u in g && v in g[u];
      LayerReached(g, a, d - 1, u);
      ReachesStep(g, a, u, v, d - 1);
    }
  }

  lemma {:induction false} FoundInLayer(g: Graph, a: NodeId, d: nat, v: NodeId) returns (j: nat)
    requires v in Found(g, a, d)
    ensures 1 <= j <= d && v in Layer(g, a, j)
  {
    if v in Layer(g, a, d) {
      return d;
    }
    j := FoundInLayer(g, a, d - 1, v);
  }

  lemma {:induction false} ReachedIsFound(g: Graph, a: NodeId, n: nat, v: NodeId)
    requires 1 <= n && Reaches(g, a, v, n)
    ensures v in Found(g, a, n)
  {
    var u := ReachesLast(g, a, v, n - 1);
    var j := 0;
    if n == 1 {
      var p :| Connects(g, p, a, u) && |p| == 1;
      assert u in Layer(g, a, 0);
    } else {
      ReachedIsFound(g, a, n - 1, u);
      j := FoundInLayer(g, a, n - 1, u);
    }
    assert v in Successors(g, Layer(g, a, j));
    assert v in Found(g, a, j + 1);
    FoundGrows(g, a, j + 1, n);
  }

  lemma {:induction false} EmptyLayerIsLast(g: Graph, a: NodeId, d: nat, n: nat)
    requires d <= n && Layer(g, a, d) == {}
    ensures Layer(g, a, n) == {} && Found(g, a, n) <= Found(g, a, d)
  {
    if d < n {
      EmptyLayerIsLast(g, a, d, n - 1);
    }
  }

  /** A node in layer d is at distance d. */
  lemma LayerIsDistance(g: Graph, a: NodeId, b: NodeId, d: nat)
    requires a in g && a != b && Found(g, a, d) <= g.Keys && b in Layer(g, a, d)
    ensures IsDistance(g, a, b, d)
  {
    LayerReached(g, a, d, b);
    forall n: nat | n < d
      ensures !Reaches(g, a, b, n)
    {
      if Reaches(g, a, b, n) {
        if n > 0 {
          ReachedIsFound(g, a, n, b);
          FoundGrows(g, a, n, d - 1);
        }
      }
    }
  }

  // ---------- dangling edges ----------

  /** An edge of c leads to no node. */
  ghost predicate Dangling(g: Graph, c: NodeId) {
    c in g && !(g[c] <= g.Keys)
  }

  /** Fewer than d steps lead to a dangling edge. */
  ghost predicate DanglesBefore(g: Graph, a: NodeId, d: nat) {
    exists c, n: nat :: n < d && Reaches(g, a, c, n) && Dangling(g, c)
  }

  ghost predicate NothingDangles(g: Graph, a: NodeId) {
    forall d: nat :: !DanglesBefore(g, a, d)
  }

  /** Some dangling edge is no farther away than b. */
  ghost predicate MayDie(g: Graph, a: NodeId, b: NodeId) {
    exists c, d: nat :: Reaches(g, a, c, d) && Dangling(g, c) && forall n: nat :: n < d ==> !Reaches(g, a, b, n)
  }

  ghost predicate LayersSound(g: Graph, a: NodeId, d: nat) {
    forall j: nat, c :: j < d && c in Layer(g, a, j) ==> !Dangling(g, c)
  }

  lemma SoundMeansNoDangling(g: Graph, a: NodeId, d: nat)
    requires LayersSound(g, a, d)
    ensures !DanglesBefore(g, a, d)
  {
    forall c, n: nat | n < d && Reaches(g, a, c, n)
      ensures !Dangling(g, c)
    {
      if n == 0 {
        assert c in Layer(g, a, 0);
      } else {
        ReachedIsFound(g, a, n, c);
        var j := FoundInLayer(g, a, n, c);
      }
    }
  }

  lemma SoundForever(g: Graph, a: NodeId, d: nat)
    requires LayersSound(g, a, d) && Layer(g, a, d) == {}
    ensures NothingDangles(g, a)
  {
    forall e: nat
      ensures !DanglesBefore(g, a, e)
    {
      forall j: nat, c | j < e && c in Layer(g, a, j)
        ensures !Dangling(g, c)
      {
        if j >= d {
          EmptyLayerIsLast(g, a, d, j);
        }
      }
      SoundMeansNoDangling(g, a, e);
    }
  }

  // ---------- the rounds ----------

  /**
   * The state of the search before round d: what was found, what is queued, no dangling edge and not b met in an
   * earlier round.
   */
  ghost predicate Round(g: Graph, a: NodeId, b: NodeId, d: nat, found: set<NodeId>, queued: set<NodeId>) {
    && a in g && a != b && found <= g.Keys
    && found == Found(g, a, d) && queued == Layer(g, a, d) && b !in found - queued && LayersSound(g, a, d)
  }

  lemma FirstRound(g: Graph, a: NodeId, b: NodeId)
    requires a in g && a != b
    ensures Round(g, a, b, 0, {}, {a})
  {
  }

  lemma NextRound(g: Graph, a: NodeId, b: NodeId, d: nat, found: set<NodeId>, queued: set<NodeId>)
    requires Round(g, a, b, d, found, queued) && b !in queued && Successors(g, queued) - found <= g.Keys
    ensures Round(g, a, b, d + 1, found + Successors(g, queued), Successors(g, queued) - found)
  {
    forall c | c in queued
      ensures !Dangling(g, c)
    {
      if c in g {
        assert g[c] <= Successors(g, queued);
      }
    }
  }

  /** b met in round d is at distance d, and every edge nearer than that leads to a node. */
  lemma MetInRound(g: Graph, a: NodeId, b: NodeId, d: nat, found: set<NodeId>, queued: set<NodeId>)
    requires Round(g, a, b, d, found, queued) && b in queued
    ensures IsDistance(g, a, b, d) && !DanglesBefore(g, a, d)
  {
    LayerIsDistance(g, a, b, d);
    SoundMeansNoDangling(g, a, d);
  }

  /** A dangling edge met in round d is d steps away, and b not nearer. */
  lemma DangledInRound(g: Graph, a: NodeId, b: NodeId, d: nat, found: set<NodeId>, queued: set<NodeId>)
    requires Round(g, a, b, d, found, queued) && exists c :: c in queued && Dangling(g, c)
    ensures MayDie(g, a, b)
  {
    var c :| c in queued && Dangling(g, c);
    LayerReached(g, a, d, c);
    forall n: nat | n < d
      ensures !Reaches(g, a, b, n)
    {
      if Reaches(g, a, b, n) && n > 0 {
        ReachedIsFound(g, a, n, b);
        FoundGrows(g, a, n, d - 1);
      }
    }
  }

  /** Once a round is empty, a node that was not met is unreachable, and so is any dangling edge. */
  lemma NotMetIsUnreachable(g: Graph, a: NodeId, b: NodeId, d: nat, found: set<NodeId>)
    requires Round(g, a, b, d, found, {})
    ensures !Reachable(g, a, b) && NothingDangles(g, a)
  {
    forall n: nat
      ensures !Reaches(g, a, b, n)
    {
      if Reaches(g, a, b, n) && n > 0 {
        ReachedIsFound(g, a, n, b);
        if n <= d {
          FoundGrows(g, a, n, d);
        } else {
          EmptyLayerIsLast(g, a, d, n);
        }
      }
    }
    SoundForever(g, a, d);
  }

  // ---------- laws of the distance on store graphs ----------

  function Reversed(p: seq<NodeId>): (r: seq<NodeId>)
    ensures |r| == |p|
  {
    seq(|p|, i requires 0 <= i < |p| => p[|p| - 1 - i])
  }

  lemma ReachesBack(g: Graph, a: NodeId, b: NodeId, n: nat)
    requires WellFormed(g) && Reaches(g, a, b, n)
    ensures Reaches(g, b, a, n)
  {
    var p :| Connects(g, p, a, b) && |p| == n + 1;
    var r := Reversed(p);
    forall i | 0 <= i < |r| - 1
      ensures r[i + 1] in g[r[i]]
    {
      var j := |p| - 2 - i;
      assert p[j + 1] in g[p[j]];
    }
    assert Connects(g, r, b, a);
  }

  /** Edges being symmetric, so is the distance. */
  lemma DistanceIsSymmetric(g: Graph, a: NodeId, b: NodeId, d: nat)
    requires WellFormed(g)
    ensures IsDistance(g, a, b, d) <==> IsDistance(g, b, a, d)
  {
    forall n: nat
      ensures Reaches(g, a, b, n) <==> Reaches(g, b, a, n)
    {
      if Reaches(g, a, b, n) {
        ReachesBack(g, a, b, n);
      }
      if Reaches(g, b, a, n) {
        ReachesBack(g, b, a, n);
      }
    }
  }

  lemma ReachesThrough(g: Graph, a: NodeId, b: NodeId, c: NodeId, m: nat, n: nat)
    requires Reaches(g, a, b, m) && Reaches(g, b, c, n)
    ensures Reaches(g, a, c, m + n)
  {
    var p :| Connects(g, p, a, b) && |p| == m + 1;
    var q :| Connects(g, q, b, c) && |q| == n + 1;
    var r := p + q[1..];
    forall i | 0 <= i < |r| - 1
      ensures r[i + 1] in g[r[i]]
    {
      if i < m {
        assert p[i + 1] in g[p[i]];
      } else {
        assert q[i - m + 1] in g[q[i - m]];
      }
    }
    assert Connects(g, r, a, c);
  }

  lemma DistanceTriangle(g: Graph, a: NodeId, b: NodeId, c: NodeId, ab: nat, bc: nat, ac: nat)
    requires IsDistance(g, a, b, ab) && IsDistance(g, b, c, bc) && IsDistance(g, a, c, ac)
    ensures ac <= ab + bc
  {
    ReachesThrough(g, a, b, c, ab, bc);
  }
}
