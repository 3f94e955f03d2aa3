/**
 * The checkpoint as a word stream: one record per node, and what restoring a list of records gives
 * (the word order and the restore loop of src/db/checkpoint_manager.cc).
 */
module CheckpointCodec {
  import opened Types
  import opened Words
  import opened Devices
  import opened Chunks
  import opened Graphs

  datatype Record = Record(id: NodeId, edges: seq<NodeId>)

  function WordsOf(ids: seq<NodeId>): seq<Word> {
    seq(|ids|, i requires 0 <= i < |ids| => ToWord(ids[i]))
  }

  /** Id, edge count (as a 64-bit word), then the edge targets. */
  function Encode(r: Record): (ws: seq<Word>)
    ensures |ws| == 2 + |r.edges|
  {
    [ToWord(r.id), |r.edges| % TWO64] + WordsOf(r.edges)
  }

  lemma EncodeIs(front: seq<Word>, id: NodeId, edges: seq<NodeId>)
    requires |edges| < TWO64
    ensures front + [ToWord(id), |edges|] + WordsOf(edges) == front + Encode(Record(id, edges))
  {
    assert |edges| % TWO64 == |edges|;
    assert front + [ToWord(id), |edges|] + WordsOf(edges) == front + ([ToWord(id), |edges|] + WordsOf(edges));
  }

  function EncodeEach(rs: seq<Record>): seq<seq<Word>> {
    seq(|rs|, i requires 0 <= i < |rs| => Encode(rs[i]))
  }

  function EncodeAll(rs: seq<Record>): seq<Word> {
    Concat(EncodeEach(rs))
  }

  lemma EncodeAppend(rs: seq<Record>, r: Record)
    ensures EncodeAll(rs + [r]) == EncodeAll(rs) + Encode(r)
  {
    ConcatAppend(EncodeEach(rs), Encode(r));
    assert EncodeEach(rs + [r]) == EncodeEach(rs) + [Encode(r)];
  }

  lemma EncodeSplit(rs: seq<Record>, i: nat)
    requires i < |rs|
    ensures EncodeAll(rs) == EncodeAll(rs[..i]) + Encode(rs[i]) + EncodeAll(rs[i + 1..])
  {
    assert EncodeEach(rs) == EncodeEach(rs[..i + 1]) + EncodeEach(rs[i + 1..]);
    ConcatSplit(EncodeEach(rs[..i + 1]), EncodeEach(rs[i + 1..]));
    EncodeAppend(rs[..i], rs[i]);
    assert rs[..i + 1] == rs[..i] + [rs[i]];
  }

  ghost predicate WordsAt(ws: seq<Word>, at: int, words: seq<Word>) {
    && 0 <= at && at + |words| <= |ws|
    && forall k :: 0 <= k < |words| ==> ws[at + k] == words[k]
  }

  /** Record i follows the records before it. */
  lemma EncodedAt(rs: seq<Record>, i: nat, ws: seq<Word>)
    requires i < |rs| && EncodeAll(rs) <= ws
    ensures WordsAt(ws, |EncodeAll(rs[..i])|, Encode(rs[i]))
    ensures |EncodeAll(rs[..i + 1])| == |EncodeAll(rs[..i])| + |Encode(rs[i])|
  {
    EncodeSplit(rs, i);
    EncodeAppend(rs[..i], rs[i]);
    assert rs[..i + 1] == rs[..i] + [rs[i]];
    var at, all := |EncodeAll(rs[..i])|, EncodeAll(rs);
    forall k | 0 <= k < |Encode(rs[i])|
      ensures ws[at + k] == Encode(rs[i])[k]
    {
      assert ws[at + k] == all[at + k];
    }
  }

  // ---------- unique decoding ----------

  ghost predicate CountsFit(rs: seq<Record>) {
    forall i :: 0 <= i < |rs| ==> |rs[i].edges| < TWO64
  }

  lemma WordsOfInjective(xs: seq<NodeId>, ys: seq<NodeId>)
    requires WordsOf(xs) == WordsOf(ys)
    ensures xs == ys
  {
    assert |WordsOf(xs)| == |xs| && |WordsOf(ys)| == |ys|;
    forall i | 0 <= i < |xs|
      ensures xs[i] == ys[i]
    {
      assert WordsOf(xs)[i] == WordsOf(ys)[i];
    }
  }

  lemma EncodePrefixFree(r: Record, s: Record, ws: seq<Word>)
    requires |r.edges| < TWO64 && |s.edges| < TWO64
    requires Encode(r) <= ws && Encode(s) <= ws
    ensures r == s
  {
    assert ws[0] == Encode(r)[0] == Encode(s)[0];
    assert ws[1] == Encode(r)[1] == Encode(s)[1];
    assert WordsOf(r.edges) == ws[2..2 + |r.edges|] == WordsOf(s.edges);
    WordsOfInjective(r.edges, s.edges);
  }

  /** A stream and a node count determine the records. */
  lemma {:induction false} UniqueDecoding(rs: seq<Record>, ss: seq<Record>, ws: seq<Word>)
    requires |rs| == |ss| && CountsFit(rs) && CountsFit(ss)
    requires EncodeAll(rs) <= ws && EncodeAll(ss) <= ws
    ensures rs == ss
  {
    if rs != [] {
      EncodeFirst(rs);
      EncodeFirst(ss);
      EncodePrefixFree(rs[0], ss[0], ws);
      UniqueDecoding(rs[1..], ss[1..], ws[|Encode(rs[0])|..]);
      assert rs == [rs[0]] + rs[1..] && ss == [ss[0]] + ss[1..];
    }
  }

  lemma EncodeFirst(rs: seq<Record>)
    requires rs != []
    ensures EncodeAll(rs) == Encode(rs[0]) + EncodeAll(rs[1..])
  {
    EncodeSplit(rs, 0);
    assert EncodeAll(rs[..0]) == [];
  }

  // ---------- listings of a graph ----------

  ghost function SetOf(ids: seq<NodeId>): set<NodeId> {
    set id | id in ids
  }

  ghost predicate ListsSet(ids: seq<NodeId>, s: set<NodeId>) {
    |ids| == |s| && SetOf(ids) == s
  }

  lemma OneMoreId(ids: seq<NodeId>, id: NodeId)
    ensures SetOf(ids + [id]) == SetOf(ids) + {id}
    ensures WordsOf(ids + [id]) == WordsOf(ids) + [ToWord(id)]
  {
  }

  /** Listing one more id of a set. */
  lemma ListedIdsStep(ids: set<NodeId>, rest: set<NodeId>, es: seq<NodeId>, id: NodeId)
    requires id in rest && rest <= ids && SetOf(es) == ids - rest && |es| + |rest| == |ids|
    ensures SetOf(es + [id]) == ids - (rest - {id}) && |es + [id]| + |rest - {id}| == |ids|
  {
    OneMoreId(es, id);
  }

  lemma OneMoreWord(front: seq<Word>, ids: seq<NodeId>, id: NodeId)
    ensures front + WordsOf(ids) + [ToWord(id)] == front + WordsOf(ids + [id])
  {
    OneMoreId(ids, id);
    assert front + WordsOf(ids) + [ToWord(id)] == front + (WordsOf(ids) + [ToWord(id)]);
  }

  /** The records list every node of g once, each with its edges once, in some order. */
  ghost predicate Lists(rs: seq<Record>, g: Graph)
    decreases |rs|
  {
    if rs == [] then g == map[]
    else
      var r := rs[|rs| - 1];
      r.id in g && ListsSet(r.edges, g[r.id]) && Lists(rs[..|rs| - 1], g - {r.id})
  }

  /** Words a checkpoint of g takes: two per node and one per stored edge. */
  ghost function WordCount(g: Graph): nat {
    2 * |g| + |Arcs(g)|
  }

  ghost function ArcsFrom(a: NodeId, s: set<NodeId>): set<(NodeId, NodeId)> {
    set b | b in s :: (a, b)
  }

  /** For a store graph: one word pair per node and per link. */
  lemma WordCountIs(g: Graph)
    requires WellFormed(g)
    ensures WordCount(g) == 2 * (|g| + |Links(g)|)
  {
    Handshake(g);
  }

  lemma {:induction false} RowSize(a: NodeId, s: set<NodeId>)
    ensures |ArcsFrom(a, s)| == |s|
  {
    if s != {} {
      var b :| b in s;
      RowSize(a, s - {b});
      assert ArcsFrom(a, s) == ArcsFrom(a, s - {b}) + {(a, b)};
    }
  }

  lemma WordCountStep(g: Graph, id: NodeId)
    requires id in g
    ensures WordCount(g) == WordCount(g - {id}) + 2 + |g[id]|
  {
    var h := g - {id};
    var row := ArcsFrom(id, g[id]);
    RowSize(id, g[id]);
    assert Arcs(g) == Arcs(h) + row && Arcs(h) !! row;
    assert |Arcs(g)| == |Arcs(h)| + |row|;
    assert g.Keys == h.Keys + {id} && |g| == |g.Keys| && |h| == |h.Keys|;
  }

  lemma {:induction false} ListingSize(rs: seq<Record>, g: Graph)
    requires Lists(rs, g)
    ensures |rs| == |g| && |EncodeAll(rs)| == WordCount(g)
    decreases |rs|
  {
    if rs == [] {
      assert Arcs(g) == {};
    } else {
      var n := |rs| - 1;
      var r := rs[n];
      ListingSize(rs[..n], g - {r.id});
      assert rs == rs[..n] + [r];
      EncodeAppend(rs[..n], r);
      WordCountStep(g, r.id);
      assert g.Keys == (g - {r.id}).Keys + {r.id};
    }
  }

  lemma SubgraphWordCount(g: Graph, h: Graph)
    requires h.Keys <= g.Keys && forall id :: id in h ==> h[id] == g[id]
    ensures |h| <= |g| && WordCount(h) <= WordCount(g)
  {
    SetSize(h.Keys, g.Keys);
    assert Arcs(h) <= Arcs(g);
    SetSize(Arcs(h), Arcs(g));
  }

  lemma SetSize<T>(s: set<T>, t: set<T>)
    requires s <= t
    ensures |s| <= |t|
  {
    assert t == s + (t - s);
  }

  /** Listing one more node of g. */
  lemma ListingStep(g: Graph, rest: set<NodeId>, id: NodeId, rs: seq<Record>, r: Record)
    requires id in rest && rest <= g.Keys && Lists(rs, g - rest)
    requires r.id == id && ListsSet(r.edges, g[id])
    ensures Lists(rs + [r], g - (rest - {id}))
    ensures EncodeAll(rs + [r]) == EncodeAll(rs) + Encode(r)
  {
    assert (g - (rest - {id})) - {id} == g - rest;
    assert (rs + [r])[..|rs|] == rs;
    EncodeAppend(rs, r);
  }

  /** A node still to be listed is still to be counted. */
  lemma ListingSizeStep(g: Graph, rest: set<NodeId>, id: NodeId, rs: seq<Record>)
    requires id in rest && rest <= g.Keys && Lists(rs, g - rest)
    ensures |EncodeAll(rs)| + 2 + |g[id]| <= WordCount(g)
  {
    var h := g - (rest - {id});
    assert h - {id} == g - rest;
    ListingSize(rs, g - rest);
    WordCountStep(h, id);
    SubgraphWordCount(g, h);
  }

  // ---------- restoring ----------

  function WithNode(g: Graph, id: NodeId): Graph {
    if id in g then g else g[id := {}]
  }

  function WithTargets(g: Graph, id: NodeId, targets: seq<NodeId>): (h: Graph)
    requires id in g
    ensures id in h
  {
    if targets == [] then g
    else
      var n := |targets| - 1;
      var h := WithNode(WithTargets(g, id, targets[..n]), targets[n]);
      h[id := h[id] + {targets[n]}]
  }

  /** A record adds its node, and every edge target that is not a node yet. */
  function RestoreRecord(g: Graph, r: Record): Graph {
    WithTargets(WithNode(g, r.id), r.id, r.edges)
  }

  function RestoreOnto(g: Graph, rs: seq<Record>): Graph {
    if rs == [] then g else RestoreRecord(RestoreOnto(g, rs[..|rs| - 1]), rs[|rs| - 1])
  }

  function RestoreAll(rs: seq<Record>): Graph {
    RestoreOnto(map[], rs)
  }

  lemma RestoreOntoStep(g: Graph, rs: seq<Record>, r: Record)
    ensures RestoreOnto(g, rs + [r]) == RestoreRecord(RestoreOnto(g, rs), r)
  {
    assert (rs + [r])[..|rs|] == rs;
  }

  lemma WithTargetsStep(g: Graph, id: NodeId, targets: seq<NodeId>, target: NodeId)
    requires id in g
    ensures var h := WithNode(WithTargets(g, id, targets), target);
      WithTargets(g, id, targets + [target]) == h[id := h[id] + {target}]
  {
    assert (targets + [target])[..|targets|] == targets;
  }

  lemma {:induction false} RestoredNodesStay(g: Graph, id: NodeId, targets: seq<NodeId>)
    requires id in g
    ensures g.Keys <= WithTargets(g, id, targets).Keys
  {
    if targets != [] {
      RestoredNodesStay(g, id, targets[..|targets| - 1]);
    }
  }

  /** Restoring any records at all leaves a node. */
  lemma RestoredIsNotEmpty(rs: seq<Record>)
    requires rs != []
    ensures RestoreAll(rs) != map[]
  {
    var r, g := rs[|rs| - 1], RestoreAll(rs[..|rs| - 1]);
    RestoredNodesStay(WithNode(g, r.id), r.id, r.edges);
    assert r.id in RestoreAll(rs);
  }

  ghost function Targets(g: Graph): set<NodeId> {
    set a, b | a in g && b in g[a] :: b
  }

  /** g with an isolated node for every edge target that is not a node. */
  ghost function Closure(g: Graph): Graph {
    map id | id in g.Keys + Targets(g) :: if id in g then g[id] else {}
  }

  lemma ClosureIsIdentityIffClosed(g: Graph)
    ensures Closure(g) == g <==> Closed(g)
  {
    if Closure(g) == g {
      forall n | n in g
        ensures g[n] <= g.Keys
      {
        forall b | b in g[n]
          ensures b in g
        {
          assert b in Targets(g) && b in Closure(g);
        }
      }
    }
    if Closed(g) {
      assert Targets(g) <= g.Keys;
    }
  }

  ghost function WithRow(g: Graph, id: NodeId, row: set<NodeId>): Graph
    requires id in g
  {
    map x | x in g.Keys + row :: if x == id then g[id] + row else if x in g then g[x] else {}
  }

  lemma WithRowStep(g: Graph, id: NodeId, row: set<NodeId>, t: NodeId)
    requires id in g
    ensures var h := WithNode(WithRow(g, id, row), t); h[id := h[id] + {t}] == WithRow(g, id, row + {t})
  {
    var h := WithNode(WithRow(g, id, row), t);
    var k := h[id := h[id] + {t}];
    assert k.Keys == WithRow(g, id, row + {t}).Keys;
    forall x | x in k
      ensures k[x] == WithRow(g, id, row + {t})[x]
    {
    }
  }

  lemma {:induction false} WithTargetsIs(g: Graph, id: NodeId, targets: seq<NodeId>)
    requires id in g
    ensures WithTargets(g, id, targets) == WithRow(g, id, SetOf(targets))
  {
    var row := SetOf(targets);
    if targets == [] {
      assert row == {} && g[id] + row == g[id];
      assert WithRow(g, id, row).Keys == g.Keys;
      assert WithRow(g, id, row) == g;
    } else {
      var n := |targets| - 1;
      var init := SetOf(targets[..n]);
      WithTargetsIs(g, id, targets[..n]);
      WithRowStep(g, id, init, targets[n]);
      assert targets == targets[..n] + [targets[n]];
      assert row == init + {targets[n]};
    }
  }

  lemma ClosureStep(g: Graph, id: NodeId)
    requires id in g
    ensures Closure(g) == WithRow(WithNode(Closure(g - {id}), id), id, g[id])
  {
    var h := g - {id};
    forall b
      ensures b in Targets(g) <==> b in Targets(h) + g[id]
    {
      if b in Targets(g) && b !in g[id] {
        var a :| a in g && b in g[a];
        assert a in h && b in h[a];
      }
      if b in Targets(h) {
        var a :| a in h && b in h[a];
        assert a in g && b in g[a];
      }
    }
    assert Closure(g).Keys == WithRow(WithNode(Closure(h), id), id, g[id]).Keys;
    forall x | x in Closure(g)
      ensures Closure(g)[x] == WithRow(WithNode(Closure(h), id), id, g[id])[x]
    {
    }
  }

  /** Whatever the order of nodes and edges, restoring a listing of g gives g closed off. */
  lemma {:induction false} RestoreListing(rs: seq<Record>, g: Graph)
    requires Lists(rs, g)
    ensures RestoreAll(rs) == Closure(g)
    decreases |rs|
  {
    if rs == [] {
      assert Targets(g) == {};
    } else {
      var n := |rs| - 1;
      RestoreListing(rs[..n], g - {rs[n].id});
      RestoreStep(Closure(g - {rs[n].id}), rs[n], g[rs[n].id]);
      ClosureStep(g, rs[n].id);
    }
  }

  lemma RestoreStep(g: Graph, r: Record, row: set<NodeId>)
    requires ListsSet(r.edges, row)
    ensures RestoreRecord(g, r) == WithRow(WithNode(g, r.id), r.id, row)
  {
    WithTargetsIs(WithNode(g, r.id), r.id, r.edges);
  }

  /** The checkpoint round trip: a listing of a graph whose edges lead to nodes restores that graph. */
  lemma RoundTrip(rs: seq<Record>, g: Graph)
    requires Lists(rs, g)
    ensures RestoreAll(rs) == g <==> Closed(g)
  {
    RestoreListing(rs, g);
    ClosureIsIdentityIffClosed(g);
  }

  // ---------- the checkpoint region of a device ----------

  /**
   * The words that can be read from the blocks from `start` up to `end`. The reader checks its block before it moves
   * on to the next, so one word behind the region is handed out, if the device has one.
   */
  ghost function Readable(blocks: seq<Block>, start: nat, end: nat): seq<Word>
    requires start <= end <= |blocks|
  {
    Concat(blocks[start..end]) + if end < |blocks| then [blocks[end][0]] else []
  }

  ghost function DataWords(blocks: seq<Block>, min: nat, max: nat): seq<Word>
    requires min < max <= |blocks|
  {
    Readable(blocks, min + 1, max)
  }

  /** At this position there are not enough words for a record. */
  predicate CutOff(ws: seq<Word>, at: nat) {
    at + 2 > |ws| || at + 2 + ws[at + 1] > |ws|
  }

  /** Where reading is cut off after some records, no larger number of records can be read. */
  lemma CutOffMeansFewer(ws: seq<Word>, rs: seq<Record>, ss: seq<Record>)
    requires CountsFit(rs) && CountsFit(ss) && EncodeAll(rs) <= ws && CutOff(ws, |EncodeAll(rs)|)
    requires EncodeAll(ss) <= ws
    ensures |ss| <= |rs|
  {
    if |ss| > |rs| {
      var n := |rs|;
      assert EncodeAll(ss[..n]) <= ws by {
        EncodeSplit(ss, n);
        assert EncodeAll(ss[..n]) <= EncodeAll(ss);
      }
      UniqueDecoding(rs, ss[..n], ws);
      NotCutOff(ws, ss, n);
    }
  }

  lemma NotCutOff(ws: seq<Word>, ss: seq<Record>, n: nat)
    requires CountsFit(ss) && EncodeAll(ss) <= ws && n < |ss|
    ensures !CutOff(ws, |EncodeAll(ss[..n])|)
  {
    EncodedAt(ss, n, ws);
    assert ws[|EncodeAll(ss[..n])| + 1] == Encode(ss[n])[1];
  }

  ghost predicate Records(blocks: seq<Block>, min: nat, max: nat, rs: seq<Record>)
    requires min < max <= |blocks|
  {
    blocks[min][2] == |rs| && CountsFit(rs) && EncodeAll(rs) <= DataWords(blocks, min, max)
  }

  /** As many records can be read as the superblock says. */
  ghost predicate Complete(blocks: seq<Block>, min: nat, max: nat)
    requires min < max <= |blocks|
  {
    exists rs :: Records(blocks, min, max, rs)
  }

  /** Reading them into a store that holds g leaves h. */
  ghost predicate Adds(blocks: seq<Block>, min: nat, max: nat, g: Graph, h: Graph)
    requires min < max <= |blocks|
  {
    exists rs :: Records(blocks, min, max, rs) && h == RestoreOnto(g, rs)
  }

  /** Restoring version `version` from this device into an empty store gives g. */
  ghost predicate Restores(blocks: seq<Block>, min: nat, max: nat, version: Word, g: Graph) {
    && min < max <= |blocks|
    && if blocks[min][1] != version then g == map[] else Adds(blocks, min, max, map[], g)
  }

  lemma RestoresIsUnique(blocks: seq<Block>, min: nat, max: nat, version: Word, g: Graph, h: Graph)
    requires Restores(blocks, min, max, version, g) && Restores(blocks, min, max, version, h)
    ensures g == h
  {
    if blocks[min][1] == version {
      var rs :| Records(blocks, min, max, rs) && g == RestoreOnto(map[], rs);
      var ss :| Records(blocks, min, max, ss) && h == RestoreOnto(map[], ss);
      UniqueDecoding(rs, ss, DataWords(blocks, min, max));
    }
  }
}
