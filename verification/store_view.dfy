/** What a logged store and its device amount to, and what each operation does to that (src/db/logged_store.cc). */
module StoreViews {
  import opened Types
  import opened Words
  import opened Devices
  import opened Graphs
  import opened MemoryStores
  import opened LogLayout
  import opened LogManagers
  import opened CheckpointCodec
  import opened Replays

  /**
   * The in-memory graph; the generation and entries of the log on the device; and the blocks of the checkpoint
   * region, which starts at a fifth of the device.
   */
  datatype View = View(size: nat, generation: Half, log: seq<Entry>, region: seq<Block>, memory: Graph)

  /** Entries the log can take before it runs into the checkpoint region. */
  function LogCapacity(size: nat): int {
    LOG_BLOCK_ENTRY_COUNT * (size / 5 - 1)
  }

  /** Entries the device can take; only these are refused with NO_SPACE. */
  function DeviceCapacity(size: nat): int {
    LOG_BLOCK_ENTRY_COUNT * (size - 1)
  }

  /** Words the checkpoint region can take. */
  function CheckpointCapacity(size: nat): int {
    BLOCK_WORDS * (size - size / 5 - 1)
  }

  /** The version recovery asks for: the generation as uint64_t, minus one. */
  function Previous(generation: Half): Word {
    if generation == 0 then TWO64 - 1 else generation - 1
  }

  ghost predicate Restored(v: View, version: Word, g: Graph) {
    Restores(v.region, 0, |v.region|, version, g)
  }

  /** The device stands for graph g: replaying the log on the checkpoint gives g. */
  ghost predicate StandsFor(v: View, g: Graph) {
    exists base :: Restored(v, Previous(v.generation), base) && Replay(base, v.log) == Returned(Success, g)
  }

  /** The device stands for the graph in memory. */
  ghost predicate Durable(v: View) {
    StandsFor(v, v.memory)
  }

  /** What a device shows, with no graph in memory. */
  ghost function DiskView(blocks: seq<Block>): View {
    if LogOnDisk(blocks, 0)
    then View(|blocks|, Generation(blocks[0]), LogEntries(blocks, 0), blocks[|blocks| / 5..], map[])
    else View(|blocks|, 0, [], [], map[])
  }

  // ---------- opening any device ----------

  /** The recovery loop over what the reader hands out. */
  function RunReading(g: Graph, r: Reading): Outcome {
    if r.dies then Aborted else SwitchAll(g, r.entries)
  }

  /** Recovery of this device, whatever it holds, ends with graph g in memory. */
  ghost predicate RecoversTo(blocks: seq<Block>, g: Graph)
    requires blocks != []
  {
    exists base ::
      && Restores(blocks, |blocks| / 5, |blocks|, Previous(Generation(blocks[0])), base)
      && RunReading(base, LogReading(blocks, 0)) == Returned(Success, g)
  }

  // ---------- what the operations do ----------

  /** A node or edge operation: log first, then apply. A log that runs into the region leaves nothing to restore. */
  ghost predicate Performed(before: View, op: Op, call: Call, after: View) {
    && after.size == before.size && after.generation == before.generation
    && (if |before.log| == DeviceCapacity(before.size) then call == Done(NoSpace) && after == before
        else after.log == before.log + [EntryOf(op)] && Agrees(call, after.memory, Apply(before.memory, op)))
    && (|before.log| < LogCapacity(before.size) ==> after.region == before.region)
    && (|after.log| > LogCapacity(after.size) && Previous(after.generation) != BLOCK_MAGIC ==>
          Restored(after, Previous(after.generation), map[]))
  }

  /** A checkpoint. Without room nothing restores any more under the version recovery will ask for. */
  ghost predicate Checkpointed(before: View, status: Status, after: View) {
    && after.size == before.size && after.memory == before.memory && |after.region| == |before.region|
    && status == (if WordCount(before.memory) <= CheckpointCapacity(before.size) then Success else NoSpace)
    && (status.Success? ==>
          && after.generation == (before.generation + 1) % TWO32 && after.log == []
          && Restored(after, before.generation, Closure(before.memory)))
    && (!status.Success? && |before.log| <= LogCapacity(before.size) ==>
          && after.generation == before.generation && after.log == before.log)
    && forall version :: version != before.generation ==> Restored(after, version, map[])
  }

  /** Opening a device: what recovery computes from the checkpoint and the log; the device is only read. */
  ghost predicate Reopened(before: View, base: Graph, survived: bool, after: View)
    requires Restored(before, Previous(before.generation), base)
  {
    match SwitchAll(base, before.log)
    case Aborted => !survived
    case Returned(_, g) => survived && after == before.(memory := g)
  }

  // ---------- what follows for durability ----------

  /** The device stands for at most one graph. */
  lemma StandsForOne(v: View, g: Graph, h: Graph)
    requires StandsFor(v, g) && StandsFor(v, h)
    ensures g == h
  {
    var b :| Restored(v, Previous(v.generation), b) && Replay(b, v.log) == Returned(Success, g);
    var c :| Restored(v, Previous(v.generation), c) && Replay(c, v.log) == Returned(Success, h);
    RestoresIsUnique(v.region, 0, |v.region|, Previous(v.generation), b, c);
  }

  /** Log-then-apply keeps device and memory together, as long as the log stays out of the checkpoint region. */
  lemma PerformedKeepsDurable(before: View, op: Op, call: Call, after: View)
    requires Durable(before) && Performed(before, op, call, after) && call.Done?
    requires |before.log| < LogCapacity(before.size)
    ensures Durable(after)
  {
    var base :| Restored(before, Previous(before.generation), base)
                && Replay(base, before.log) == Returned(Success, before.memory);
    if |before.log| != DeviceCapacity(before.size) {
      ReplayAppend(base, before.log, op);
    }
    assert Restored(after, Previous(after.generation), base);
  }

  /** After a successful checkpoint: exactly when the edges lead to nodes, and the generation did not wrap round. */
  lemma CheckpointIsDurableIff(before: View, status: Status, after: View)
    requires Checkpointed(before, status, after) && status.Success?
    ensures Durable(after) <==>
            if before.generation + 1 < TWO32 then Closed(before.memory) else before.memory == map[]
  {
    var g, previous := before.memory, Previous(after.generation);
    var base := if before.generation + 1 < TWO32 then Closure(g) else map[];
    assert Restored(after, previous, base);
    assert Replay(base, []) == Returned(Success, base);
    ClosureIsIdentityIffClosed(g);
    assert StandsFor(after, base);
    if Durable(after) {
      StandsForOne(after, base, g);
    }
  }

  /** After a failed one: exactly when the log alone, without its checkpoint, gives the graph. */
  lemma FailedCheckpointIsDurableIff(before: View, status: Status, after: View)
    requires Checkpointed(before, status, after) && !status.Success? && |before.log| <= LogCapacity(before.size)
    ensures Durable(after) <==> Replay(map[], before.log) == Returned(Success, before.memory)
  {
    var previous := Previous(after.generation);
    assert Restored(after, previous, map[]);
    if Durable(after) {
      var base :| Restored(after, previous, base) && Replay(base, after.log) == Returned(Success, after.memory);
      RestoresIsUnique(after.region, 0, |after.region|, previous, base, map[]);
    }
  }

  /**
   * Recovery is exact on a durable device with a well-formed checkpoint and no edge parts if and only if the log
   * is faithful: only then does the store open with the graph that was in memory.
   */
  lemma ReopenIsExactIff(before: View, base: Graph, survived: bool, after: View)
    requires Restored(before, Previous(before.generation), base) && Reopened(before, base, survived, after)
    requires Durable(before) && WellFormed(base) && forall e :: e in before.log ==> !IsPartEntry(e)
    ensures survived && after == before <==> Faithful(base.Keys, before.log)
  {
    var c :| Restored(before, Previous(before.generation), c)
             && Replay(c, before.log) == Returned(Success, before.memory);
    RestoresIsUnique(before.region, 0, |before.region|, Previous(before.generation), base, c);
    SwitchExactIff(base, before.log);
    SwitchAllSucceeds(base, before.log);
  }

  lemma SwitchAllSucceeds(g: Graph, es: seq<Entry>)
    ensures SwitchAll(g, es).Returned? ==> SwitchAll(g, es).status == Success
  {
  }

  /** The log stays out of the checkpoint region exactly as long as its entries fit the blocks before it. */
  lemma LogInRegionIff(blocks: seq<Block>)
    requires LogOnDisk(blocks, 0) && |blocks| >= 10
    ensures LastBlock(blocks, 0) < |blocks| / 5 <==> |LogEntries(blocks, 0)| <= LogCapacity(|blocks|)
  {
    SegmentSizeIs(blocks, 0);
  }

  /**
   * Once it has grown into that region, the first block there is a log block, and its second word the log magic:
   * nothing is restored, and only the log is left. For the one generation that asks for that magic as a version, log
   * words are read as a checkpoint, and never come out as an empty one.
   */
  lemma OverflowLosesCheckpoint(blocks: seq<Block>)
    requires LogOnDisk(blocks, 0) && 5 <= |blocks| && LastBlock(blocks, 0) >= |blocks| / 5
    ensures Restored(DiskView(blocks), Previous(Generation(blocks[0])), map[])
            <==> Previous(Generation(blocks[0])) != BLOCK_MAGIC
  {
    var bs, v, min := Segment(blocks, 0), DiskView(blocks), |blocks| / 5;
    assert bs[min - 1] == blocks[min] == v.region[0];
    assert Intact(v.region[0], Generation(blocks[0]));
    if Previous(Generation(blocks[0])) == BLOCK_MAGIC {
      forall rs | Records(v.region, 0, |v.region|, rs)
        ensures RestoreOnto(map[], rs) != map[]
      {
        RestoredIsNotEmpty(rs);
      }
    }
  }

  /** A device of 5 to 9 blocks has its checkpoint superblock where the log starts, so this is always so there. */
  lemma SmallDeviceOverflows(blocks: seq<Block>)
    requires LogOnDisk(blocks, 0) && 5 <= |blocks| < 10
    ensures LastBlock(blocks, 0) >= |blocks| / 5
  {
  }

  /** What such a device stands for is what its log alone gives. */
  lemma OverflowIsDurableIff(blocks: seq<Block>, g: Graph)
    requires LogOnDisk(blocks, 0) && 5 <= |blocks| && LastBlock(blocks, 0) >= |blocks| / 5
    requires Previous(Generation(blocks[0])) != BLOCK_MAGIC
    ensures Durable(DiskView(blocks).(memory := g)) <==> Replay(map[], LogEntries(blocks, 0)) == Returned(Success, g)
  {
    var v := DiskView(blocks).(memory := g);
    OverflowLosesCheckpoint(blocks);
    assert Restored(v, Previous(v.generation), map[]);
    if Durable(v) {
      var base :| Restored(v, Previous(v.generation), base) && Replay(base, v.log) == Returned(Success, g);
      RestoresIsUnique(v.region, 0, |v.region|, Previous(v.generation), base, map[]);
    }
  }

  /** The base is determined by the device, so recovery ends in the graph that this base leads to, or nowhere. */
  lemma RecoversUniquely(blocks: seq<Block>, base: Graph)
    requires blocks != [] && Restores(blocks, |blocks| / 5, |blocks|, Previous(Generation(blocks[0])), base)
    ensures match RunReading(base, LogReading(blocks, 0))
            case Aborted => forall g :: !RecoversTo(blocks, g)
            case Returned(_, g) => RecoversTo(blocks, g) && forall h :: RecoversTo(blocks, h) ==> h == g
  {
    var previous := Previous(Generation(blocks[0]));
    SwitchAllSucceeds(base, LogReading(blocks, 0).entries);
    forall g | RecoversTo(blocks, g)
      ensures RunReading(base, LogReading(blocks, 0)) == Returned(Success, g)
    {
      var b :| Restores(blocks, |blocks| / 5, |blocks|, previous, b) && RunReading(b, LogReading(blocks, 0)) == Returned(Success, g);
      RestoresIsUnique(blocks, |blocks| / 5, |blocks|, previous, b, base);
    }
  }

  /** On a log, opening is what the view says it is. */
  lemma OpenedIs(blocks: seq<Block>, base: Graph, alive: bool, g: Graph)
    requires LogOnDisk(blocks, 0) && 5 <= |blocks|
    requires Restored(DiskView(blocks), Previous(Generation(blocks[0])), base)
    requires alive <==> Accepted(blocks, 0) && exists h :: RecoversTo(blocks, h)
    requires alive ==> RecoversTo(blocks, g)
    ensures Reopened(DiskView(blocks), base, alive, DiskView(blocks).(memory := g))
  {
    LogIsAccepted(blocks, 0);
    LogReadingIs(blocks, 0);
    RegionRestores(blocks, |blocks| / 5, Previous(Generation(blocks[0])), base);
    RecoversUniquely(blocks, base);
  }

  /** A store does not open on a device in whose log one covered word was changed. */
  lemma CorruptedStoreStaysShut(blocks: seq<Block>, i: nat, j: nat, w: Word)
    requires LogOnDisk(blocks, 0) && i <= LastBlock(blocks, 0)
    requires j < (if i == 0 then 3 else 511) && blocks[i][j] != w
    ensures var blocks' := blocks[i := blocks[i][j := w]];
      !Accepted(blocks', 0) || forall g :: !RecoversTo(blocks', g)
  {
    CorruptionIsNoticed(blocks, 0, i, j, w);
  }

  /** The checkpoint region seen on its own. */
  lemma RegionRestores(blocks: seq<Block>, min: nat, version: Word, g: Graph)
    requires min < |blocks|
    ensures Restores(blocks, min, |blocks|, version, g) <==> Restores(blocks[min..], 0, |blocks| - min, version, g)
  {
    var region := blocks[min..];
    assert region[1..] == blocks[min + 1..] && region[0] == blocks[min];
    assert blocks[min + 1..|blocks|] == region[1..|region|];
    assert forall rs :: Records(blocks, min, |blocks|, rs) <==> Records(region, 0, |region|, rs);
  }
}
