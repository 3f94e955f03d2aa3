/** The durable graph store (src/db/logged_store.cc). */
module LoggedStores {
  import opened Types
  import opened Words
  import opened Devices
  import opened Graphs
  import opened MemoryStores
  import opened LogLayout
  import opened LogManagers
  import opened CheckpointCodec
  import opened CheckpointManagers
  import opened Replays
  import opened StoreViews

  /** The log takes the first fifth of the device, the checkpoint the rest; both have room for a data block. */
  ghost predicate Geometry(size: nat) {
    10 <= size < TWO32
  }

  class LoggedStore {
    const dev: BlockDevice
    const log: LogManager
    const checkpoint: CheckpointManager
    const memory: MemoryStore
    /** False when opening ran into a failing runtime invariant, which ends the process. */
    var alive: bool

    /** All parts share the device, each with its own range of blocks. */
    ghost predicate Parts()
      reads dev
    {
      && 5 <= |dev.blocks| < TWO32
      && log.dev == dev && log.minBlock == 0
      && checkpoint.dev == dev && checkpoint.minBlock == |dev.blocks| / 5 && checkpoint.maxBlock == |dev.blocks|
    }

    ghost predicate Valid()
      reads this, dev, log, log.superblock, log.current, checkpoint, checkpoint.superblock, memory
    {
      && Parts() && Geometry(|dev.blocks|) && log.Valid() && checkpoint.Valid() && memory.Valid()
      && log.superblock != checkpoint.superblock && log.current != checkpoint.superblock
    }

    ghost function View(): View
      reads dev, memory, memory.repr
    {
      DiskView(dev.blocks).(memory := memory.Contents())
    }

    /**
     * Erase the device and start empty. On fewer than 10 blocks the first log block is the checkpoint superblock, and
     * what is left there is no log.
     */
    constructor Format(dev: BlockDevice)
      requires 5 <= |dev.blocks| < TWO32
      modifies dev
      ensures this.dev == dev && alive && |dev.blocks| == |old(dev.blocks)|
      ensures fresh({log, checkpoint, memory}) && fresh(memory.repr) && memory.Contents() == map[]
      ensures Generation(dev.blocks[0])
              == if SuperValid(old(dev.blocks)[0]) then (Generation(old(dev.blocks)[0]) + 1) % TWO32 else 1
      ensures forall version :: Restores(dev.blocks, |dev.blocks| / 5, |dev.blocks|, version, map[])
      ensures Geometry(|dev.blocks|) ==>
                Valid() && View() == StoreViews.View.View(|dev.blocks|, Generation(dev.blocks[0]), [], dev.blocks[|dev.blocks| / 5..], map[])
      ensures Geometry(|dev.blocks|) ==> fresh(log.superblock) && fresh(log.current) && fresh(checkpoint.superblock)
      ensures !Geometry(|dev.blocks|) ==> !LogOnDisk(dev.blocks, 0)
    {
      this.dev := dev;
      var size := |dev.blocks|;
      log := new LogManager(dev, 0, size / 5);
      checkpoint := new CheckpointManager(dev, size / 5, size);
      memory := new MemoryStore();
      alive := true;
      new;
      Erase();
    }

    /** Format the log and the checkpoint. */
    method Erase()
      requires Parts() && memory.Valid()
      modifies dev, log, checkpoint
      ensures |dev.blocks| == |old(dev.blocks)|
      ensures Generation(dev.blocks[0])
              == if SuperValid(old(dev.blocks)[0]) then (Generation(old(dev.blocks)[0]) + 1) % TWO32 else 1
      ensures forall version :: Restores(dev.blocks, |dev.blocks| / 5, |dev.blocks|, version, map[])
      ensures if Geometry(|dev.blocks|) then Valid() && LogEntries(dev.blocks, 0) == [] else !LogOnDisk(dev.blocks, 0)
      ensures fresh(log.superblock) && fresh(log.current) && fresh(checkpoint.superblock)
    {
      log.Format();
      ghost var blocks := dev.blocks;
      checkpoint.Format();
      if Geometry(|dev.blocks|) {
        LogBufferKept(blocks, dev.blocks, |dev.blocks| / 5);
      } else {
        NoLogOnZeros(dev.blocks);
      }
    }

    /**
     * Open any device: load the log and the checkpoint superblock, then recover. The process survives exactly if the
     * log is accepted and recovery comes to an end, with that graph in memory. Nothing is written.
     */
    constructor Open(dev: BlockDevice)
      requires 5 <= |dev.blocks| < TWO32
      ensures this.dev == dev
      ensures alive <==> Accepted(dev.blocks, 0) && exists g :: RecoversTo(dev.blocks, g)
      ensures alive ==> RecoversTo(dev.blocks, memory.Contents())
      ensures fresh({log, checkpoint, memory}) && fresh(memory.repr)
      ensures alive && Geometry(|dev.blocks|) && LogOnDisk(dev.blocks, 0) ==>
                Valid() && fresh(log.superblock) && fresh(log.current) && fresh(checkpoint.superblock)
    {
      this.dev := dev;
      var size := |dev.blocks|;
      log := new LogManager(dev, 0, size / 5);
      checkpoint := new CheckpointManager(dev, size / 5, size);
      memory := new MemoryStore();
      alive := true;
      new;
      var ok := Load();
      if ok {
        Recover();
      } else {
        alive := false;
      }
    }

    /** Both superblock buffers hold their blocks. */
    ghost predicate Ready()
      reads this, dev, log, log.superblock, checkpoint, checkpoint.superblock
    {
      && Parts() && log.Loaded() && checkpoint.Valid()
      && log.superblock[..] == dev.blocks[0] && checkpoint.superblock[..] == dev.blocks[|dev.blocks| / 5]
    }

    /** Read the log's buffers and the checkpoint superblock; `ok` is false where that ends the process. */
    method Load() returns (ok: bool)
      requires Parts()
      modifies log, checkpoint
      ensures ok <==> Accepted(dev.blocks, 0)
      ensures ok ==> Ready() && fresh(log.superblock) && fresh(checkpoint.superblock)
      ensures ok && LogOnDisk(dev.blocks, 0) ==> log.Valid() && fresh(log.current)
      ensures ok ==> log.superblock != checkpoint.superblock && log.current != checkpoint.superblock
    {
      ok := log.Init();
      checkpoint.Init();
    }

    /** Restore the previous generation's checkpoint, then run every log entry through the switch. */
    method Recover()
      requires Ready() && alive && memory.Valid() && memory.nodes == map[] && memory.repr == {}
      modifies this, memory
      ensures memory.Valid() && fresh(memory.repr)
      ensures alive <==> exists g :: RecoversTo(dev.blocks, g)
      ensures alive ==> RecoversTo(dev.blocks, memory.Contents())
    {
      var generation := High(log.superblock[1]);
      assert log.superblock[1] == dev.blocks[0][1] && memory.Contents() == map[];
      alive := checkpoint.RestoreCheckpoint(if generation == 0 then TWO64 - 1 else generation - 1, memory);
      if alive {
        ghost var base := memory.Contents();
        alive := ReplayAll();
        RecoversUniquely(dev.blocks, base);
      } else {
        CutOffNeverRecovers(dev.blocks);
      }
    }

    /** Read the log and replay it. */
    method ReplayAll() returns (survived: bool)
      requires Ready() && memory.Valid()
      modifies memory, memory.repr
      ensures memory.Valid() && fresh(memory.repr - old(memory.repr))
      ensures match RunReading(old(memory.Contents()), LogReading(dev.blocks, 0))
              case Aborted => !survived
              case Returned(_, g) => survived && memory.Contents() == g
    {
      ghost var g := memory.Contents();
      var reader := new Reader(log);
      assert memory.Contents() == g;
      survived := ReplayLog(reader);
    }

    /** Run every log entry through the switch; false if the process ends on the way. */
    method ReplayLog(reader: Reader) returns (survived: bool)
      requires reader.Valid() && memory.Valid()
      modifies reader, memory, memory.repr
      ensures memory.Valid() && fresh(memory.repr - old(memory.repr))
      ensures match RunReading(old(memory.Contents()), old(reader.ahead))
              case Aborted => !survived
              case Returned(_, g) => survived && memory.Contents() == g
    {
      if reader.died {
        return false;
      }
      var more := reader.HasNext();
      while more
        invariant memory.Valid() && fresh(memory.repr - old(memory.repr)) && reader.Valid() && !reader.died
        invariant more <==> reader.ahead.entries != [] || reader.ahead.dies
        invariant RunReading(memory.Contents(), reader.ahead) == RunReading(old(memory.Contents()), old(reader.ahead))
        decreases |reader.ahead.entries|
      {
        var call := ReplayNext(reader);
        if call.Died? {
          return false;
        }
        more := reader.HasNext();
      }
      return true;
    }

    /** Take one entry from the reader and run it. */
    method ReplayNext(reader: Reader) returns (call: Call)
      requires reader.Valid() && !reader.died && (reader.ahead.entries != [] || reader.ahead.dies) && memory.Valid()
      modifies reader, memory, memory.repr
      ensures memory.Valid() && fresh(memory.repr - old(memory.repr))
      ensures if call.Died? then RunReading(old(memory.Contents()), old(reader.ahead)).Aborted?
              else
                && reader.Valid() && !reader.died && |reader.ahead.entries| < |old(reader.ahead).entries|
                && RunReading(memory.Contents(), reader.ahead) == RunReading(old(memory.Contents()), old(reader.ahead))
    {
      ghost var g, r := memory.Contents(), reader.ahead;
      var next := reader.GetNext();
      assert memory.Contents() == g;
      if reader.died {
        return Died;
      }
      RunReadingFirst(g, next, reader.ahead);
      call := RunSwitch(next);
    }

    /** The switch over the opcode; REMOVE_EDGE falls through to the edge-part insertion. */
    method RunSwitch(entry: Entry) returns (call: Call)
      requires memory.Valid()
      modifies memory, memory.repr
      ensures memory.Valid() && fresh(memory.repr - old(memory.repr))
      ensures match Switch(old(memory.Contents()), entry)
              case Aborted => call.Died?
              case Returned(_, g) => call.Done? && memory.Contents() == g
    {
      call := Done(Success);
      if entry.opcode == ADD_NODE {
        var _ := memory.AddNode(entry.idA);
      } else if entry.opcode == REMOVE_NODE {
        call := memory.RemoveNode(entry.idA);
      } else if entry.opcode == ADD_EDGE {
        call := memory.AddEdge(entry.idA, entry.idB);
      } else if entry.opcode == REMOVE_EDGE {
        call := memory.RemoveEdge(entry.idA, entry.idB);
        if call.Died? {
          return;
        }
        var _ := memory.AddEdgePart(entry.idA, entry.idB);
      } else if entry.opcode == ADD_EDGE_PART {
        var _ := memory.AddEdgePart(entry.idA, entry.idB);
      } else if entry.opcode == REMOVE_EDGE_PART {
        var _ := memory.RemoveEdgePart(entry.idA, entry.idB);
      }
    }

    /** The log entry of an operation, written before the operation is applied. */
    method Log(op: Op) returns (status: Status)
      requires Valid()
      modifies dev, log, log.superblock, log.current
      ensures Valid() && log.superblock == old(log.superblock) && (log.current == old(log.current) || fresh(log.current))
      ensures memory.Contents() == old(memory.Contents())
      ensures status == if |old(View()).log| == DeviceCapacity(|dev.blocks|) then NoSpace else Success
      ensures !status.Success? ==> View() == old(View())
      ensures status.Success? ==> View().log == old(View()).log + [EntryOf(op)]
      ensures View().generation == old(View()).generation && View().size == old(View()).size
      ensures |old(View()).log| < LogCapacity(|dev.blocks|) ==> View().region == old(View()).region
      ensures |View().log| > LogCapacity(|dev.blocks|) && Previous(View().generation) != BLOCK_MAGIC ==>
                Restored(View(), Previous(View().generation), map[])
    {
      ghost var blocks := dev.blocks;
      ghost var g := memory.Contents();
      status := log.LogOperation(EntryOf(op));
      assert memory.Contents() == g;
      SegmentSizeIs(dev.blocks, 0);
      RegionUnchanged(blocks, dev.blocks, |old(View()).log|);
      OverflowedRegion(dev.blocks);
    }

    method AddNode(id: NodeId) returns (call: Call)
      requires Valid()
      modifies dev, log, log.superblock, log.current, memory, memory.repr
      ensures Valid() && log.superblock == old(log.superblock) && (log.current == old(log.current) || fresh(log.current))
      ensures fresh(memory.repr - old(memory.repr))
      ensures Performed(old(View()), Op.AddNode(id), call, View())
    {
      var status := Log(Op.AddNode(id));
      if !status.Success? {
        return Done(status);
      }
      var status' := memory.AddNode(id);
      return Done(status');
    }

    method RemoveNode(id: NodeId) returns (call: Call)
      requires Valid()
      modifies dev, log, log.superblock, log.current, memory, memory.repr
      ensures Valid() && log.superblock == old(log.superblock) && (log.current == old(log.current) || fresh(log.current))
      ensures fresh(memory.repr - old(memory.repr))
      ensures Performed(old(View()), Op.RemoveNode(id), call, View())
    {
      var status := Log(Op.RemoveNode(id));
      if !status.Success? {
        return Done(status);
      }
      call := memory.RemoveNode(id);
    }

    method AddEdge(a: NodeId, b: NodeId) returns (call: Call)
      requires Valid()
      modifies dev, log, log.superblock, log.current, memory, memory.repr
      ensures Valid() && log.superblock == old(log.superblock) && (log.current == old(log.current) || fresh(log.current))
      ensures fresh(memory.repr - old(memory.repr))
      ensures Performed(old(View()), Op.AddEdge(a, b), call, View())
    {
      var status := Log(Op.AddEdge(a, b));
      if !status.Success? {
        return Done(status);
      }
      call := memory.AddEdge(a, b);
    }

    method RemoveEdge(a: NodeId, b: NodeId) returns (call: Call)
      requires Valid()
      modifies dev, log, log.superblock, log.current, memory, memory.repr
      ensures Valid() && log.superblock == old(log.superblock) && (log.current == old(log.current) || fresh(log.current))
      ensures fresh(memory.repr - old(memory.repr))
      ensures Performed(old(View()), Op.RemoveEdge(a, b), call, View())
    {
      var status := Log(Op.RemoveEdge(a, b));
      if !status.Success? {
        return Done(status);
      }
      call := memory.RemoveEdge(a, b);
    }

    method AddEdgePart(local: NodeId, remote: NodeId) returns (call: Call)
      requires Valid()
      modifies dev, log, log.superblock, log.current, memory, memory.repr
      ensures Valid() && log.superblock == old(log.superblock) && (log.current == old(log.current) || fresh(log.current))
      ensures fresh(memory.repr - old(memory.repr))
      ensures Performed(old(View()), Op.AddEdgePart(local, remote), call, View())
    {
      var status := Log(Op.AddEdgePart(local, remote));
      if !status.Success? {
        return Done(status);
      }
      var status' := memory.AddEdgePart(local, remote);
      return Done(status');
    }

    method RemoveEdgePart(local: NodeId, remote: NodeId) returns (call: Call)
      requires Valid()
      modifies dev, log, log.superblock, log.current, memory, memory.repr
      ensures Valid() && log.superblock == old(log.superblock) && (log.current == old(log.current) || fresh(log.current))
      ensures fresh(memory.repr - old(memory.repr))
      ensures Performed(old(View()), Op.RemoveEdgePart(local, remote), call, View())
    {
      var status := Log(Op.RemoveEdgePart(local, remote));
      if !status.Success? {
        return Done(status);
      }
      var status' := memory.RemoveEdgePart(local, remote);
      return Done(status');
    }

    /** Checkpoint under the current generation, then start the next one with an empty log. */
    method Checkpoint() returns (status: Status)
      requires Valid()
      modifies dev, log, log.superblock, checkpoint.superblock
      ensures status.Success? || |old(View()).log| <= LogCapacity(|dev.blocks|) ==>
                && Valid() && log.superblock == old(log.superblock) && (log.current == old(log.current) || fresh(log.current))
                && Checkpointed(old(View()), status, View())
      ensures memory.Contents() == old(memory.Contents()) && |dev.blocks| == |old(dev.blocks)|
      ensures status.Success? <==> WordCount(memory.Contents()) <= CheckpointCapacity(|dev.blocks|)
      ensures !status.Success? ==>
                && (forall i :: 0 <= i < |dev.blocks| / 5 ==> dev.blocks[i] == old(dev.blocks)[i])
                && Restores(dev.blocks, |dev.blocks| / 5, |dev.blocks|, Previous(Generation(dev.blocks[0])), map[])
    {
      ghost var blocks := dev.blocks;
      var generation := High(log.superblock[1]);
      status := WriteCheckpoint(generation);
      if status.Success? {
        ghost var g, written := memory.Contents(), dev.blocks;
        StartGeneration(generation);
        SucceededView(blocks, written, dev.blocks, g);
      }
    }

    /** The first half: write the graph; only when that fails is the store left as it will be. */
    method WriteCheckpoint(generation: Half) returns (status: Status)
      requires Valid() && generation == High(log.superblock[1])
      modifies dev, checkpoint.superblock
      ensures Parts() && memory.Valid() && checkpoint.Valid() && log.Loaded() && High(log.superblock[1]) == generation
      ensures memory.Contents() == old(memory.Contents()) && |dev.blocks| == |old(dev.blocks)|
      ensures generation == Generation(old(dev.blocks)[0])
      ensures status.Success? <==> WordCount(memory.Contents()) <= CheckpointCapacity(|dev.blocks|)
      ensures !status.Success? ==>
                && (forall i :: 0 <= i < |dev.blocks| / 5 ==> dev.blocks[i] == old(dev.blocks)[i])
                && Restores(dev.blocks, |dev.blocks| / 5, |dev.blocks|, Previous(generation), map[])
      ensures status.Success? ==> Written(dev.blocks, generation, Closure(memory.Contents()))
      ensures !status.Success? && |old(View()).log| <= LogCapacity(|dev.blocks|) ==>
                Valid() && Checkpointed(old(View()), status, View())
    {
      ghost var before, blocks, g := View(), dev.blocks, memory.Contents();
      assert generation == Generation(blocks[0]);
      status := checkpoint.PerformCheckpoint(generation, memory);
      assert memory.Contents() == g;
      if !status.Success? && |before.log| <= LogCapacity(|dev.blocks|) {
        FailedView(blocks, dev.blocks, g);
      }
    }

    /** The second half of a successful checkpoint: an empty log of the next generation. */
    method StartGeneration(ghost generation: Half)
      requires Parts() && Geometry(|dev.blocks|) && memory.Valid() && checkpoint.Valid() && log.Loaded()
      requires log.superblock != checkpoint.superblock
      requires High(log.superblock[1]) == generation
      modifies dev, log, log.superblock
      ensures Valid() && log.superblock == old(log.superblock) && fresh(log.current)
      ensures memory.Contents() == old(memory.Contents())
      ensures LogStarted(old(dev.blocks), dev.blocks, generation)
    {
      var _ := log.IncreaseGeneration();
    }
  }

  /** With a block of zeros where the log starts there is no log. */
  lemma NoLogOnZeros(blocks: seq<Block>)
    requires 2 <= |blocks| && blocks[1] == ZeroBlock()
    ensures !LogOnDisk(blocks, 0)
  {
    if LogOnDisk(blocks, 0) {
      LogHasMagic(blocks);
    }
  }

  lemma LogHasMagic(blocks: seq<Block>)
    requires LogOnDisk(blocks, 0)
    ensures blocks[1][1] == BLOCK_MAGIC
  {
    assert Segment(blocks, 0)[0] == blocks[1];
  }

  lemma RunReadingFirst(g: Graph, e: Entry, rest: Reading)
    ensures RunReading(g, Then(e, rest)) == match Switch(g, e)
                                            case Aborted => Aborted
                                            case Returned(_, h) => RunReading(h, rest)
  {
    SwitchFirst(g, [e] + rest.entries);
  }

  /** Too few records for the version asked for. */
  lemma CutOffNeverRecovers(blocks: seq<Block>)
    requires blocks != [] && blocks[|blocks| / 5][1] == Previous(Generation(blocks[0]))
    requires !Complete(blocks, |blocks| / 5, |blocks|)
    ensures forall g :: !RecoversTo(blocks, g)
  {
    forall g
      ensures !RecoversTo(blocks, g)
    {
      if RecoversTo(blocks, g) {
        RecoveryIsComplete(blocks, g);
      }
    }
  }

  lemma RecoveryIsComplete(blocks: seq<Block>, g: Graph)
    requires blocks != [] && blocks[|blocks| / 5][1] == Previous(Generation(blocks[0])) && RecoversTo(blocks, g)
    ensures Complete(blocks, |blocks| / 5, |blocks|)
  {
    var base :| Restores(blocks, |blocks| / 5, |blocks|, Previous(Generation(blocks[0])), base);
    assert Adds(blocks, |blocks| / 5, |blocks|, map[], base);
  }

  /** The checkpoint region holds g as this version, and nothing as any other. */
  ghost predicate Written(blocks: seq<Block>, version: Word, g: Graph) {
    && Restores(blocks, |blocks| / 5, |blocks|, version, g)
    && forall v :: v != version ==> Restores(blocks, |blocks| / 5, |blocks|, v, map[])
  }

  /** Beyond two blocks nothing changed, and these hold an empty log of the next generation. */
  ghost predicate LogStarted(before: seq<Block>, after: seq<Block>, generation: Half) {
    && |after| == |before| && LogOnDisk(after, 0) && LogEntries(after, 0) == []
    && Generation(after[0]) == (generation + 1) % TWO32
    && forall i :: 0 <= i < |before| && i != 0 && i != 1 ==> after[i] == before[i]
  }

  /** The device after a checkpoint that found no room. */
  lemma FailedView(blocks: seq<Block>, after: seq<Block>, g: Graph)
    requires Geometry(|blocks|) && |after| == |blocks| && LogOnDisk(blocks, 0)
    requires |LogEntries(blocks, 0)| <= LogCapacity(|blocks|)
    requires forall i :: 0 <= i < |blocks| / 5 ==> after[i] == blocks[i]
    requires forall v :: v != Generation(blocks[0]) ==> Restores(after, |blocks| / 5, |blocks|, v, map[])
    requires WordCount(g) > CheckpointCapacity(|blocks|)
    ensures LogOnDisk(after, 0) && LastBlock(blocks, 0) < |blocks| / 5
    ensures after[0] == blocks[0] && after[LastBlock(blocks, 0)] == blocks[LastBlock(blocks, 0)]
    ensures Checkpointed(DiskView(blocks).(memory := g), NoSpace, DiskView(after).(memory := g))
  {
    var min := |blocks| / 5;
    SegmentSizeIs(blocks, 0);
    LogBufferKept(blocks, after, min);
    RegionVersions(after, DiskView(after).(memory := g), Generation(blocks[0]), Closure(g));
  }

  /** The device after a checkpoint and the step to the next generation. */
  lemma SucceededView(blocks: seq<Block>, middle: seq<Block>, after: seq<Block>, g: Graph)
    requires Geometry(|blocks|) && |middle| == |blocks| && LogOnDisk(blocks, 0)
    requires LogStarted(middle, after, Generation(blocks[0]))
    requires Written(middle, Generation(blocks[0]), Closure(g))
    requires WordCount(g) <= CheckpointCapacity(|blocks|)
    ensures Checkpointed(DiskView(blocks).(memory := g), Success, DiskView(after).(memory := g))
  {
    var u, v := DiskView(blocks).(memory := g), DiskView(after).(memory := g);
    assert v.region == middle[|blocks| / 5..] && v.log == [] && v.generation == Generation(after[0]);
    NextView(middle, u, v);
  }

  lemma NextView(blocks: seq<Block>, u: View, v: View)
    requires 10 <= u.size == v.size == |blocks| && v.memory == u.memory
    requires v.region == blocks[v.size / 5..] && |u.region| == |v.region|
    requires v.generation == (u.generation + 1) % TWO32 && v.log == []
    requires Written(blocks, u.generation, Closure(u.memory)) && WordCount(u.memory) <= CheckpointCapacity(u.size)
    ensures Checkpointed(u, Success, v)
  {
    RegionVersions(blocks, v, u.generation, Closure(u.memory));
  }

  /** What holds of the checkpoint blocks holds of the region in a view. */
  lemma RegionVersions(blocks: seq<Block>, v: View, version: Word, g: Graph)
    requires 0 < |blocks| && v.region == blocks[|blocks| / 5..]
    requires forall u :: u != version ==> Restores(blocks, |blocks| / 5, |blocks|, u, map[])
    ensures forall u :: u != version ==> Restored(v, u, map[])
    ensures Restores(blocks, |blocks| / 5, |blocks|, version, g) ==> Restored(v, version, g)
  {
    forall u | u != version
      ensures Restored(v, u, map[])
    {
      RegionRestores(blocks, |blocks| / 5, u, map[]);
    }
    RegionRestores(blocks, |blocks| / 5, version, g);
  }

  /** While the entries fit the log region, appending one changes no block of the checkpoint region. */
  lemma RegionUnchanged(blocks: seq<Block>, blocks': seq<Block>, logged: nat)
    requires Geometry(|blocks|) && |blocks'| == |blocks| && LogOnDisk(blocks', 0)
    requires |LogEntries(blocks', 0)| <= logged + 1
    requires forall i :: 0 <= i < |blocks| && i != 0 && i != LastBlock(blocks', 0) ==> blocks'[i] == blocks[i]
    ensures logged < LogCapacity(|blocks|) ==> blocks'[|blocks| / 5..] == blocks[|blocks| / 5..]
  {
    SegmentSizeIs(blocks', 0);
    if logged < LogCapacity(|blocks|) {
      assert LastBlock(blocks', 0) < |blocks| / 5;
    }
  }

  lemma OverflowedRegion(blocks: seq<Block>)
    requires Geometry(|blocks|) && LogOnDisk(blocks, 0)
    ensures var v := DiskView(blocks);
      |v.log| > LogCapacity(v.size) && Previous(v.generation) != BLOCK_MAGIC ==> Restored(v, Previous(v.generation), map[])
  {
    LogInRegionIff(blocks);
    if LastBlock(blocks, 0) >= |blocks| / 5 {
      OverflowLosesCheckpoint(blocks);
    }
  }

  /** Changes to the checkpoint region leave the log's blocks alone while the log is short. */
  lemma LogBufferKept(blocks: seq<Block>, blocks': seq<Block>, min: nat)
    requires LogOnDisk(blocks, 0) && LastBlock(blocks, 0) < min < |blocks| == |blocks'|
    requires forall i :: 0 <= i < min ==> blocks'[i] == blocks[i]
    ensures LogOnDisk(blocks', 0) && LogEntries(blocks', 0) == LogEntries(blocks, 0)
    ensures blocks'[0] == blocks[0] && blocks'[LastBlock(blocks, 0)] == blocks[LastBlock(blocks, 0)]
  {
    LogFrame(blocks, blocks', 0);
  }
}
