/**
 * Durability over whole runs of a logged store: operations, checkpoints and reopenings in any order, successful or
 * not, against a model of the store that knows no device.
 */
module Durability {
  import opened Types
  import opened Words
  import opened Devices
  import opened Graphs
  import opened MemoryStores
  import opened LogLayout
  import opened CheckpointCodec
  import opened Replays
  import opened StoreViews
  import opened LoggedStores

  datatype Event = Operate(op: Op) | TakeCheckpoint | Reopen

  // ---------- the model ----------

  /**
   * All there is to know about a store and its device: whether the process lives, the log generation, the graph that
   * recovery starts from, the entries logged since, and the graph in memory.
   */
  datatype Plan = Plan(alive: bool, generation: Half, base: Graph, log: seq<Entry>, memory: Graph)

  function Start(generation: Half): Plan {
    Plan(true, generation, map[], [], map[])
  }

  /** A process that has died can only be started again. */
  ghost function Next(size: nat, p: Plan, event: Event): Plan {
    match event
    case Operate(op) => if p.alive then AfterOperation(size, p, op) else p
    case TakeCheckpoint => if p.alive then AfterCheckpoint(size, p) else p
    case Reopen =>
      match SwitchAll(p.base, p.log)
      case Aborted => p.(alive := false)
      case Returned(_, g) => p.(alive := true, memory := g)
  }

  /**
   * A full device refuses the operation. A log that has left its region has overwritten the checkpoint, and recovery
   * has nothing to start from.
   */
  function AfterOperation(size: nat, p: Plan, op: Op): Plan {
    if |p.log| == DeviceCapacity(size) then p
    else
      var q := p.(log := p.log + [EntryOf(op)], base := if |p.log| < LogCapacity(size) then p.base else map[]);
      match Apply(p.memory, op)
      case Aborted => q.(alive := false)
      case Returned(_, g) => q.(memory := g)
  }

  /** A checkpoint that fails, or whose generation wraps, leaves recovery nothing to start from. */
  ghost function AfterCheckpoint(size: nat, p: Plan): Plan {
    if WordCount(p.memory) > CheckpointCapacity(size) then p.(base := map[])
    else
      Plan(true, (p.generation + 1) % TWO32,
           if p.generation + 1 < TWO32 then Closure(p.memory) else map[], [], p.memory)
  }

  ghost function Planned(size: nat, generation: Half, events: seq<Event>): Plan {
    if events == [] then Start(generation)
    else Next(size, Planned(size, generation, events[..|events| - 1]), events[|events| - 1])
  }

  /**
   * What the model does not cover: a log outside its region while recovery asks for the log's magic number as a
   * version, and a checkpoint that fails after overwriting such a log.
   */
  ghost predicate Covered(size: nat, p: Plan, event: Event) {
    match event
    case Operate(_) => p.alive && |p.log| >= LogCapacity(size) ==> Previous(p.generation) != BLOCK_MAGIC
    case TakeCheckpoint => p.alive && |p.log| > LogCapacity(size) ==> WordCount(p.memory) <= CheckpointCapacity(size)
    case Reopen => true
  }

  ghost predicate AllCovered(size: nat, generation: Half, events: seq<Event>) {
    forall i :: 0 <= i < |events| ==> Covered(size, Planned(size, generation, events[..i]), events[i])
  }

  // ---------- the store follows the model ----------

  ghost predicate Represents(v: View, p: Plan) {
    && v.generation == p.generation && v.log == p.log
    && Restored(v, Previous(v.generation), p.base)
    && (p.alive ==> v.memory == p.memory)
  }

  lemma OperationRefines(before: View, p: Plan, op: Op, call: Call, after: View)
    requires Represents(before, p) && p.alive && Covered(before.size, p, Operate(op))
    requires Performed(before, op, call, after)
    ensures Represents(after, AfterOperation(before.size, p, op))
    ensures call.Done? <==> AfterOperation(before.size, p, op).alive
  {
  }

  lemma CheckpointRefines(before: View, p: Plan, status: Status, after: View)
    requires Represents(before, p) && p.alive && Checkpointed(before, status, after)
    requires Covered(before.size, p, TakeCheckpoint)
    ensures Represents(after, AfterCheckpoint(before.size, p))
  {
    assert before.log == p.log && before.memory == p.memory && before.generation == p.generation;
    if status.Success? && p.generation + 1 < TWO32 {
      assert Previous(after.generation) == before.generation;
    } else {
      assert Previous(after.generation) != before.generation;
    }
  }

  lemma ReopenRefines(before: View, p: Plan, survived: bool, after: View)
    requires Represents(before, p) && Reopened(before, p.base, survived, after)
    ensures survived <==> Next(before.size, p, Reopen).alive
    ensures Represents(if survived then after else before, Next(before.size, p, Reopen))
  {
  }

  lemma RestartRefines(blocks: seq<Block>, p: Plan, memory: Graph, survived: bool, g: Graph)
    requires LogOnDisk(blocks, 0) && 5 <= |blocks| && Represents(DiskView(blocks).(memory := memory), p)
    requires survived <==> Accepted(blocks, 0) && exists h :: RecoversTo(blocks, h)
    requires survived ==> RecoversTo(blocks, g)
    ensures var q := Next(|blocks|, p, Reopen); survived == q.alive && Represents(DiskView(blocks).(memory := g), q)
  {
    OpenedIs(blocks, p.base, survived, g);
    ReopenRefines(DiskView(blocks), p.(alive := false), survived, DiskView(blocks).(memory := g));
  }

  // ---------- runs that lose nothing ----------

  /**
   * No edge parts, and room in the log's region, or on the device while there is no checkpoint to lose; a checkpoint
   * that succeeds under a generation that does not wrap; a faithful log to recover.
   */
  ghost predicate Safe(size: nat, p: Plan, event: Event) {
    match event
    case Operate(op) =>
      && !IsPart(op) && |p.log| < DeviceCapacity(size)
      && (|p.log| < LogCapacity(size) || p.base == map[])
    case TakeCheckpoint => p.generation + 1 < TWO32 && WordCount(p.memory) <= CheckpointCapacity(size)
    case Reopen => Faithful(p.base.Keys, p.log)
  }

  ghost predicate AllSafe(size: nat, generation: Half, events: seq<Event>) {
    forall i :: 0 <= i < |events| ==> Safe(size, Planned(size, generation, events[..i]), events[i])
  }

  /** Memory is what the base and the log stand for. */
  ghost predicate Sound(p: Plan) {
    && p.alive && WellFormed(p.base)
    && Replay(p.base, p.log) == Returned(Success, p.memory)
    && forall e :: e in p.log ==> !IsPartEntry(e)
  }

  lemma SoundMemory(p: Plan)
    requires Sound(p)
    ensures WellFormed(p.memory)
  {
    ReplayKeepsWellFormed(p.base, p.log);
  }

  lemma OperationKeepsSound(size: nat, p: Plan, op: Op)
    requires Sound(p) && Safe(size, p, Operate(op))
    ensures Apply(p.memory, op).Returned? && AfterOperation(size, p, op).memory == Apply(p.memory, op).graph
    ensures Sound(AfterOperation(size, p, op))
  {
    SoundMemory(p);
    ApplyKeepsWellFormed(p.memory, op);
    ReplayAppend(p.base, p.log, op);
    LoggedMeaning(p.memory, op);
  }

  lemma CheckpointKeepsSound(size: nat, p: Plan)
    requires Sound(p) && Safe(size, p, TakeCheckpoint)
    ensures Sound(AfterCheckpoint(size, p)) && AfterCheckpoint(size, p).memory == p.memory
  {
    SoundMemory(p);
    ClosureIsIdentityIffClosed(p.memory);
  }

  /** Closing and opening again gives back exactly the same store if and only if the log is faithful. */
  lemma ReopenIsExactIff(size: nat, p: Plan)
    requires Sound(p)
    ensures Next(size, p, Reopen) == p <==> Faithful(p.base.Keys, p.log)
  {
    SwitchExactIff(p.base, p.log);
    SwitchAllSucceeds(p.base, p.log);
  }

  /** The operations of a run, in order. */
  function OpsOf(events: seq<Event>): seq<Op> {
    if events == [] then []
    else
      var ops := OpsOf(events[..|events| - 1]);
      if events[|events| - 1].Operate? then ops + [events[|events| - 1].op] else ops
  }

  lemma ApplyOneMore(g: Graph, ops: seq<Op>, op: Op)
    requires ApplyAll(g, ops).Returned? && Apply(ApplyAll(g, ops).graph, op).Returned?
    ensures ApplyAll(g, ops + [op]) == Returned(Success, Apply(ApplyAll(g, ops).graph, op).graph)
  {
    assert (ops + [op])[..|ops|] == ops;
  }

  lemma NextKeepsSound(size: nat, p: Plan, event: Event)
    requires Sound(p) && Safe(size, p, event)
    ensures Sound(Next(size, p, event))
    ensures if event.Operate? then
              Apply(p.memory, event.op).Returned? && Next(size, p, event).memory == Apply(p.memory, event.op).graph
            else Next(size, p, event).memory == p.memory
  {
    match event
    case Operate(op) => OperationKeepsSound(size, p, op);
    case TakeCheckpoint => CheckpointKeepsSound(size, p);
    case Reopen => ReopenIsExactIff(size, p);
  }

  lemma SafePrefix(size: nat, generation: Half, events: seq<Event>)
    requires AllSafe(size, generation, events) && events != []
    ensures AllSafe(size, generation, events[..|events| - 1])
    ensures Safe(size, Planned(size, generation, events[..|events| - 1]), events[|events| - 1])
  {
    var init := events[..|events| - 1];
    forall i | 0 <= i < |init|
      ensures Safe(size, Planned(size, generation, init[..i]), init[i])
    {
      assert init[..i] == events[..i];
    }
  }

  /**
   * Over every alternation of operations, checkpoints and reopenings that is safe at each event, memory is the graph
   * the operations alone build from nothing.
   */
  lemma {:induction false} RunIsExact(size: nat, generation: Half, events: seq<Event>)
    requires AllSafe(size, generation, events)
    ensures Sound(Planned(size, generation, events))
    ensures ApplyAll(map[], OpsOf(events)) == Returned(Success, Planned(size, generation, events).memory)
  {
    if events != [] {
      var init, event := events[..|events| - 1], events[|events| - 1];
      SafePrefix(size, generation, events);
      RunIsExact(size, generation, init);
      NextKeepsSound(size, Planned(size, generation, init), event);
      if event.Operate? {
        ApplyOneMore(map[], OpsOf(init), event.op);
      }
    }
  }

  /** After a safe run, opening once more gives exactly the graph of the operations if and only if the log is faithful. */
  lemma ReopenAfterRunIff(size: nat, generation: Half, events: seq<Event>)
    requires AllSafe(size, generation, events)
    ensures var p := Planned(size, generation, events);
      Next(size, p, Reopen) == p <==> Faithful(p.base.Keys, p.log)
  {
    RunIsExact(size, generation, events);
    ReopenIsExactIff(size, Planned(size, generation, events));
  }

  /** In particular whenever no edge was removed since the last checkpoint. */
  lemma ReopenWithoutRemovals(size: nat, generation: Half, events: seq<Event>)
    requires AllSafe(size, generation, events)
    requires forall e :: e in Planned(size, generation, events).log ==> e.opcode != REMOVE_EDGE
    ensures Next(size, Planned(size, generation, events), Reopen) == Planned(size, generation, events)
  {
    var p := Planned(size, generation, events);
    NoRemovalIsFaithful(p.base.Keys, p.log);
    ReopenAfterRunIff(size, generation, events);
  }

  // ---------- driving a store through a run ----------

  /** The generation that formatting this device starts with. */
  ghost function FirstGeneration(blocks: seq<Block>): Half
    requires blocks != []
  {
    if SuperValid(blocks[0]) then (Generation(blocks[0]) + 1) % TWO32 else 1
  }

  /** Everything that belongs to the store alone. */
  ghost function Owned(store: LoggedStore): set<object>
    requires store.Valid()
    reads store, store.dev, store.log, store.log.superblock, store.log.current, store.checkpoint,
          store.checkpoint.superblock, store.memory
  {
    {store, store.log, store.log.superblock, store.log.current, store.checkpoint, store.checkpoint.superblock, store.memory}
    + store.memory.repr
  }

  ghost predicate Follows(store: LoggedStore, alive: bool, dev: BlockDevice, p: Plan, owned: set<object>)
    reads store, dev, store.log, store.log.superblock, store.log.current, store.checkpoint, store.checkpoint.superblock,
          store.memory, store.memory.repr
  {
    && store.dev == dev && Geometry(|dev.blocks|) && LogOnDisk(dev.blocks, 0)
    && alive == p.alive && (alive ==> store.Valid() && Owned(store) <= owned)
    && Represents(DiskView(dev.blocks).(memory := store.memory.Contents()), p)
  }

  method Perform(store: LoggedStore, op: Op) returns (call: Call)
    requires store.Valid()
    modifies store.dev, store.log, store.log.superblock, store.log.current, store.memory, store.memory.repr
    ensures store.Valid() && store.log.superblock == old(store.log.superblock)
    ensures store.log.current == old(store.log.current) || fresh(store.log.current)
    ensures fresh(store.memory.repr - old(store.memory.repr))
    ensures Performed(old(store.View()), op, call, store.View())
  {
    match op
    case AddNode(id) => call := store.AddNode(id);
    case RemoveNode(id) => call := store.RemoveNode(id);
    case AddEdge(a, b) => call := store.AddEdge(a, b);
    case RemoveEdge(a, b) => call := store.RemoveEdge(a, b);
    case AddEdgePart(l, r) => call := store.AddEdgePart(l, r);
    case RemoveEdgePart(l, r) => call := store.RemoveEdgePart(l, r);
  }

  /**
   * Format a device and take the store through any events: whatever happens, checkpoints failing and processes dying
   * included, it is exactly what the model says; and a safe run leaves exactly the graph of its operations.
   */
  method Drive(dev: BlockDevice, events: seq<Event>) returns (store: LoggedStore, alive: bool, ghost owned: set<object>)
    requires Geometry(|dev.blocks|) && AllCovered(|dev.blocks|, FirstGeneration(dev.blocks), events)
    modifies dev
    ensures |dev.blocks| == |old(dev.blocks)| && fresh(owned)
    ensures Follows(store, alive, dev, Planned(|dev.blocks|, FirstGeneration(old(dev.blocks)), events), owned)
    ensures AllSafe(|dev.blocks|, FirstGeneration(old(dev.blocks)), events) ==>
              alive && ApplyAll(map[], OpsOf(events)) == Returned(Success, store.memory.Contents())
  {
    ghost var size, generation := |dev.blocks|, FirstGeneration(dev.blocks);
    store, owned := StartEmpty(dev);
    alive := true;
    ghost var p := Start(generation);
    for i := 0 to |events|
      invariant |dev.blocks| == size && p == Planned(size, generation, events[..i])
      invariant fresh(owned) && Follows(store, alive, dev, p, owned)
    {
      assert events[..i + 1][..i] == events[..i];
      store, alive, owned := Advance(store, alive, dev, events[i], p, owned);
      p := Next(size, p, events[i]);
    }
    assert events[..|events|] == events;
    SafeRunIsExact(size, generation, events);
  }

  lemma SafeRunIsExact(size: nat, generation: Half, events: seq<Event>)
    ensures AllSafe(size, generation, events) ==>
              var p := Planned(size, generation, events);
              p.alive && ApplyAll(map[], OpsOf(events)) == Returned(Success, p.memory)
  {
    if AllSafe(size, generation, events) {
      RunIsExact(size, generation, events);
    }
  }

  method StartEmpty(dev: BlockDevice) returns (store: LoggedStore, ghost owned: set<object>)
    requires Geometry(|dev.blocks|)
    modifies dev
    ensures |dev.blocks| == |old(dev.blocks)| && fresh(owned)
    ensures Follows(store, true, dev, Start(FirstGeneration(old(dev.blocks))), owned)
  {
    store := new LoggedStore.Format(dev);
    owned := Owned(store);
    RegionRestores(dev.blocks, |dev.blocks| / 5, Previous(Generation(dev.blocks[0])), map[]);
  }

  /** One event, on a living process or a dead one. */
  method Advance(store: LoggedStore, alive: bool, dev: BlockDevice, event: Event, ghost p: Plan, ghost owned: set<object>)
    returns (store': LoggedStore, alive': bool, ghost owned': set<object>)
    requires Follows(store, alive, dev, p, owned)
    requires Covered(|dev.blocks|, p, event)
    modifies dev, owned
    ensures |dev.blocks| == |old(dev.blocks)| && fresh(owned' - owned)
    ensures Follows(store', alive', dev, Next(|dev.blocks|, p, event), owned')
  {
    store', alive', owned' := store, alive, owned;
    if event.Reopen? {
      store', alive', owned' := Restart(store, alive, dev, p, owned);
    } else if alive {
      if event.Operate? {
        alive', owned' := Operation(store, dev, event.op, p, owned);
      } else {
        owned' := Save(store, dev, p, owned);
      }
    }
  }

  method Operation(store: LoggedStore, dev: BlockDevice, op: Op, ghost p: Plan, ghost owned: set<object>)
    returns (alive: bool, ghost owned': set<object>)
    requires Follows(store, true, dev, p, owned) && Covered(|dev.blocks|, p, Operate(op))
    modifies dev, owned
    ensures |dev.blocks| == |old(dev.blocks)| && fresh(owned' - owned)
    ensures Follows(store, alive, dev, AfterOperation(|dev.blocks|, p, op), owned')
  {
    ghost var before := store.View();
    var call := Perform(store, op);
    OperationRefines(before, p, op, call, store.View());
    alive, owned' := call.Done?, owned + Owned(store);
  }

  method Save(store: LoggedStore, dev: BlockDevice, ghost p: Plan, ghost owned: set<object>) returns (ghost owned': set<object>)
    requires Follows(store, true, dev, p, owned) && Covered(|dev.blocks|, p, TakeCheckpoint)
    modifies dev, owned
    ensures |dev.blocks| == |old(dev.blocks)| && fresh(owned' - owned)
    ensures Follows(store, true, dev, AfterCheckpoint(|dev.blocks|, p), owned')
  {
    ghost var before := store.View();
    var status := store.Checkpoint();
    CheckpointRefines(before, p, status, store.View());
    owned' := owned + Owned(store);
  }

  method Restart(store: LoggedStore, alive: bool, dev: BlockDevice, ghost p: Plan, ghost owned: set<object>)
    returns (store': LoggedStore, alive': bool, ghost owned': set<object>)
    requires Follows(store, alive, dev, p, owned)
    ensures fresh(owned')
    ensures Follows(store', alive', dev, Next(|dev.blocks|, p, Reopen), owned')
  {
    store', owned' := OpenAgain(dev);
    alive' := store'.alive;
    RestartRefines(dev.blocks, p, store.memory.Contents(), alive', store'.memory.Contents());
  }

  method OpenAgain(dev: BlockDevice) returns (store: LoggedStore, ghost owned: set<object>)
    requires Geometry(|dev.blocks|) && LogOnDisk(dev.blocks, 0)
    ensures store.dev == dev && fresh(owned) && (store.alive ==> store.Valid() && Owned(store) <= owned)
    ensures store.alive <==> Accepted(dev.blocks, 0) && exists g :: RecoversTo(dev.blocks, g)
    ensures store.alive ==> RecoversTo(dev.blocks, store.memory.Contents())
  {
    store := new LoggedStore.Open(dev);
    owned := if store.alive then Owned(store) else {};
  }
}
