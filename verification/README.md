# A verified model of the durable graph store and three protocols around it

The repository is a small graph database. This project models its storage engine and its replication, together with
three pieces of code it bundles, and proves what each of them guarantees.

- **The store** (`types`, `graphs`, `paths`, `memory_store`). `MemoryStore` is a class over node objects that own their
  adjacency sets. Every operation is proved against a function on graphs (`Graphs.Apply`), and those functions are proved
  to be an ordinary undirected graph, given as a set of nodes and a set of unordered links. The breadth-first search is
  proved to answer the length of a shortest path.
- **The log** (`words`, `device`, `chunks`, `log_layout`, `log_manager`, `disk_bytes`). Blocks are sequences of 512 64-bit
  words. The
  superblock, the block headers, the entries and the XOR checksum are laid out word by word, and `disk_bytes` says at
  which byte each field stands. Appending, starting a generation, and the sequential reader are methods over the same
  buffers as in the source.
- **The checkpoint** (`checkpoint_codec`, `checkpoint_manager`). The graph as a word stream packed into blocks, written
  and read back with a moving cursor, for every order in which nodes and edges may be iterated.
- **The durable store** (`replay`, `store_view`, `logged_store`, `durability`). Log first, then apply; checkpoint, then
  next generation; recover by restoring the previous generation's checkpoint and replaying the log. Opening is specified
  for any device content at all. `Durability.Plan` is a model of the store without a device: a generation, the graph
  recovery starts from, the entries since, the graph in memory. `Durability.Drive` takes a store through any events,
  checkpoints failing, processes dying and generations wrapping included, and ends in exactly the state the model
  computes; `RunIsExact` and `ReopenAfterRunIff` say when that is the graph the operations alone build.
- **Chain replication** (`chain`, `chain_repair`). The head forwards first and applies last, every other replica applies
  and then forwards; calls and answers may be lost and stores may be full at any replica in any request. Besides safety
  the results are exactly when agreement is kept, and exactly which divisions can be repaired.
- **The parallel job loop of SCons** (`job`). The main thread and the workers as freely interleaving steps.
- **WebSocket framing in mongoose** (`streams`, `websocket`) and **URL coding** (`url_coding`).

Integers are unbounded in Dafny, so widths are written out: `Word` is `uint64_t`, `Half` is `uint32_t`, `NodeId` is
`int64_t` with its two's complement form in `ToWord`/`FromWord`, and the log generation wraps at 2^32.

## Where the code differs from what it is meant to do

The code is modelled as it is. Each difference has an exact condition.

- In `LoggedStore::recover` the case `REMOVE_EDGE` has no `break` and runs the edge-part insertion as well
  (src/db/logged_store.cc:136-140). `Replays.Switch` does the same. `Replays.SwitchExactIff` says for which logs recovery
  is nevertheless exact: those that are `Faithful`, a condition computed from the log and the initial node ids alone.
  `FallThroughWitness` is the smallest log that is not.
- Only the end of the device stops the log from growing (src/db/log_manager.cc:129-133), although it is meant to stay in
  its own fifth of the device. `StoreViews.LogInRegionIff` gives the exact number of entries that fit. After that the
  checkpoint no longer restores (`StoreViews.OverflowLosesCheckpoint`), and the device stands for the graph in memory
  exactly when the log alone gives it (`StoreViews.OverflowIsDurableIff`). On 5 to 9 blocks this is so from the start.
- The generation is 32 bits wide in the superblock and 64 bits wide in the checkpoint. After it wraps, the checkpoint of
  the last generation is not found (`StoreViews.CheckpointIsDurableIff`).
- A checkpoint that does not fit has already taken its version number and overwritten data blocks; nothing restores after
  it (`StoreViews.FailedCheckpointIsDurableIff`).
- Opening looks at two checksums and at nothing else: `LogManagers.LogManager.Init` gives the exact condition
  (`LogLayout.Accepted`) for every device. Any magic number is accepted (`LogLayout.MagicIsIgnored`). A device of zeros has
  two right checksums and is rejected all the same, because its empty segment ends at block 2^32 - 1
  (`LogLayout.ZerosAreRejected`).
- Replicas that agree are divided by some failures. `Chains.AgreementIsKeptIff` gives the exact condition on the state and
  the failures, for every operation; `ChainRepair.DivisionIsPermanentIff` and `ChainRepair.RepairableIff` say which
  divisions no later requests repair: those in which a replica has a node that the head has not.
- Without failures a chain of several replicas answers Error500 where a single server answers 204 or 400 to a request
  that has nothing to do, because the head's successor refuses it first (`Chains.FaultlessAnswerIff`).
- The WebSocket receiver drops the upper half of a 64-bit length and keeps the lower half as a signed `int`
  (`WebSockets.LongLengthParsesIff`).
- The URL encoder passes over an escape that does not fit, and leaves the byte in its place as it was
  (`UrlCoding.SqueezedIsEncodedIff`).

## Model

| member | source | states |
|---|---|---|
| `Types.Node.AddEdge` | src/db/types.cc:13-15 | the id joins the edge set, and the answer says whether it is new |
| `Types.Node.RemoveEdge` | src/db/types.cc:17-25 | the id leaves the edge set, and the answer says whether it was there |
| `Graphs.NeverAbortsIffConsistent` | src/db/memory_store.cc:20-136 | no node or edge operation can run into a failing runtime invariant if and only if the graph is closed and symmetric |
| `Graphs.StatusesAre` | src/db/memory_store.cc:12-136 | which status each operation returns, and when, from the graph alone |
| `Graphs.PartBreaksEdges` | src/db/memory_store.cc:138-157 | an edge part put between two local nodes makes the next insertion of that edge end the process, exactly when the edge was not there |
| `Graphs.AddingPart` | src/db/memory_store.cc:138-157 | when each status is returned; Success exactly if the local set changes, by this one id; all other rows stay |
| `Graphs.RemovingPart` | src/db/memory_store.cc:159-179 | the same for removal |
| `Graphs.PartsUndo` | src/db/memory_store.cc:138-179 | removing a part undoes its insertion, and inserting it undoes its removal |
| `Graphs.ApplyKeepsWellFormed` | src/db/memory_store.cc:12-136 | no runtime invariant fails on a well-formed graph; edge targets exist, edges are symmetric and irreflexive after every operation; an unsuccessful status changes nothing |
| `Graphs.ApplyRefinesSimple` | src/db/memory_store.cc:12-136 | status and result of every operation are those of an undirected graph kept as node set and link set; a removed node takes exactly its incident links along |
| `Graphs.AbstractIsInjective` | src/db/memory_store.cc:85-136 | that simple graph determines the adjacency sets |
| `Graphs.Handshake` | src/db/memory_store.cc:85-136 | the adjacency sets hold twice as many entries as there are links |
| `Graphs.RunRefinesSimple` | src/db/memory_store.cc:12-136 | the same over every run of operations: no failing invariant, well-formed, tracking the simple graph |
| `MemoryStores.MemoryStore.AddNode` | src/db/memory_store.cc:12-18 | new state and status are those of the graph function; nodes already there keep their objects |
| `MemoryStores.MemoryStore.FindNode` | src/db/memory_store.cc:42-51 | finds the node object exactly for an id in the graph |
| `MemoryStores.MemoryStore.RemoveNode` | src/db/memory_store.cc:20-40 | the loop over the neighbours, in any order, yields the graph without the node and its incident edges, or dies exactly when a neighbour is missing |
| `MemoryStores.MemoryStore.GetEdge` | src/db/memory_store.cc:53-83 | the two node objects of the edge, or the status that says why not, and the exact case in which the two ends disagree and the process ends |
| `MemoryStores.MemoryStore.AddEdge` | src/db/memory_store.cc:85-115 | both adjacency sets change, or the status says why not; dies exactly when the ends disagree |
| `MemoryStores.MemoryStore.RemoveEdge` | src/db/memory_store.cc:117-136 | both adjacency sets change, or the status says why not; dies exactly when the ends disagree |
| `MemoryStores.MemoryStore.AddEdgePart` | src/db/memory_store.cc:138-157 | only the local end changes |
| `MemoryStores.MemoryStore.RemoveEdgePart` | src/db/memory_store.cc:159-179 | only the local end changes |
| `MemoryStores.MemoryStore.ShortestPath` | src/db/memory_store.cc:216-266 | terminates; a length is the least number of edges of any path, NO_ACTION means equal or unreachable, DOES_NOT_EXIST exactly a missing end; the process ends if a dangling edge is nearer than the target, and only if one is no farther |
| `MemoryStores.MemoryStore.SearchRound` | src/db/memory_store.cc:241-258 | one round meets the target iff it is queued, and otherwise queues exactly the successors not found before |
| `MemoryStores.MemoryStore.QueueNeighbors` | src/db/memory_store.cc:248-257 | the neighbours of one node that were not found before join the queue, whatever the order |
| `Paths.LayerIsDistance` | src/db/memory_store.cc:235-262 | the nodes queued for round d are at distance d from the start |
| `Paths.ReachedIsFound` | src/db/memory_store.cc:248-257 | every node that a path of n edges reaches is found within n rounds, the start itself only over a cycle |
| `Paths.MetInRound` | src/db/memory_store.cc:243-245 | a target met in round d is at distance d, and no nearer edge dangles |
| `Paths.DangledInRound` | src/db/memory_store.cc:253-254 | a dangling edge met in round d is d steps away, and the target not nearer |
| `Paths.NotMetIsUnreachable` | src/db/memory_store.cc:240-265 | when a round is empty, no path of any length leads to the target or to a dangling edge |
| `Paths.DistanceIsSymmetric` | src/db/memory_store.cc:216-266 | on every store graph the distance is the same in both directions |
| `Paths.DistanceTriangle` | src/db/memory_store.cc:216-266 | the triangle inequality |
| `Words.CalculateChecksum` | src/db/log_manager.cc:8-17 | every bit of the checksum is the parity of the number of covered words with that bit set |
| `Words.ChecksumIsParity` | src/db/log_manager.cc:8-17 | and it is the only word of which that is true |
| `Words.XorBits` | src/db/log_manager.cc:12 | a bit of the exclusive or is set exactly if the two bits differ |
| `Words.ChecksumDetectsOneWord` | src/db/log_manager.cc:8-21 | changing one covered word changes the checksum |
| `Devices.BlockDevice.Get` | src/io/buffer_manager.cc:47-62 | a fresh buffer with the block's words or zeros, NO_SPACE exactly behind the end of the device |
| `Devices.BlockDevice.Write` | src/io/buffer_manager.cc:64-72 | exactly one block changes |
| `LogLayout.WithEntryAppends` | src/db/log_manager.cc:52-79 | writing an entry into the next slot appends it to the block's entries, and leaves a valid block of the same generation |
| `LogLayout.EntryPosition` | src/db/log_manager.cc:121-149 | in every log on a device the k-th entry is in block min + 1 + k / 169, slot k % 169 |
| `LogLayout.SegmentSizeIs` | src/db/log_manager.cc:125-173 | the superblock counts exactly the blocks the entries need |
| `LogLayout.SingleWordCorruption` | src/db/log_manager.cc:26-79 | one changed covered word in any block of a log, superblock included, makes that block invalid |
| `LogLayout.CorruptionIsNoticed` | src/db/log_manager.cc:89-230 | with one changed word among words 0 to 2 of the superblock or 0 to 510 of any log block, opening rejects the device or reading it ends the process |
| `StoreViews.CorruptedStoreStaysShut` | src/db/logged_store.cc:11-148 | so the store does not open on it |
| `LogLayout.LogIsAccepted` | src/db/log_manager.cc:89-104 | every well laid out log is accepted, with its last block as the one to fill |
| `LogLayout.MagicIsIgnored` | src/db/log_manager.cc:42-44 | so is a superblock with any other magic number and its checksum |
| `LogLayout.ZerosAreRejected` | src/db/log_manager.cc:89-104 | a zeroed superblock has a right checksum and is rejected, because start + size - 1 wraps in 32 bits |
| `LogManagers.LogManager.constructor` | src/db/log_manager.cc:81-87 | the range of blocks, nothing loaded |
| `LogManagers.LogManager.Init` | src/db/log_manager.cc:89-104 | for any device: survives exactly when the superblock and the block at start + size - 1 exist and have right checksums; on a log both buffers then equal their blocks |
| `DiskBytes.AcceptedBytes` | src/db/log_manager.cc:89-104 | that condition in bytes and bits: where the numbers stand, and that the first eight bytes are the parity of the words behind them |
| `DiskBytes.SuperblockBytes` | src/db/log_manager.cc:26-33 | the offset of every field of the superblock, lowest octet first |
| `DiskBytes.LogBlockBytes` | src/db/log_manager.cc:58-64 | the offset of every field in front of the entries |
| `DiskBytes.EntryBytes` | src/db/log_manager.h:32-41 | entry k is 24 bytes from byte 32 + 24 * k on, its ids in two's complement |
| `DiskBytes.LoggedBytes` | src/db/log_manager.h:19-41 | the bytes logging an operation writes: the number of its opcode, its ids, the count |
| `DiskBytes.CheckpointBytes` | src/db/checkpoint_manager.cc:14-18 | the offsets of flag, version and node count |
| `DiskBytes.RecordWords` | src/db/checkpoint_manager.cc:115-121 | the words of a node record |
| `LogManagers.LogManager.Format` | src/db/log_manager.cc:106-119 | an empty log one generation after a valid superblock, or generation 1; only two blocks change |
| `LogManagers.LogManager.LogOperation` | src/db/log_manager.cc:121-149 | the log on the device gains exactly this entry and stays well laid out, or NO_SPACE exactly when the device is full, and then nothing changes; at most two blocks are written |
| `LogManagers.LogManager.OpenBlock` | src/db/log_manager.cc:125-142 | the next block becomes current and is counted in the superblock, exactly when the device has one |
| `LogManagers.LogManager.IncreaseGeneration` | src/db/log_manager.cc:151-173 | the log reads empty under the next generation, whatever stale blocks follow |
| `LogManagers.LogReadingIs` | src/db/log_manager.cc:180-230 | on every well laid out log the reader hands out exactly the entries of the current generation, and none of its runtime invariants fails |
| `LogManagers.ScanIs` | src/db/log_manager.cc:195-230 | the same from every reading position |
| `LogManagers.Reader.constructor` | src/db/log_manager.cc:180-193 | for any device: what will be handed out, and whether the process ends on the way |
| `LogManagers.Reader.HasNext` | src/db/log_manager.cc:195-204 | true if and only if an entry or a failing invariant is still ahead |
| `LogManagers.Reader.GetNext` | src/db/log_manager.cc:206-230 | hands out the next entry ahead, or ends the process exactly when there is none |
| `LogManagers.CursorMovesOn` | src/db/log_manager.cc:206-223 | at the end of a block that is not the last, the next one holds an entry and the remaining entries are the same |
| `LogManagers.CursorAtEnd` | src/db/log_manager.cc:195-204 | nothing remains exactly at the last entry of the last block |
| `CheckpointCodec.UniqueDecoding` | src/db/checkpoint_manager.cc:176-208 | a word stream and a node count determine the node records |
| `CheckpointCodec.ListingSize` | src/db/checkpoint_manager.cc:111-127 | every listing of a graph, in any order, takes two words per node and one per edge end |
| `CheckpointCodec.WordCountIs` | src/db/checkpoint_manager.cc:111-127 | for a store graph that is 2 * (nodes + links) |
| `CheckpointCodec.RestoreListing` | src/db/checkpoint_manager.cc:186-205 | restoring any listing of any graph gives the graph with an isolated node added for every dangling edge target |
| `CheckpointCodec.RoundTrip` | src/db/checkpoint_manager.cc:101-208 | and so the same graph if and only if its edges lead to nodes, though targets may be created before their own record |
| `CheckpointCodec.RestoresIsUnique` | src/db/checkpoint_manager.cc:176-208 | a device and a version restore to one graph only |
| `CheckpointCodec.CutOffMeansFewer` | src/db/checkpoint_manager.cc:146-155 | where the words run out, the device holds no larger number of records |
| `CheckpointManagers.BlockWriter.WriteUint64` | src/db/checkpoint_manager.cc:62-76 | the word is appended, or refused exactly when the region is full; blocks outside it do not change |
| `CheckpointManagers.BlockWriter.Flush` | src/db/checkpoint_manager.cc:78-80 | the words written are the front of the region's words |
| `CheckpointManagers.BlockReader.ReadUint64` | src/db/checkpoint_manager.cc:146-163 | the readable words one after the other, including the one behind the region, and the exact end |
| `CheckpointManagers.ReadableAt` | src/db/checkpoint_manager.cc:146-163 | which word of which block is read k-th, and how many there are |
| `CheckpointManagers.CheckpointManager.Format` | src/db/checkpoint_manager.cc:36-41 | no version restores anything |
| `CheckpointManagers.CheckpointManager.PerformCheckpoint` | src/db/checkpoint_manager.cc:101-135 | success exactly when two words per node and one per edge end fit the data blocks; then this version, and no other, restores the graph; hasCheckpoint accordingly; nothing outside the region changes |
| `CheckpointManagers.CheckpointManager.RestoreCheckpoint` | src/db/checkpoint_manager.cc:176-208 | for any device and any store: adds the records of this version to the store, nothing for another version; the process ends exactly when there are fewer records than the superblock says |
| `CheckpointManagers.ListingRestores` | src/db/checkpoint_manager.cc:101-208 | writing, flushing and reading back the blocks of any listing restores the graph |
| `Replays.SwitchDiffersIff` | src/db/logged_store.cc:126-144 | for one entry the switch differs from the operation exactly at a removal between distinct ids whose first node exists |
| `Replays.SwitchFirst` | src/db/logged_store.cc:124-147 | the recovery loop, seen from the front of the log |
| `Replays.SwitchAllIs` | src/db/logged_store.cc:124-147 | for every log without edge parts, what recovery computes: the intended graph plus exactly the stale one-way edges, or the exact case in which it dies |
| `Replays.SwitchExactIff` | src/db/logged_store.cc:124-147 | recovery rebuilds the intended graph if and only if the log is faithful |
| `Replays.FallThroughWitness` | src/db/logged_store.cc:136-140 | one edge added and removed comes back as one half of it; adding it again ends the process |
| `Replays.NoRemovalIsFaithful` | src/db/logged_store.cc:136-140 | logs without edge removals are faithful |
| `Replays.RemovalIsUnfaithful` | src/db/logged_store.cc:136-140 | a removed edge of an existing node spoils the log unless that node is removed later |
| `StoreViews.StandsForOne` | src/db/logged_store.cc:120-148 | a device stands for at most one graph |
| `StoreViews.PerformedKeepsDurable` | src/db/logged_store.cc:27-90 | log-then-apply keeps device and memory together |
| `StoreViews.CheckpointIsDurableIff` | src/db/logged_store.cc:108-122 | after a successful checkpoint the device stands for the graph in memory exactly when its edges lead to nodes and the generation did not wrap |
| `StoreViews.FailedCheckpointIsDurableIff` | src/db/logged_store.cc:108-118 | after a failed one exactly when the log alone gives the graph |
| `StoreViews.ReopenIsExactIff` | src/db/logged_store.cc:120-148 | opening a durable device gives back the graph exactly when the log is faithful |
| `StoreViews.LogInRegionIff` | src/db/logged_store.cc:11-17 | the log is inside its fifth of the device exactly up to 169 * (blocks / 5 - 1) entries |
| `StoreViews.OverflowLosesCheckpoint` | src/db/log_manager.cc:125-146 | beyond that the device restores nothing, for every generation but the one that asks for the log magic as a version, for which what is restored is never the empty graph |
| `StoreViews.OverflowIsDurableIff` | src/db/log_manager.cc:125-146 | such a device stands for the graph in memory exactly when its log alone gives that graph |
| `StoreViews.RecoversUniquely` | src/db/logged_store.cc:120-148 | recovery of any device ends in one graph or in none |
| `StoreViews.OpenedIs` | src/db/logged_store.cc:11-25 | on a well laid out log opening is replaying the entries on the restored checkpoint |
| `LoggedStores.LoggedStore.Format` | src/db/logged_store.cc:11-25 | empty graph, next generation, no checkpoint; an empty log on 10 or more blocks, none on 5 to 9 |
| `LoggedStores.LoggedStore.Open` | src/db/logged_store.cc:11-25 | for any device: alive exactly when the log is accepted and recovery comes to an end, with that graph in memory; the device is not written |
| `LoggedStores.LoggedStore.Recover` | src/db/logged_store.cc:120-148 | for any device: the graph of the previous generation with all readable entries run through the switch, or the end of the process exactly where a runtime invariant fails |
| `LoggedStores.LoggedStore.ReplayLog` | src/db/logged_store.cc:124-147 | the loop computes the replay of everything ahead, or stops where reading or replaying dies |
| `LoggedStores.LoggedStore.RunSwitch` | src/db/logged_store.cc:126-144 | the switch with its fall-through |
| `LoggedStores.LoggedStore.AddNode` | src/db/logged_store.cc:27-34 | the entry is on the device and the operation applied, or neither and NO_SPACE |
| `LoggedStores.LoggedStore.RemoveNode` | src/db/logged_store.cc:36-43 | the same for this operation |
| `LoggedStores.LoggedStore.AddEdge` | src/db/logged_store.cc:56-63 | the same for this operation |
| `LoggedStores.LoggedStore.RemoveEdge` | src/db/logged_store.cc:65-72 | the same for this operation |
| `LoggedStores.LoggedStore.AddEdgePart` | src/db/logged_store.cc:74-81 | the same for this operation |
| `LoggedStores.LoggedStore.RemoveEdgePart` | src/db/logged_store.cc:83-90 | the same for this operation |
| `LoggedStores.LoggedStore.Checkpoint` | src/db/logged_store.cc:108-118 | success exactly when the graph fits; then the old generation restores it and the log of the next one is empty; after a failure nothing restores any more, and the log's own region is as it was; memory is unchanged |
| `Durability.OperationRefines` | src/db/logged_store.cc:27-90 | an operation, edge parts included, does to the store what the model says, and ends the process exactly when the model does |
| `Durability.CheckpointRefines` | src/db/logged_store.cc:108-118 | so does a checkpoint, whether it fits, fails or wraps the generation |
| `Durability.ReopenRefines` | src/db/logged_store.cc:120-148 | so does opening again |
| `Durability.OperationKeepsSound` | src/db/logged_store.cc:27-72 | every operation keeps memory equal to what base and log stand for |
| `Durability.CheckpointKeepsSound` | src/db/logged_store.cc:108-118 | so does a checkpoint, on the new base |
| `Durability.ReopenIsExactIff` | src/db/logged_store.cc:120-148 | closing and opening changes nothing at all if and only if the log is faithful |
| `Durability.RunIsExact` | src/db/logged_store.cc:11-148 | over every alternation of operations, checkpoints and reopenings in which each event is safe, memory is the graph the operations alone build from nothing |
| `Durability.ReopenAfterRunIff` | src/db/logged_store.cc:120-148 | after any such run, opening once more gives exactly that store if and only if the log is faithful |
| `Durability.ReopenWithoutRemovals` | src/db/logged_store.cc:120-148 | in particular when no edge was removed since the last checkpoint |
| `Durability.Advance` | src/db/logged_store.cc:11-148 | one event on the store object itself, alive or not, is one step of the model |
| `Durability.Drive` | src/db/logged_store.cc:11-148 | a store taken through any list of events ends exactly as the model says; after a safe run its memory is the graph of the operations |
| `Chains.Chain.Handle` | src/net/replication_server.cc:24-50 | the operation takes effect at a contiguous stretch of the chain, stopped by a lost call, a full store or an unsuccessful status; success exactly when it reached the tail and all answers came back |
| `Chains.Chain.Request` | src/net/http_controller.cc:90-158 | what every replica does with a write, and for each of the five responses exactly when the head gives it, from graphs and failures alone |
| `Chains.AnswersAre` | src/net/http_controller.cc:90-122 | the same for every request of a run |
| `Chains.SingleAnswers` | src/net/http_controller.cc:109-117 | a single server with space: 200 iff the graph changes, 204 iff the node or edge to be added is there, 400 otherwise |
| `Chains.ServedKeepsOrdered` | src/net/replication_server.cc:24-50 | a request with any failures keeps the order of histories |
| `Chains.ServedKeepsGrounded` | src/net/http_controller.cc:90-158 | every store stays the graph its own history builds |
| `Chains.HeadIsEverywhere` | src/db/replication_manager.cc:18-46 | the head's history is part of every replica's |
| `Chains.ChainSafety` | src/net/replication_server.cc:24-50 | over all runs and all failures: the head's history is exactly the operations answered Ok200, they are a subsequence of every replica's history, each replica's history is one of its predecessor's, and every store is what its history builds |
| `Chains.AgreementIsKeptIff` | src/net/http_controller.cc:90-158 | for every operation and all failures: agreeing replicas still agree exactly if the request could take no effect, was stopped before the head's successor, or met no failure behind the head and space at the head |
| `Chains.FaultlessConverges` | src/net/http_controller.cc:90-158 | without failures a request takes effect on all replicas or on none |
| `Chains.FaultlessRunConverges` | src/net/http_controller.cc:90-158 | over every run without failures, for any chain length, after every request all replicas hold the graph that all requests build on a single server |
| `Chains.FaultlessAnswerIff` | src/net/http_controller.cc:103-122 | the answer is that of a single server, except exactly where that had nothing to do or was invalid |
| `Chains.FaultlessRunAnswers` | src/net/http_controller.cc:103-122 | the answer to every request of such a run |
| `Chains.LostReplyMakesOrphan` | src/net/http_controller.cc:103-108 | one lost answer leaves a node at the successor that the head has not |
| `Chains.OrphanForever` | src/net/http_controller.cc:127-146 | a node that some replica has and the head has not stays so, and can never again be added or removed with success, over all runs and failures |
| `ChainRepair.Flip` | src/net/replication_server.cc:24-50 | a request can change one node or link at the first replicas of the chain and nothing else anywhere |
| `ChainRepair.Align` | src/net/replication_server.cc:24-50 | requests without failures bring one node or link at every replica to what the head has |
| `ChainRepair.RepairableIff` | src/net/http_controller.cc:90-158 | replicas that differ in whatever way can be brought to agreement, by any requests or by requests without failures, if and only if none has a node the head has not |
| `ChainRepair.DivisionIsPermanentIff` | src/net/http_controller.cc:90-158 | a request that divides agreeing replicas does so for good exactly if it was the insertion of a node |
| `ParallelJobs.StepKeepsInv` | scons/scons-local-2.5.0/SCons/Job.py:244-429 | every step of every thread keeps the counters and each task in exactly one place |
| `ParallelJobs.RunSafety` | scons/scons-local-2.5.0/SCons/Job.py:369-429 | for every interleaving: jobs counts the outstanding tasks and never exceeds maxjobs, the main thread waits only while one is outstanding, no task is postprocessed twice, and after the loop each was exactly once |
| `ParallelJobs.OutcomesAreDecided` | scons/scons-local-2.5.0/SCons/Job.py:244-265 | over every interleaving a task is recorded as executed, or as failed, exactly if a worker's execute() ended so, or the main thread found it up to date, or could not prepare it |
| `ParallelJobs.QueuesAreFifo` | scons/scons-local-2.5.0/SCons/Job.py:301-307 | workers take requests in the order they were put, and results are handled in the order they were put |
| `ParallelJobs.DrainsFirst` | scons/scons-local-2.5.0/SCons/Job.py:405-426 | after a result no task is asked for before the results queue was seen empty |
| `ParallelJobs.LeavesAfterNone` | scons/scons-local-2.5.0/SCons/Job.py:377-401 | the loop is left only after next_task returned None with nothing outstanding |
| `ParallelJobs.NoDeadlock` | scons/scons-local-2.5.0/SCons/Job.py:244-429 | some thread can move unless all have ended and both queues are empty |
| `ParallelJobs.RunIsBounded` | scons/scons-local-2.5.0/SCons/Job.py:369-429 | a run that is handed T tasks takes at most 2 * workers + 5 + 7 * T steps |
| `ParallelJobs.StuckRunIsComplete` | scons/scons-local-2.5.0/SCons/Job.py:312-429 | a run that cannot go on is over, every task was postprocessed exactly once, and executed() was called exactly for those that succeeded |
| `Streams.DecodeInTwo` | lib/mongoose/mongoose.c:2199-2202 | for any stable framing, decoding in two goes is decoding in one |
| `Streams.ChunkingIsIrrelevant` | lib/mongoose/mongoose.c:2199-2202 | and so for any cutting into reads |
| `WebSockets.FrameIsStable` | lib/mongoose/mongoose.c:1803-1849 | bytes behind a complete frame do not change how it is read |
| `WebSockets.LengthOctets` | lib/mongoose/mongoose.c:1864-1883 | the shortest of the three length forms of section 5.2 of RFC 6455, most significant octet first, octet by octet |
| `WebSockets.HelloFrame` | lib/mongoose/mongoose.c:1861-1868 | the unmasked example of section 5.7 |
| `WebSockets.LengthParses` | lib/mongoose/mongoose.c:1809-1823 | all three length forms of section 5.2 of RFC 6455 are read back |
| `WebSockets.LongLengthParsesIff` | lib/mongoose/mongoose.c:1818-1821 | the 64-bit form exactly below 2^31 |
| `WebSockets.XorByteIs` | lib/mongoose/mongoose.c:1836 | the one byte that has exactly the bits in which the two differ |
| `WebSockets.MaskedOctets` | lib/mongoose/mongoose.c:1834-1838 | octet i differs from octet i modulo 4 of the key in exactly the bits of the masked octet, section 5.3 |
| `WebSockets.ContentOctets` | lib/mongoose/mongoose.c:1828-1838 | what the handler sees of any frame, octet by octet and bit by bit |
| `WebSockets.MaskedTwice` | lib/mongoose/mongoose.c:1834-1838 | unmasking undoes the masking of section 5.3 |
| `WebSockets.FrameRoundTrip` | lib/mongoose/mongoose.c:1803-1891 | a frame at the front of the buffer, masked or not, is delivered with its first byte and payload |
| `WebSockets.StreamRoundTrip` | lib/mongoose/mongoose.c:1803-1891 | every sequence of messages is delivered in order, with nothing left over |
| `WebSockets.ReadsDoNotMatter` | lib/mongoose/mongoose.c:2199-2202 | for any bytes at all, well framed or not, the reads they come in make no difference |
| `WebSockets.MessagesSurviveChunking` | lib/mongoose/mongoose.c:1803-1891 | any messages over any reads come out exactly and in order |
| `WebSockets.PartialDelivery` | lib/mongoose/mongoose.c:2199-2202 | while bytes are missing, a prefix of the messages is delivered |
| `WebSockets.WebSocketWrite` | lib/mongoose/mongoose.c:1851-1891 | the bytes sent are one unmasked frame |
| `WebSockets.Connection.Spool` | lib/mongoose/mongoose.c:531-555 | the chunk is appended whole; only without memory is it dropped |
| `WebSockets.Connection.DeliverFrame` | lib/mongoose/mongoose.c:1803-1849 | one handler call with the unmasked payload and the frame gone from the buffer, exactly when a whole frame is buffered |
| `WebSockets.Connection.Unmask` | lib/mongoose/mongoose.c:1834-1838 | every payload octet becomes the bits in which it differed from its octet of the key, in place, and nothing else changes |
| `WebSockets.Connection.FindHeader` | lib/mongoose/mongoose.c:1809-1823 | header, mask and payload length of the first frame |
| `WebSockets.Connection.DeliverAll` | lib/mongoose/mongoose.c:2199-2202 | terminates, having delivered everything complete |
| `WebSockets.Connection.OnRead` | lib/mongoose/mongoose.c:2195-2202 | after any history of reads, the calls made and the bytes kept are those of decoding the whole stream |
| `UrlCoding.HexDigits` | lib/mongoose/mongoose.c:1370-1378 | a byte is the digit for n exactly if it is in place n of "0123456789abcdef" or "0123456789ABCDEF" |
| `UrlCoding.UnitIs` | lib/mongoose/mongoose.c:1373-1385 | what stands for what: an escape for its byte, a plus sign in form data for a space, any other byte for itself, a percent sign without two digits included |
| `UrlCoding.CodingIsDecoded` | lib/mongoose/mongoose.c:1367-1390 | every percent-coding of a string, said with the written-out digits of either case, is decoded to it |
| `UrlCoding.CodedIs` | lib/mongoose/mongoose.c:2345-2358 | which bytes are written as they are, and the lower-case digits of the others |
| `UrlCoding.RoundTrip` | lib/mongoose/mongoose.c:2344-2362 | decoding undoes encoding, for form data and otherwise |
| `UrlCoding.SqueezedIsEncodedIff` | lib/mongoose/mongoose.c:2344-2362 | a buffer receives the encoding exactly when that fits |
| `UrlCoding.SqueezedBytes` | lib/mongoose/mongoose.c:2349-2359 | whether it fits or not, every byte comes from the encoding or is as it was |
| `UrlCoding.RoomForRoundTrip` | lib/mongoose/mongoose.c:2344-2362 | three bytes per byte and a terminator are enough to get the source back |
| `UrlCoding.UrlEncode` | lib/mongoose/mongoose.c:2344-2362 | what the buffer holds afterwards, byte for byte, whether the encoding fits or not |
| `UrlCoding.UrlDecode` | lib/mongoose/mongoose.c:1367-1390 | the decoded bytes with a terminator, as many as fit, and -1 if not all do; also when decoding in place |

## Left out

- LoggedStores.LoggedStore.Format: devices of fewer than 5 blocks, on which a runtime check ends the process, and of 2^32 blocks or more, since block numbers are stored in 32 bits. The operations are modelled on 10 blocks or more, where log and checkpoint do not overlap.
- LoggedStores.LoggedStore.Open: the same bounds on the size; the content of the device is arbitrary.
- LoggedStores.LoggedStore.Checkpoint: does not say what is left of a log that had already grown into the checkpoint region when the checkpoint fails; the blocks it overwrites are then log blocks.
- Durability.Drive: excludes that case, and a log outside its region under the one generation whose predecessor is the log magic 1234567, for which log words are read as a checkpoint.
- Durability.RunIsExact: events that are not safe; for each kind of them the exact condition is given by the iff-lemmas above, and the state after them by the model.
- WebSockets.FrameRoundTrip: frames whose whole length is below 2^31, the range of the C int that holds it.
- WebSockets.Connection.Spool: lengths are unbounded, so the overflow of `(int) (new_len * 1.2)` is not modelled.
- Crash points between the write of a superblock and the write of the block it counts: the code gives no guarantee there, and block writes are atomic.
- Edge parts in the graph invariants, in the chain and in safe runs: they break symmetry and closedness on purpose. Their operations, log entries and replay are modelled, and `Durability.Drive` covers them.
- Iteration order of the hash containers: every order is allowed, by an arbitrary choice at each step.
- Replicas in `Chains` are values (graph and history) in one object, not the store objects of `MemoryStores`; requests reach the head one at a time.
- Replicated checkpoints (src/net/replication_server.cc:52-75): status translation only.
- Transport: Thrift exceptions, sockets, JSON and HTTP parsing. A call may be lost before or after it takes effect; a replica that is down loses every call.
- Partitioning (src/db/partition, src/net/partition_*): agreement between partitions is not decided by code in the repository.
- `getNeighbors` and `getEdgePart` of the stores, which only read one set; and all locks, since every operation holds one.
- The parallel job loop is a transition system, not threads: Dafny has none. What tasks do in prepare, execute and their callbacks is left to the choice of step; the time limit of `join` is not modelled.
- Opening, mapping and locking of the device (src/io apart from get and write), and I/O errors.
- Character classes of the URL coding are those of the C locale.
- The rest of mongoose and of SCons.
