/** Checkpoints: the block stream, writing a graph and restoring it (src/db/checkpoint_manager.cc). */
module CheckpointManagers {
  import opened Types
  import opened Words
  import opened Devices
  import opened Chunks
  import opened Graphs
  import opened MemoryStores
  import opened CheckpointCodec

  /** Packs words into the blocks from `start` up to `end`. */
  class BlockWriter {
    const dev: BlockDevice
    const start: nat
    const end: nat
    var currentBlock: nat
    var current: array<Word>
    var currentNum: nat
    var currWrite: nat
    /** The words written so far, and the device before the first of them. */
    ghost var written: seq<Word>
    ghost const before: seq<Block>

    ghost predicate Valid()
      reads this, dev, current
    {
      && OnlyRegionChanged()
      && start < end <= |dev.blocks| && current.Length == BLOCK_WORDS
      && start <= currentBlock <= end && currWrite <= BLOCK_WORDS
      && (currentBlock < end ==>
            && currentNum == currentBlock
            && written == Concat(dev.blocks[start..currentBlock]) + current[..currWrite])
      && (currentBlock == end ==> |written| == Capacity())
    }

    ghost function Capacity(): int {
      BLOCK_WORDS * (end - start)
    }

    ghost predicate OnlyRegionChanged()
      reads this, dev
    {
      && |dev.blocks| == |before|
      && forall i :: 0 <= i < |before| && !(start <= i < end) ==> dev.blocks[i] == before[i]
    }

    lemma WrittenLength()
      requires Valid() && currentBlock < end
      ensures |written| == BLOCK_WORDS * (currentBlock - start) + currWrite
    {
      FlatLength(dev.blocks[start..currentBlock]);
    }

    constructor (dev: BlockDevice, start: nat, end: nat)
      requires start < end <= |dev.blocks|
      modifies dev
      ensures Valid() && fresh(current) && written == []
      ensures this.dev == dev && this.start == start && this.end == end
      ensures dev.blocks == before == old(dev.blocks)
    {
      this.dev, this.start, this.end := dev, start, end;
      currentBlock, currentNum, currWrite := start, start, 0;
      written, before := [], dev.blocks;
      var buffer := dev.Get(start, false);
      current := buffer;
      new;
      assert dev.blocks[start := current[..]] == dev.blocks;
      ReadBlock(start);
    }

    /** Write the current buffer back and continue with a zeroed buffer for block `blockNo`. */
    method ReadBlock(blockNo: nat)
      requires currentNum < |dev.blocks| && blockNo < |dev.blocks| && current.Length == BLOCK_WORDS
      modifies this, dev
      ensures dev.blocks == old(dev.blocks)[old(currentNum) := old(current[..])]
      ensures fresh(current) && current.Length == BLOCK_WORDS && currentNum == blockNo && currWrite == 0
      ensures currentBlock == old(currentBlock) && written == old(written)
    {
      dev.Write(currentNum, current);
      current := dev.Get(blockNo, true);
      currentNum, currWrite := blockNo, 0;
    }

    /** `ok` is false where the source throws OutOfSpaceException. */
    method WriteUint64(data: Word) returns (ok: bool)
      requires Valid()
      modifies this, dev, current
      ensures Valid() && (current == old(current) || fresh(current))
      ensures ok <==> |old(written)| < Capacity()
      ensures written == if ok then old(written) + [data] else old(written)
      ensures ok ==> currentBlock < end
    {
      if currentBlock >= end {
        return false;
      }
      WrittenLength();
      if currWrite >= BLOCK_WORDS {
        var more := NextBlock();
        if !more {
          return false;
        }
      }
      current[currWrite] := data;
      currWrite := currWrite + 1;
      assert current[..currWrite] == current[..currWrite - 1] + [data];
      written := written + [data];
      return true;
    }

    method NextBlock() returns (more: bool)
      requires Valid() && currentBlock < end && currWrite == BLOCK_WORDS
      modifies this, dev
      ensures Valid() && written == old(written)
      ensures more <==> |written| < Capacity()
      ensures more ==> currentBlock < end && fresh(current) && currWrite == 0
      ensures !more ==> current == old(current)
    {
      WrittenLength();
      ghost var blocks := dev.blocks;
      ghost var filled := current[..];
      assert current[..currWrite] == filled;
      currentBlock := currentBlock + 1;
      if currentBlock == end {
        return false;
      }
      ReadBlock(currentBlock);
      BlockFilled(blocks, start, currentBlock - 1, filled);
      return true;
    }

    method Flush()
      requires Valid() && currentBlock < end
      modifies dev
      ensures OnlyRegionChanged()
      ensures written <= Concat(dev.blocks[start..end])
    {
      BlockFlushed(dev.blocks, start, end, currentBlock, current[..], currWrite);
      dev.Write(currentNum, current);
    }
  }

  lemma BlockFlushed(blocks: seq<Block>, start: nat, end: nat, n: nat, buffer: Block, used: nat)
    requires start <= n < end <= |blocks| && used <= |buffer|
    ensures Concat(blocks[start..n]) + buffer[..used] <= Concat(blocks[n := buffer][start..end])
  {
    var before, behind := blocks[start..n], blocks[n + 1..end];
    assert blocks[n := buffer][start..end] == (before + [buffer]) + behind;
    ConcatSplit(before + [buffer], behind);
    ConcatAppend(before, buffer);
    assert buffer == buffer[..used] + buffer[used..];
    assert Concat(blocks[n := buffer][start..end])
        == (Concat(before) + buffer[..used]) + (buffer[used..] + Concat(behind));
  }

  lemma BlockFilled(blocks: seq<Block>, start: nat, n: nat, filled: Block)
    requires start <= n < |blocks|
    ensures Concat(blocks[n := filled][start..n + 1]) == Concat(blocks[start..n]) + filled
  {
    assert blocks[n := filled][start..n + 1] == blocks[start..n] + [filled];
    ConcatAppend(blocks[start..n], filled);
  }

  lemma FlatLength(blocks: seq<Block>)
    ensures |Concat(blocks)| == BLOCK_WORDS * |blocks|
  {
    if blocks != [] {
      EvenLength(blocks, BLOCK_WORDS);
    }
  }

  /** Reads the words of the blocks from `start` up to `end` in order. */
  class BlockReader {
    const dev: BlockDevice
    const start: nat
    const end: nat
    var currentBlock: nat
    var current: array<Word>
    var currRead: nat
    /** All words that can be read; the device does not change meanwhile. */
    ghost const data: seq<Word>

    ghost predicate Valid()
      reads this, dev, current
    {
      && start <= currentBlock <= end <= |dev.blocks| && currRead <= BLOCK_WORDS
      && currentBlock < |dev.blocks| && (currentBlock == end ==> currRead == 1)
      && current.Length == BLOCK_WORDS && current[..] == dev.blocks[currentBlock]
      && data == Readable(dev.blocks, start, end)
      && |data| == BLOCK_WORDS * (end - start) + if end < |dev.blocks| then 1 else 0
    }

    /** The words read so far. */
    ghost function Consumed(): (ws: seq<Word>)
      requires Valid()
      reads this, dev, current
    {
      data[..BLOCK_WORDS * (currentBlock - start) + currRead]
    }

    constructor (dev: BlockDevice, start: nat, end: nat)
      requires start < end <= |dev.blocks|
      ensures Valid() && fresh(current) && Consumed() == []
      ensures this.dev == dev && this.start == start && this.end == end && data == Readable(dev.blocks, start, end)
    {
      this.dev, this.start, this.end := dev, start, end;
      currentBlock, currRead := start, 0;
      var buffer := dev.Get(start, false);
      current := buffer;
      data := Readable(dev.blocks, start, end);
      FlatLength(dev.blocks[start..end]);
    }

    /** The next word; `ok` is false where a failing runtime invariant ends the process. */
    method ReadUint64() returns (ok: bool, word: Word)
      requires Valid()
      modifies this
      ensures Valid() && (ok <==> |old(Consumed())| < |data|)
      ensures Consumed() == if ok then old(Consumed()) + [word] else old(Consumed())
    {
      if currentBlock >= end {
        return false, 0;
      }
      ok, word := true, 0;
      if currRead >= BLOCK_WORDS {
        ok := NextBlock();
      }
      if ok {
        WordRead(dev.blocks, start, end, currentBlock, currRead);
        word := current[currRead];
        currRead := currRead + 1;
      }
    }

    /** Go to the front of the next block; nothing is left to read if there is none. */
    method NextBlock() returns (ok: bool)
      requires Valid() && currentBlock < end && currRead == BLOCK_WORDS
      modifies this
      ensures ok <==> |old(Consumed())| < |data|
      ensures if ok then
                && currentBlock == old(currentBlock) + 1 < |dev.blocks| && currRead == 0
                && current.Length == BLOCK_WORDS && current[..] == dev.blocks[currentBlock]
              else currentBlock == old(currentBlock) && current == old(current) && currRead == old(currRead)
    {
      var buffer := dev.Get(currentBlock + 1, false);
      ok := buffer != null;
      if ok {
        currentBlock, current, currRead := currentBlock + 1, buffer, 0;
      }
    }
  }

  /** What can be read, word by word: the blocks from `start` on, and one word of the block at `end` if it exists. */
  lemma ReadableAt(blocks: seq<Block>, start: nat, end: nat)
    requires start <= end <= |blocks|
    ensures |Readable(blocks, start, end)| == 512 * (end - start) + if end < |blocks| then 1 else 0
    ensures forall k :: 0 <= k < |Readable(blocks, start, end)| ==>
              start + k / 512 < |blocks| && Readable(blocks, start, end)[k] == blocks[start + k / 512][k % 512]
  {
    FlatLength(blocks[start..end]);
    forall k | 0 <= k < |Readable(blocks, start, end)|
      ensures start + k / 512 < |blocks| && Readable(blocks, start, end)[k] == blocks[start + k / 512][k % 512]
    {
      WordRead(blocks, start, end, start + k / 512, k % 512);
    }
  }

  lemma WordRead(blocks: seq<Block>, start: nat, end: nat, num: nat, k: nat)
    requires start <= num <= end <= |blocks| && k < BLOCK_WORDS
    requires num < |blocks| && (num == end ==> k == 0)
    ensures BLOCK_WORDS * (num - start) + k < |Readable(blocks, start, end)|
    ensures Readable(blocks, start, end)[BLOCK_WORDS * (num - start) + k] == blocks[num][k]
    ensures var at := BLOCK_WORDS * (num - start) + k;
      Readable(blocks, start, end)[..at + 1] == Readable(blocks, start, end)[..at] + [blocks[num][k]]
  {
    FlatLength(blocks[start..end]);
    if num < end {
      EvenPosition(blocks[start..end], BLOCK_WORDS, num - start, k);
    }
  }

  /** Superblock words: checkpointed flag (low byte), version, node count. */
  class CheckpointManager {
    const dev: BlockDevice
    const minBlock: nat
    const maxBlock: nat
    var superblock: array?<Word>

    /** There is at least one data block, and the superblock buffer is loaded. */
    ghost predicate Valid()
      reads this, dev, superblock
    {
      && minBlock + 1 < maxBlock <= |dev.blocks| < TWO32
      && superblock != null && superblock.Length == BLOCK_WORDS
    }

    constructor (dev: BlockDevice, minBlock: nat, maxBlock: nat)
      requires minBlock < maxBlock
      ensures this.dev == dev && this.minBlock == minBlock && this.maxBlock == maxBlock && superblock == null
    {
      this.dev, this.minBlock, this.maxBlock := dev, minBlock, maxBlock;
      superblock := null;
    }

    method Init()
      requires minBlock + 1 < maxBlock <= |dev.blocks| < TWO32
      modifies this
      ensures Valid() && fresh(superblock) && superblock[..] == dev.blocks[minBlock]
    {
      superblock := dev.Get(minBlock, false);
    }

    /** Erase the checkpoint: version 0 with no nodes. */
    method Format()
      requires minBlock + 1 < maxBlock <= |dev.blocks| < TWO32
      modifies this, dev
      ensures Valid() && fresh(superblock) && superblock[..] == dev.blocks[minBlock]
      ensures dev.blocks == old(dev.blocks)[minBlock := ZeroBlock()]
      ensures forall version :: Restores(dev.blocks, minBlock, maxBlock, version, map[])
      ensures !HasCheckpoint(0)
    {
      superblock := dev.Get(minBlock, true);
      dev.Write(minBlock, superblock);
      assert Records(dev.blocks, minBlock, maxBlock, []) && RestoreOnto(map[], []) == map[];
    }

    predicate HasCheckpoint(version: Word)
      requires Valid()
      reads this, dev, superblock
    {
      Flag(superblock[0]) && superblock[1] == version
    }

    /**
     * Write the graph as checkpoint `generation`. There is room exactly when two words per node and one per
     * edge end fit the data blocks; without room the version is taken all the same, and no other version
     * restores anything any more.
     */
    method PerformCheckpoint(generation: Word, memory: MemoryStore) returns (status: Status)
      requires Valid() && memory.Valid()
      modifies dev, superblock
      ensures Valid() && superblock[..] == dev.blocks[minBlock]
      ensures status == if WordCount(memory.Contents()) <= BLOCK_WORDS * (maxBlock - minBlock - 1) then Success else NoSpace
      ensures status.Success? ==> Restores(dev.blocks, minBlock, maxBlock, generation, Closure(memory.Contents()))
      ensures forall version :: version != generation ==> Restores(dev.blocks, minBlock, maxBlock, version, map[])
      ensures forall version :: HasCheckpoint(version) <==> status.Success? && version == generation
      ensures |dev.blocks| == |old(dev.blocks)|
      ensures forall i :: 0 <= i < |dev.blocks| && !(minBlock <= i < maxBlock) ==> dev.blocks[i] == old(dev.blocks)[i]
    {
      Begin(generation, memory);
      ghost var rs;
      var ok;
      ok, rs := WriteNodes(memory);
      if !ok {
        return NoSpace;
      }
      Finish(generation, memory, rs);
      return Success;
    }

    /** Mark the checkpoint as complete. */
    method Finish(ghost generation: Word, memory: MemoryStore, ghost rs: seq<Record>)
      requires Valid() && superblock[1] == generation && superblock[2] == |memory.Contents()| % TWO64
      requires Lists(rs, memory.Contents()) && EncodeAll(rs) <= DataWords(dev.blocks, minBlock, maxBlock)
      modifies dev, superblock
      ensures Valid() && Flag(superblock[0]) && superblock[1] == generation
      ensures dev.blocks == old(dev.blocks)[minBlock := superblock[..]]
      ensures memory.Contents() == old(memory.Contents()) && dev.blocks[minBlock][1] == generation
      ensures Restores(dev.blocks, minBlock, maxBlock, generation, Closure(memory.Contents()))
    {
      ghost var blocks, g := dev.blocks, memory.Contents();
      WriteSuperblock(true);
      ListingRestores(blocks, dev.blocks[minBlock], minBlock, maxBlock, g, rs);
    }

    /** Take the version and the node count, not checkpointed yet. */
    method Begin(generation: Word, memory: MemoryStore)
      requires Valid() && memory.Valid()
      modifies dev, superblock
      ensures Valid() && !Flag(superblock[0]) && superblock[1] == generation
      ensures memory.Contents() == old(memory.Contents()) && superblock[2] == |memory.Contents()| % TWO64
      ensures dev.blocks == old(dev.blocks)[minBlock := superblock[..]]
    {
      ghost var g := memory.Contents();
      assert g.Keys == memory.nodes.Keys && |g| == |g.Keys| && |memory.nodes| == |memory.nodes.Keys|;
      superblock[1] := generation;
      superblock[2] := |memory.nodes| % TWO64;
      WriteSuperblock(false);
    }

    method WriteSuperblock(checkpointed: bool)
      requires Valid()
      modifies dev, superblock
      ensures Valid() && Flag(superblock[0]) == checkpointed
      ensures superblock[1] == old(superblock[1]) && superblock[2] == old(superblock[2])
      ensures dev.blocks == old(dev.blocks)[minBlock := superblock[..]]
    {
      superblock[0] := WithFlag(superblock[0], checkpointed);
      dev.Write(minBlock, superblock);
    }

    /** The data blocks: every node in the order the map is iterated. */
    method WriteNodes(memory: MemoryStore) returns (ok: bool, ghost rs: seq<Record>)
      requires Valid() && memory.Valid()
      modifies dev
      ensures |dev.blocks| == |old(dev.blocks)| && memory.Contents() == old(memory.Contents())
      ensures forall i :: 0 <= i < |dev.blocks| && !(minBlock < i < maxBlock) ==> dev.blocks[i] == old(dev.blocks)[i]
      ensures ok <==> WordCount(memory.Contents()) <= BLOCK_WORDS * (maxBlock - minBlock - 1)
      ensures ok ==> Lists(rs, memory.Contents()) && EncodeAll(rs) <= DataWords(dev.blocks, minBlock, maxBlock)
    {
      var writer := new BlockWriter(dev, minBlock + 1, maxBlock);
      ghost var g := memory.Contents();
      ok, rs := WriteRecords(writer, memory);
      if ok {
        writer.Flush();
        assert memory.Contents() == g;
        ListingFillsBlocks(dev.blocks, minBlock, maxBlock, g, rs);
      }
    }

    method WriteRecords(writer: BlockWriter, memory: MemoryStore) returns (ok: bool, ghost rs: seq<Record>)
      requires writer.Valid() && writer.currentBlock < writer.end && writer.written == [] && memory.Valid()
      modifies writer, writer.dev, writer.current
      ensures writer.Valid() && (writer.current == old(writer.current) || fresh(writer.current))
      ensures ok ==> Lists(rs, memory.Contents()) && writer.written == EncodeAll(rs) && writer.currentBlock < writer.end
      ensures !ok ==> WordCount(memory.Contents()) > writer.Capacity()
      ensures memory.Contents() == old(memory.Contents())
    {
      ghost var g := memory.Contents();
      rs := [];
      var rest := memory.nodes.Keys;
      assert g - rest == map[];
      while rest != {}
        invariant writer.Valid() && (writer.current == old(writer.current) || fresh(writer.current))
        invariant writer.currentBlock < writer.end
        invariant memory.Contents() == g && rest <= g.Keys
        invariant Lists(rs, g - rest) && writer.written == EncodeAll(rs)
      {
        var id :| id in rest;
        ghost var r;
        ok, r := WriteNext(writer, memory, id);
        ListingSizeStep(g, rest, id, rs);
        if !ok {
          return;
        }
        ListingStep(g, rest, id, rs, r);
        rs := rs + [r];
        rest := rest - {id};
      }
      assert g - rest == g;
      ok := true;
    }

    method WriteNext(writer: BlockWriter, memory: MemoryStore, id: NodeId) returns (ok: bool, ghost r: Record)
      requires writer.Valid() && writer.currentBlock < writer.end && memory.Valid() && id in memory.nodes
      modifies writer, writer.dev, writer.current
      ensures writer.Valid() && (writer.current == old(writer.current) || fresh(writer.current))
      ensures memory.Contents() == old(memory.Contents())
      ensures ok ==> r.id == id && ListsSet(r.edges, memory.Contents()[id])
      ensures ok ==> writer.written == old(writer.written) + Encode(r) && writer.currentBlock < writer.end
      ensures !ok ==> |old(writer.written)| + 2 + |memory.Contents()[id]| > writer.Capacity()
    {
      ok, r := WriteNode(writer, id, memory.nodes[id]);
    }

    /** One record: id, edge count, edges in the order the set is iterated. */
    method WriteNode(writer: BlockWriter, id: NodeId, node: Node) returns (ok: bool, ghost r: Record)
      requires writer.Valid() && writer.currentBlock < writer.end
      modifies writer, writer.dev, writer.current
      ensures writer.Valid() && (writer.current == old(writer.current) || fresh(writer.current))
      ensures ok ==> r.id == id && ListsSet(r.edges, node.edges)
      ensures ok ==> writer.written == old(writer.written) + Encode(r) && writer.currentBlock < writer.end
      ensures !ok ==> |old(writer.written)| + 2 + |node.edges| > writer.Capacity()
    {
      r := Record(id, []);
      ok := WriteHeader(writer, ToWord(id), |node.edges| % TWO64);
      if !ok {
        return;
      }
      ghost var es;
      ok, es := WriteIds(writer, node.edges);
      r := Record(id, es);
    }

    method WriteHeader(writer: BlockWriter, id: Word, count: Word) returns (ok: bool)
      requires writer.Valid() && writer.currentBlock < writer.end
      modifies writer, writer.dev, writer.current
      ensures writer.Valid() && (writer.current == old(writer.current) || fresh(writer.current))
      ensures ok ==> writer.written == old(writer.written) + [id, count] && writer.currentBlock < writer.end
      ensures !ok ==> |old(writer.written)| + 2 > writer.Capacity()
    {
      ok := writer.WriteUint64(id);
      if ok {
        ok := writer.WriteUint64(count);
      }
    }

    method WriteIds(writer: BlockWriter, ids: set<NodeId>) returns (ok: bool, ghost es: seq<NodeId>)
      requires writer.Valid() && writer.currentBlock < writer.end
      modifies writer, writer.dev, writer.current
      ensures writer.Valid() && (writer.current == old(writer.current) || fresh(writer.current))
      ensures ok ==> ListsSet(es, ids) && writer.written == old(writer.written) + WordsOf(es) && writer.currentBlock < writer.end
      ensures !ok ==> |old(writer.written)| + |ids| > writer.Capacity()
    {
      ghost var before := writer.written;
      es := [];
      var rest := ids;
      assert ids - rest == {} == SetOf(es);
      while rest != {}
        invariant writer.Valid() && (writer.current == old(writer.current) || fresh(writer.current))
        invariant writer.currentBlock < writer.end
        invariant rest <= ids && SetOf(es) == ids - rest && |es| + |rest| == |ids|
        invariant writer.written == before + WordsOf(es)
      {
        var id :| id in rest;
        ok := writer.WriteUint64(ToWord(id));
        if !ok {
          return;
        }
        ListedIdsStep(ids, rest, es, id);
        OneMoreWord(before, es, id);
        es := es + [id];
        rest := rest - {id};
      }
      ok := true;
    }

    /**
     * Add the graph of checkpoint `version` to the store; a different version on the device adds nothing. The process
     * ends exactly when the data blocks do not hold as many records as the superblock says.
     */
    method RestoreCheckpoint(version: Word, memory: MemoryStore) returns (survived: bool)
      requires Valid() && superblock[..] == dev.blocks[minBlock]
      requires memory.Valid()
      modifies memory, memory.repr
      ensures memory.Valid() && fresh(memory.repr - old(memory.repr))
      ensures survived <==> dev.blocks[minBlock][1] != version || Complete(dev.blocks, minBlock, maxBlock)
      ensures survived ==>
                if dev.blocks[minBlock][1] != version then memory.Contents() == old(memory.Contents())
                else Adds(dev.blocks, minBlock, maxBlock, old(memory.Contents()), memory.Contents())
    {
      assert superblock[1] == dev.blocks[minBlock][1] && superblock[2] == dev.blocks[minBlock][2];
      if superblock[1] != version {
        return true;
      }
      survived := RestoreRecords(superblock[2], memory);
    }

    method RestoreRecords(nodeCount: Word, memory: MemoryStore) returns (ok: bool)
      requires Valid() && memory.Valid() && nodeCount == dev.blocks[minBlock][2]
      modifies memory, memory.repr
      ensures memory.Valid() && fresh(memory.repr - old(memory.repr))
      ensures ok <==> Complete(dev.blocks, minBlock, maxBlock)
      ensures ok ==> Adds(dev.blocks, minBlock, maxBlock, old(memory.Contents()), memory.Contents())
    {
      var reader := new BlockReader(dev, minBlock + 1, maxBlock);
      ghost var rs;
      assert reader.data == DataWords(dev.blocks, minBlock, maxBlock);
      ok, rs := RestoreNodes(reader, memory, nodeCount);
      if ok {
        assert Records(dev.blocks, minBlock, maxBlock, rs);
      } else {
        FewerIsIncomplete(dev.blocks, minBlock, maxBlock);
      }
    }

    /** `rs` are the records that were read. */
    method RestoreNodes(reader: BlockReader, memory: MemoryStore, nodeCount: nat) returns (ok: bool, ghost rs: seq<Record>)
      requires reader.Valid() && reader.Consumed() == [] && memory.Valid()
      modifies reader, memory, memory.repr
      ensures memory.Valid() && fresh(memory.repr - old(memory.repr))
      ensures ok ==> |rs| == nodeCount && CountsFit(rs) && EncodeAll(rs) <= reader.data
      ensures ok ==> memory.Contents() == RestoreOnto(old(memory.Contents()), rs)
      ensures !ok ==> forall ss :: CountsFit(ss) && EncodeAll(ss) <= reader.data ==> |ss| < nodeCount
    {
      rs := [];
      for i := 0 to nodeCount
        invariant reader.Valid() && memory.Valid() && fresh(memory.repr - old(memory.repr))
        invariant |rs| == i && CountsFit(rs) && EncodeAll(rs) == reader.Consumed()
        invariant memory.Contents() == RestoreOnto(old(memory.Contents()), rs)
      {
        ghost var r;
        ok, r := RestoreNode(reader, memory);
        if !ok {
          forall ss | CountsFit(ss) && EncodeAll(ss) <= reader.data
            ensures |ss| < nodeCount
          {
            CutOffMeansFewer(reader.data, rs, ss);
          }
          return;
        }
        EncodeAppend(rs, r);
        RestoreOntoStep(old(memory.Contents()), rs, r);
        rs := rs + [r];
      }
      ok := true;
    }

    /** Read one record and add its node and edges. */
    method RestoreNode(reader: BlockReader, memory: MemoryStore) returns (ok: bool, ghost r: Record)
      requires reader.Valid() && memory.Valid()
      modifies reader, memory, memory.repr
      ensures reader.Valid() && memory.Valid() && fresh(memory.repr - old(memory.repr))
      ensures ok ==> |r.edges| < TWO64 && reader.Consumed() == old(reader.Consumed()) + Encode(r)
      ensures ok ==> memory.Contents() == RestoreRecord(old(memory.Contents()), r)
      ensures !ok ==> CutOff(reader.data, |old(reader.Consumed())|)
    {
      ghost var targets;
      r := Record(0, []);
      var nodeId, edgeCount;
      ok, nodeId, edgeCount := ReadHeader(reader);
      if !ok {
        return;
      }
      ok, targets := RestoreRow(reader, memory, nodeId, edgeCount);
      if ok {
        r := Record(nodeId, targets);
        EncodeIs(old(reader.Consumed()), nodeId, targets);
      }
    }

    method RestoreRow(reader: BlockReader, memory: MemoryStore, nodeId: NodeId, edgeCount: nat)
      returns (ok: bool, ghost targets: seq<NodeId>)
      requires reader.Valid() && memory.Valid()
      modifies reader, memory, memory.repr
      ensures reader.Valid() && memory.Valid() && fresh(memory.repr - old(memory.repr))
      ensures ok ==> |targets| == edgeCount && reader.Consumed() == old(reader.Consumed()) + WordsOf(targets)
      ensures ok ==> memory.Contents() == RestoreRecord(old(memory.Contents()), Record(nodeId, targets))
      ensures !ok ==> |old(reader.Consumed())| + edgeCount > |reader.data|
    {
      var node := AddAndFind(memory, nodeId);
      ok, targets := RestoreEdges(reader, memory, node, edgeCount);
    }

    method AddAndFind(memory: MemoryStore, nodeId: NodeId) returns (node: Node)
      requires memory.Valid()
      modifies memory
      ensures memory.Valid() && fresh(memory.repr - old(memory.repr))
      ensures nodeId in memory.nodes && node == memory.nodes[nodeId] && node.id == nodeId && node in memory.repr
      ensures memory.Contents() == WithNode(old(memory.Contents()), nodeId)
    {
      var status := memory.AddNode(nodeId);
      node := memory.FindNode(nodeId);
    }

    method ReadHeader(reader: BlockReader) returns (ok: bool, nodeId: NodeId, edgeCount: nat)
      requires reader.Valid()
      modifies reader
      ensures reader.Valid()
      ensures ok <==> |old(reader.Consumed())| + 2 <= |reader.data|
      ensures ok ==> edgeCount < TWO64 && edgeCount == reader.data[|old(reader.Consumed())| + 1]
      ensures ok ==> reader.Consumed() == old(reader.Consumed()) + [ToWord(nodeId), edgeCount]
    {
      var word;
      nodeId, edgeCount := 0, 0;
      ok, word := reader.ReadUint64();
      if ok {
        nodeId := FromWord(word);
        ok, edgeCount := reader.ReadUint64();
      }
    }

    method RestoreEdges(reader: BlockReader, memory: MemoryStore, node: Node, edgeCount: nat)
      returns (ok: bool, ghost targets: seq<NodeId>)
      requires reader.Valid() && memory.Valid()
      requires node.id in memory.nodes && memory.nodes[node.id] == node
      modifies reader, memory, node
      ensures reader.Valid() && memory.Valid() && fresh(memory.repr - old(memory.repr))
      ensures ok ==> |targets| == edgeCount && reader.Consumed() == old(reader.Consumed()) + WordsOf(targets)
      ensures ok ==> memory.Contents() == WithTargets(old(memory.Contents()), node.id, targets)
      ensures !ok ==> |old(reader.Consumed())| + edgeCount > |reader.data|
    {
      ghost var g, before := memory.Contents(), reader.Consumed();
      targets := [];
      for j := 0 to edgeCount
        invariant reader.Valid() && memory.Valid() && fresh(memory.repr - old(memory.repr))
        invariant |targets| == j && reader.Consumed() == before + WordsOf(targets)
        invariant node.id in memory.nodes && memory.nodes[node.id] == node
        invariant memory.Contents() == WithTargets(g, node.id, targets)
      {
        ghost var target;
        ok, target := RestoreNext(reader, memory, node);
        if !ok {
          return;
        }
        WithTargetsStep(g, node.id, targets, target);
        OneMoreWord(before, targets, target);
        targets := targets + [target];
      }
      ok := true;
    }

    method RestoreNext(reader: BlockReader, memory: MemoryStore, node: Node) returns (ok: bool, ghost target: NodeId)
      requires reader.Valid()
      requires memory.Valid() && node.id in memory.nodes && memory.nodes[node.id] == node
      modifies reader, memory, node
      ensures reader.Valid() && memory.Valid() && fresh(memory.repr - old(memory.repr))
      ensures ok <==> |old(reader.Consumed())| < |reader.data|
      ensures ok ==> reader.Consumed() == old(reader.Consumed()) + [ToWord(target)]
      ensures node.id in memory.nodes && memory.nodes[node.id] == node
      ensures ok ==> var h := WithNode(old(memory.Contents()), target);
                node.id in h && memory.Contents() == h[node.id := h[node.id] + {target}]
    {
      ghost var g := memory.Contents();
      target := 0;
      var word;
      ok, word := reader.ReadUint64();
      assert memory.Contents() == g;
      if ok {
        target := FromWord(word);
        RestoreEdge(memory, node, FromWord(word));
      }
    }

    /** The target becomes a node if it is not one yet. */
    method RestoreEdge(memory: MemoryStore, node: Node, edgeId: NodeId)
      requires memory.Valid() && node.id in memory.nodes && memory.nodes[node.id] == node
      modifies memory, node
      ensures memory.Valid() && fresh(memory.repr - old(memory.repr))
      ensures node.id in memory.nodes && memory.nodes[node.id] == node
      ensures var h := WithNode(old(memory.Contents()), edgeId);
        node.id in h && memory.Contents() == h[node.id := h[node.id] + {edgeId}]
    {
      var target := memory.FindNode(edgeId);
      if target == null {
        var status := memory.AddNode(edgeId);
      }
      ghost var h := memory.Contents();
      var added := node.AddEdge(edgeId);
      assert memory.Contents() == h[node.id := h[node.id] + {edgeId}];
    }
  }

  lemma FewerIsIncomplete(blocks: seq<Block>, min: nat, max: nat)
    requires min < max <= |blocks|
    requires forall ss :: CountsFit(ss) && EncodeAll(ss) <= DataWords(blocks, min, max) ==> |ss| < blocks[min][2]
    ensures !Complete(blocks, min, max)
  {
  }

  lemma ListingFillsBlocks(blocks: seq<Block>, min: nat, max: nat, g: Graph, rs: seq<Record>)
    requires min + 1 < max <= |blocks| && Lists(rs, g) && EncodeAll(rs) <= Concat(blocks[min + 1..max])
    ensures WordCount(g) <= BLOCK_WORDS * (max - min - 1) && EncodeAll(rs) <= DataWords(blocks, min, max)
  {
    FlatLength(blocks[min + 1..max]);
    ListingSize(rs, g);
  }

  /** What was written into the data blocks is a listing of g short enough for its counts to fit a word. */
  lemma ListingFits(blocks: seq<Block>, min: nat, max: nat, g: Graph, rs: seq<Record>)
    requires min + 1 < max <= |blocks| < TWO32
    requires Lists(rs, g) && EncodeAll(rs) <= DataWords(blocks, min, max)
    ensures |rs| == |g| == |g| % TWO64 && CountsFit(rs)
  {
    FlatLength(blocks[min + 1..max]);
    ListingSize(rs, g);
    SmallCount(|g|, max - min - 1);
    ListingCounts(rs, g);
  }

  lemma SmallCount(nodes: nat, blocks: nat)
    requires 2 * nodes <= BLOCK_WORDS * blocks + 1 && blocks < TWO32
    ensures nodes == nodes % TWO64 && BLOCK_WORDS * blocks + 1 < TWO64
  {
  }

  /** Data blocks that hold a listing of g, with a superblock saying so, restore g closed off. */
  lemma ListingRestores(blocks: seq<Block>, super: Block, min: nat, max: nat, g: Graph, rs: seq<Record>)
    requires min + 1 < max <= |blocks| < TWO32
    requires Lists(rs, g) && EncodeAll(rs) <= DataWords(blocks, min, max)
    requires super[2] == |g| % TWO64
    ensures Restores(blocks[min := super], min, max, super[1], Closure(g))
  {
    var blocks' := blocks[min := super];
    ListingFits(blocks, min, max, g, rs);
    assert blocks'[min + 1..max] == blocks[min + 1..max];
    assert DataWords(blocks', min, max) == DataWords(blocks, min, max);
    RestoreListing(rs, g);
    assert Records(blocks', min, max, rs) && RestoreOnto(map[], rs) == Closure(g);
  }

  /** What fits on a device has counts that fit a word. */
  lemma ListingCounts(rs: seq<Record>, g: Graph)
    requires Lists(rs, g) && |EncodeAll(rs)| < TWO64
    ensures CountsFit(rs)
  {
    forall i | 0 <= i < |rs|
      ensures |rs[i].edges| < TWO64
    {
      EncodeSplit(rs, i);
    }
  }
}
