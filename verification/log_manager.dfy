/** The write-ahead log: formatting, appending, generations and the sequential reader (src/db/log_manager.cc). */
module LogManagers {
  import opened Types
  import opened Words
  import opened Devices
  import opened LogLayout

  class LogManager {
    const dev: BlockDevice
    const minBlock: nat
    const maxBlock: nat

    /** Buffers of the superblock and of the log block being filled, with the number of the latter. */
    var superblock: array?<Word>
    var current: array?<Word>
    var currentNum: nat

    ghost predicate Loaded()
      reads this, superblock
    {
      superblock != null && superblock.Length == BLOCK_WORDS
    }

    /** The device holds a well laid out log and both buffers equal their blocks. */
    ghost predicate Valid()
      reads this, dev, superblock, current
    {
      && Loaded() && current != null && current.Length == BLOCK_WORDS && superblock != current
      && LogOnDisk(dev.blocks, minBlock)
      && superblock[..] == dev.blocks[minBlock]
      && currentNum == LastBlock(dev.blocks, minBlock)
      && current[..] == dev.blocks[currentNum]
    }

    ghost function Entries(): seq<Entry>
      requires Valid()
      reads this, dev, superblock, current
    {
      LogEntries(dev.blocks, minBlock)
    }

    constructor (dev: BlockDevice, minBlock: nat, maxBlock: nat)
      requires minBlock < maxBlock < |dev.blocks|
      ensures this.dev == dev && this.minBlock == minBlock && this.maxBlock == maxBlock
      ensures superblock == null && current == null
    {
      this.dev, this.minBlock, this.maxBlock := dev, minBlock, maxBlock;
      superblock, current := null, null;
    }

    /** Load whatever the device holds; `ok` is false where a failing runtime invariant ends the process. */
    method Init() returns (ok: bool)
      requires minBlock < |dev.blocks|
      modifies this
      ensures ok <==> Accepted(dev.blocks, minBlock)
      ensures ok ==> Loaded() && fresh(superblock) && superblock[..] == dev.blocks[minBlock]
      ensures ok && LogOnDisk(dev.blocks, minBlock) ==> Valid() && fresh(current)
    {
      superblock := dev.Get(minBlock, false);
      assert superblock[..] == dev.blocks[minBlock];
      var checksum := CalculateChecksum(superblock, 1, 3);
      if checksum != superblock[0] {
        return false;
      }
      currentNum := (Low(superblock[2]) + High(superblock[2]) - 1) % TWO32;
      current := dev.Get(currentNum, false);
      if current == null {
        return false;
      }
      checksum := CalculateChecksum(current, 1, LOG_BLOCK_END);
      ok := checksum == current[0];
    }

    /** Start an empty log, one generation later than whatever valid superblock is found. */
    method Format()
      requires minBlock + 1 < |dev.blocks| < TWO32
      modifies this, dev
      ensures Valid() && Entries() == [] && fresh(superblock) && fresh(current)
      ensures Generation(dev.blocks[minBlock])
              == if SuperValid(old(dev.blocks)[minBlock]) then (Generation(old(dev.blocks)[minBlock]) + 1) % TWO32 else 1
      ensures |dev.blocks| == |old(dev.blocks)|
      ensures forall i :: 0 <= i < |dev.blocks| && i != minBlock && i != minBlock + 1 ==> dev.blocks[i] == old(dev.blocks)[i]
    {
      superblock := dev.Get(minBlock, false);
      assert superblock[..] == dev.blocks[minBlock];
      var checksum := CalculateChecksum(superblock, 1, 3);
      if superblock[0] != checksum {
        InitSuperblock();
      }
      var _ := IncreaseGeneration();
    }

    /** Write a superblock of generation 0 with an empty segment. */
    method InitSuperblock()
      requires Loaded() && minBlock < |dev.blocks|
      modifies dev, superblock
      ensures High(superblock[1]) == 0
      ensures dev.blocks == old(dev.blocks)[minBlock := superblock[..]]
    {
      superblock[1] := WithHigh(WithLow(superblock[1], BLOCK_MAGIC), 0);
      superblock[2] := WithHigh(WithLow(superblock[2], (minBlock + 1) % TWO32), 0);
      superblock[0] := CalculateChecksum(superblock, 1, 3);
      dev.Write(minBlock, superblock);
    }

    /** Append one entry, opening a new block when the current one is full. */
    method LogOperation(entry: Entry) returns (status: Status)
      requires Valid()
      modifies this, dev, superblock, current
      ensures Valid() && superblock == old(superblock) && (current == old(current) || fresh(current))
      ensures |dev.blocks| == |old(dev.blocks)|
      ensures Generation(dev.blocks[minBlock]) == Generation(old(dev.blocks)[minBlock])
      ensures status == if |old(Entries())| == LOG_BLOCK_ENTRY_COUNT * (|dev.blocks| - minBlock - 1) then NoSpace else Success
      ensures Entries() == if status.Success? then old(Entries()) + [entry] else old(Entries())
      ensures forall i :: 0 <= i < |dev.blocks| && i != minBlock && i != LastBlock(dev.blocks, minBlock)
                ==> dev.blocks[i] == old(dev.blocks)[i]
      ensures !status.Success? ==> dev.blocks == old(dev.blocks)
    {
      ghost var blocks := dev.blocks;
      ghost var last := LastBlock(blocks, minBlock);
      PackedLength(Segment(blocks, minBlock), Generation(blocks[minBlock]));
      assert Segment(blocks, minBlock)[last - minBlock - 1] == blocks[last];
      if Low(current[3]) == LOG_BLOCK_ENTRY_COUNT {
        status := LogInNewBlock(entry);
      } else {
        WriteEntry(entry);
        AppendInPlace(blocks, minBlock, entry, dev.blocks);
        status := Success;
      }
    }

    /** Append one entry when the current block is full. */
    method LogInNewBlock(entry: Entry) returns (status: Status)
      requires Valid() && EntryCount(dev.blocks[LastBlock(dev.blocks, minBlock)]) == LOG_BLOCK_ENTRY_COUNT
      modifies this, dev, superblock
      ensures Valid() && superblock == old(superblock)
      ensures |dev.blocks| == |old(dev.blocks)|
      ensures Generation(dev.blocks[minBlock]) == Generation(old(dev.blocks)[minBlock])
      ensures status == if LastBlock(old(dev.blocks), minBlock) + 1 == |dev.blocks| then NoSpace else Success
      ensures if status.Success? then
                && fresh(current) && Entries() == old(Entries()) + [entry]
                && forall i :: 0 <= i < |dev.blocks| && i != minBlock && i != LastBlock(dev.blocks, minBlock)
                     ==> dev.blocks[i] == old(dev.blocks)[i]
              else dev.blocks == old(dev.blocks) && current == old(current)
    {
      ghost var blocks := dev.blocks;
      var available := OpenBlock();
      if !available {
        return NoSpace;
      }
      ghost var super := dev.blocks[minBlock];
      WriteEntry(entry);
      AppendNewBlock(blocks, minBlock, entry, super, blocks[LastBlock(blocks, minBlock) + 1], dev.blocks);
      return Success;
    }

    /** Put the entry into the current buffer and write it. */
    method WriteEntry(entry: Entry)
      requires current != null && current.Length == BLOCK_WORDS && superblock != current && currentNum < |dev.blocks|
      requires EntryCount(current[..]) < LOG_BLOCK_ENTRY_COUNT
      modifies dev, current
      ensures current[..] == Sealed(WithEntry(old(current[..]), entry))
      ensures dev.blocks == old(dev.blocks)[currentNum := current[..]]
    {
      PutEntry(current, entry);
      dev.Write(currentNum, current);
    }

    /** Continue in the block behind the segment, counted in the superblock; the block itself is not written yet. */
    method OpenBlock() returns (available: bool)
      requires Valid()
      modifies this, dev, superblock
      ensures available <==> LastBlock(old(dev.blocks), minBlock) + 1 < |old(dev.blocks)|
      ensures !available ==> dev.blocks == old(dev.blocks) && current == old(current) && Valid()
      ensures superblock == old(superblock) && Loaded()
      ensures available ==>
                var super := superblock[..];
                && fresh(current) && current.Length == BLOCK_WORDS
                && currentNum == LastBlock(old(dev.blocks), minBlock) + 1
                && current[..] == Initialised(old(dev.blocks)[currentNum], Generation(super))
                && dev.blocks == old(dev.blocks)[minBlock := super] && SuperValid(super)
                && Generation(super) == Generation(old(dev.blocks)[minBlock]) && SegmentStart(super) == minBlock + 1
                && SegmentSize(super) == SegmentSize(old(dev.blocks)[minBlock]) + 1
    {
      var newNum := Low(superblock[2]) + High(superblock[2]);
      var buffer := dev.Get(newNum, false);
      if buffer == null {
        return false;
      }
      current, currentNum := buffer, newNum;
      InitBlock(current, High(superblock[1]));
      superblock[2] := WithHigh(superblock[2], High(superblock[2]) + 1);
      superblock[0] := CalculateChecksum(superblock, 1, 3);
      dev.Write(minBlock, superblock);
      return true;
    }

    method WriteEmptyBlock()
      requires Loaded() && current != null && current.Length == BLOCK_WORDS && superblock != current
      requires currentNum < |dev.blocks|
      modifies dev, current
      ensures current[..] == Sealed(Initialised(old(current[..]), High(superblock[1])))
      ensures dev.blocks == old(dev.blocks)[currentNum := current[..]]
    {
      InitBlock(current, High(superblock[1]));
      current[0] := CalculateChecksum(current, 1, LOG_BLOCK_END);
      dev.Write(currentNum, current);
    }

    /** Start the next generation with an empty first block. */
    method IncreaseGeneration() returns (generation: Half)
      requires Loaded() && minBlock + 1 < |dev.blocks| < TWO32
      modifies this, dev, superblock
      ensures Valid() && Entries() == [] && superblock == old(superblock) && fresh(current)
      ensures generation == Generation(dev.blocks[minBlock]) == (High(old(superblock[1])) + 1) % TWO32
      ensures |dev.blocks| == |old(dev.blocks)|
      ensures forall i :: 0 <= i < |dev.blocks| && i != minBlock && i != minBlock + 1 ==> dev.blocks[i] == old(dev.blocks)[i]
    {
      ghost var blocks := dev.blocks;
      NextSuperblock();
      ghost var super: Block := superblock[..];
      currentNum := Low(superblock[2]);
      current := dev.Get(currentNum, false);
      WriteEmptyBlock();
      EmptySegment(blocks, minBlock, super, blocks[minBlock + 1], dev.blocks);
      return High(superblock[1]);
    }

    method NextSuperblock()
      requires Loaded() && minBlock + 1 < |dev.blocks| < TWO32
      modifies dev, superblock
      ensures SuperValid(superblock[..]) && dev.blocks == old(dev.blocks)[minBlock := superblock[..]]
      ensures Generation(superblock[..]) == (High(old(superblock[1])) + 1) % TWO32
      ensures SegmentStart(superblock[..]) == minBlock + 1 && SegmentSize(superblock[..]) == 1
    {
      superblock[1] := WithHigh(superblock[1], (High(superblock[1]) + 1) % TWO32);
      superblock[2] := WithHigh(WithLow(superblock[2], (minBlock + 1) % TWO32), 1);
      superblock[0] := CalculateChecksum(superblock, 1, 3);
      dev.Write(minBlock, superblock);
    }
  }

  method InitBlock(buffer: array<Word>, generation: Word)
    requires buffer.Length == BLOCK_WORDS
    modifies buffer
    ensures buffer[..] == Initialised(old(buffer[..]), generation)
  {
    buffer[1] := BLOCK_MAGIC;
    buffer[2] := generation;
    buffer[3] := WithLow(buffer[3], 0);
  }

  /** Fill the next free slot and refresh the checksum. */
  method PutEntry(buffer: array<Word>, entry: Entry)
    requires buffer.Length == BLOCK_WORDS && Low(buffer[3]) < LOG_BLOCK_ENTRY_COUNT
    modifies buffer
    ensures buffer[..] == Sealed(WithEntry(old(buffer[..]), entry))
  {
    var n := Low(buffer[3]);
    buffer[4 + 3 * n] := WithLow(buffer[4 + 3 * n], entry.opcode);
    buffer[5 + 3 * n] := ToWord(entry.idA);
    buffer[6 + 3 * n] := ToWord(entry.idB);
    buffer[3] := WithLow(buffer[3], n + 1);
    buffer[0] := CalculateChecksum(buffer, 1, LOG_BLOCK_END);
  }

  // ---------- reading ----------

  method ReadEntry(buffer: array<Word>, k: nat) returns (entry: Entry)
    requires buffer.Length == BLOCK_WORDS && k < LOG_BLOCK_ENTRY_COUNT
    ensures entry == EntryAt(buffer[..], k)
  {
    entry := Entry(Low(buffer[4 + 3 * k]), FromWord(buffer[5 + 3 * k]), FromWord(buffer[6 + 3 * k]));
  }

  /** A reading position: entry `index` of block `num` of the log. */
  ghost predicate Cursor(blocks: seq<Block>, min: nat, num: nat, index: nat) {
    && LogOnDisk(blocks, min)
    && min < num <= LastBlock(blocks, min)
    && index <= EntryCount(blocks[num])
  }

  /** The entries from a reading position to the end of the log. */
  ghost function EntriesFrom(blocks: seq<Block>, min: nat, num: nat, index: nat): seq<Entry>
    requires Cursor(blocks, min, num, index)
  {
    CursorBlocks(blocks, min, num);
    EntriesOfHead(blocks[num..LastBlock(blocks, min) + 1]);
    EntriesOf(blocks[num..LastBlock(blocks, min) + 1])[index..]
  }

  /** From `num` on, the blocks of the log are intact; those after its first block are not empty. */
  lemma CursorBlocks(blocks: seq<Block>, min: nat, num: nat)
    requires LogOnDisk(blocks, min) && min < num <= LastBlock(blocks, min)
    ensures Readable(blocks[num..LastBlock(blocks, min) + 1])
    ensures forall i :: num <= i <= LastBlock(blocks, min) ==> Intact(blocks[i], Generation(blocks[min]))
    ensures forall i :: num < i <= LastBlock(blocks, min) ==> EntryCount(blocks[i]) > 0
  {
    var bs := Segment(blocks, min);
    assert forall i :: num <= i <= LastBlock(blocks, min) ==> blocks[i] == bs[i - min - 1];
  }

  lemma CursorStart(blocks: seq<Block>, min: nat)
    requires LogOnDisk(blocks, min)
    ensures Cursor(blocks, min, min + 1, 0) && EntriesFrom(blocks, min, min + 1, 0) == LogEntries(blocks, min)
  {
  }

  lemma CursorReads(blocks: seq<Block>, min: nat, num: nat, index: nat)
    requires Cursor(blocks, min, num, index) && index < EntryCount(blocks[num])
    ensures index < LOG_BLOCK_ENTRY_COUNT
    ensures EntriesFrom(blocks, min, num, index)
            == [EntryAt(blocks[num], index)] + EntriesFrom(blocks, min, num, index + 1)
  {
    CursorBlocks(blocks, min, num);
    var bs := blocks[num..LastBlock(blocks, min) + 1];
    EntriesOfHead(bs);
    assert EntriesOf(bs)[index] == BlockEntries(bs[0])[index];
  }

  /** At the end of a block that is not the last one, the next block has an entry. */
  lemma CursorMovesOn(blocks: seq<Block>, min: nat, num: nat)
    requires LogOnDisk(blocks, min) && min < num < LastBlock(blocks, min)
    ensures Cursor(blocks, min, num, EntryCount(blocks[num])) && Cursor(blocks, min, num + 1, 0)
    ensures EntryCount(blocks[num + 1]) > 0
    ensures EntriesFrom(blocks, min, num, EntryCount(blocks[num])) == EntriesFrom(blocks, min, num + 1, 0)
  {
    CursorBlocks(blocks, min, num);
    var bs := blocks[num..LastBlock(blocks, min) + 1];
    EntriesOfHead(bs);
    assert bs[1..] == blocks[num + 1..LastBlock(blocks, min) + 1];
  }

  lemma CursorAtEnd(blocks: seq<Block>, min: nat, num: nat, index: nat)
    requires Cursor(blocks, min, num, index)
    ensures EntriesFrom(blocks, min, num, index) == [] <==> num == LastBlock(blocks, min) && index == EntryCount(blocks[num])
  {
    CursorBlocks(blocks, min, num);
    if index < EntryCount(blocks[num]) {
      CursorReads(blocks, min, num, index);
    } else if num < LastBlock(blocks, min) {
      CursorMovesOn(blocks, min, num);
      CursorReads(blocks, min, num + 1, 0);
    } else {
      var bs := blocks[num..num + 1];
      EntriesOfHead(bs);
      assert EntriesOf(bs[1..]) == [];
    }
  }

  /** On a log the reader hands out exactly the entries ahead of its position, and does not die. */
  lemma {:induction false} ScanIs(blocks: seq<Block>, min: nat, num: nat, index: nat)
    requires Cursor(blocks, min, num, index)
    ensures Scan(blocks, num, index, LastBlock(blocks, min) + 1) == Reading(EntriesFrom(blocks, min, num, index), false)
    decreases LastBlock(blocks, min) - num, EntryCount(blocks[num]) - index
  {
    if index < EntryCount(blocks[num]) {
      ScanIs(blocks, min, num, index + 1);
      ScanReads(blocks, min, num, index);
    } else if num < LastBlock(blocks, min) {
      CursorReadsOn(blocks, min, num);
      ScanIs(blocks, min, num + 1, 1);
      ScanMovesOn(blocks, min, num);
    } else {
      CursorAtEnd(blocks, min, num, index);
    }
  }

  lemma ScanReads(blocks: seq<Block>, min: nat, num: nat, index: nat)
    requires Cursor(blocks, min, num, index) && index < EntryCount(blocks[num])
    ensures Scan(blocks, num, index, LastBlock(blocks, min) + 1)
            == Then(EntryAt(blocks[num], index), Scan(blocks, num, index + 1, LastBlock(blocks, min) + 1))
    ensures Reading(EntriesFrom(blocks, min, num, index), false)
            == Then(EntryAt(blocks[num], index), Reading(EntriesFrom(blocks, min, num, index + 1), false))
  {
    CursorBlocks(blocks, min, num);
    CursorReads(blocks, min, num, index);
    ScanStep(blocks, num, index, num, index, LastBlock(blocks, min) + 1);
  }

  lemma ScanMovesOn(blocks: seq<Block>, min: nat, num: nat)
    requires LogOnDisk(blocks, min) && min < num < LastBlock(blocks, min)
    ensures Scan(blocks, num, EntryCount(blocks[num]), LastBlock(blocks, min) + 1)
            == Then(EntryAt(blocks[num + 1], 0), Scan(blocks, num + 1, 1, LastBlock(blocks, min) + 1))
  {
    CursorBlocks(blocks, min, num);
    ScanStep(blocks, num, EntryCount(blocks[num]), num + 1, 0, LastBlock(blocks, min) + 1);
  }

  lemma CursorReadsOn(blocks: seq<Block>, min: nat, num: nat)
    requires LogOnDisk(blocks, min) && min < num < LastBlock(blocks, min)
    ensures Cursor(blocks, min, num, EntryCount(blocks[num])) && Cursor(blocks, min, num + 1, 1)
    ensures EntriesFrom(blocks, min, num, EntryCount(blocks[num]))
            == [EntryAt(blocks[num + 1], 0)] + EntriesFrom(blocks, min, num + 1, 1)
  {
    CursorMovesOn(blocks, min, num);
    CursorReads(blocks, min, num + 1, 0);
  }

  /** Reading a log gives exactly its entries. */
  lemma LogReadingIs(blocks: seq<Block>, min: nat)
    requires LogOnDisk(blocks, min)
    ensures LogReading(blocks, min) == Reading(LogEntries(blocks, min), false)
  {
    CursorStart(blocks, min);
    CursorBlocks(blocks, min, min + 1);
    ScanIs(blocks, min, min + 1, 0);
  }

  /** Reads the entries of the current generation from the device, in order. */
  class Reader {
    const log: LogManager
    const startBlock: nat
    const endBlock: nat
    var buffer: array?<Word>
    var blockNum: nat
    var entryIndex: nat
    /** A failing runtime invariant has ended the process. */
    var died: bool
    /** What will be handed out. */
    ghost var ahead: Reading

    ghost predicate Valid()
      reads this, log.dev, buffer
    {
      if died then ahead == Reading([], true)
      else if buffer == null then ahead == Reading([], false)
      else
        && blockNum < endBlock && blockNum < |log.dev.blocks|
        && buffer.Length == BLOCK_WORDS && buffer[..] == log.dev.blocks[blockNum]
        && ahead == Scan(log.dev.blocks, blockNum, entryIndex, endBlock)
    }

    constructor (log: LogManager)
      requires log.Loaded() && log.minBlock < |log.dev.blocks| && log.superblock[..] == log.dev.blocks[log.minBlock]
      ensures Valid() && this.log == log && (buffer != null ==> fresh(buffer))
      ensures ahead == LogReading(log.dev.blocks, log.minBlock)
    {
      this.log := log;
      startBlock := Low(log.superblock[2]);
      endBlock := Low(log.superblock[2]) + High(log.superblock[2]);
      blockNum := Low(log.superblock[2]);
      entryIndex := 0;
      ahead := LogReading(log.dev.blocks, log.minBlock);
      buffer, died := null, false;
      new;
      assert log.superblock[2] == log.dev.blocks[log.minBlock][2];
      if startBlock < endBlock {
        buffer := log.dev.Get(startBlock, false);
        if buffer == null {
          died := true;
        } else {
          var checksum := CalculateChecksum(buffer, 1, LOG_BLOCK_END);
          died := checksum != buffer[0];
        }
      }
    }

    method HasNext() returns (more: bool)
      requires Valid() && !died
      ensures more <==> ahead.entries != [] || ahead.dies
    {
      if buffer == null {
        return false;
      }
      assert buffer[3] == log.dev.blocks[blockNum][3];
      return blockNum < endBlock - 1 || entryIndex < Low(buffer[3]);
    }

    /** The next entry, as long as no runtime invariant fails. */
    method GetNext() returns (entry: Entry)
      requires Valid() && !died && (ahead.entries != [] || ahead.dies)
      modifies this
      ensures Valid() && (died <==> old(ahead).entries == [])
      ensures !died ==> old(ahead) == Then(entry, ahead)
    {
      assert buffer[3] == log.dev.blocks[blockNum][3];
      ghost var num, index := blockNum, entryIndex;
      var valid := BufferValid();
      if valid && entryIndex == Low(buffer[3]) {
        valid := NextBlock();
      }
      if !valid || entryIndex >= LOG_BLOCK_ENTRY_COUNT {
        died, ahead := true, Reading([], true);
        return Entry(0, 0, 0);
      }
      ScanStep(log.dev.blocks, num, index, blockNum, entryIndex, endBlock);
      entry := TakeEntry();
    }

    method TakeEntry() returns (entry: Entry)
      requires !died && buffer != null && buffer.Length == BLOCK_WORDS && entryIndex < LOG_BLOCK_ENTRY_COUNT
      requires blockNum < endBlock && blockNum < |log.dev.blocks| && buffer[..] == log.dev.blocks[blockNum]
      requires ahead == Then(EntryAt(log.dev.blocks[blockNum], entryIndex),
                             Scan(log.dev.blocks, blockNum, entryIndex + 1, endBlock))
      modifies this
      ensures Valid() && !died && old(ahead) == Then(entry, ahead)
    {
      entry := ReadEntry(buffer, entryIndex);
      entryIndex := entryIndex + 1;
      ahead := Scan(log.dev.blocks, blockNum, entryIndex, endBlock);
    }

    method BufferValid() returns (valid: bool)
      requires buffer != null && buffer.Length == BLOCK_WORDS
      ensures valid <==> LogBlockValid(buffer[..])
    {
      var checksum := CalculateChecksum(buffer, 1, LOG_BLOCK_END);
      valid := checksum == buffer[0];
    }

    /** Go to the front of the next block, if it exists and is valid. */
    method NextBlock() returns (valid: bool)
      requires Valid() && !died && buffer != null && blockNum + 1 < endBlock
      modifies this
      ensures died == old(died) && ahead == old(ahead)
      ensures valid <==> old(blockNum) + 1 < |log.dev.blocks| && LogBlockValid(log.dev.blocks[old(blockNum) + 1])
      ensures valid ==>
                && blockNum == old(blockNum) + 1 && entryIndex == 0
                && buffer != null && buffer.Length == BLOCK_WORDS && buffer[..] == log.dev.blocks[blockNum]
    {
      blockNum, entryIndex := blockNum + 1, 0;
      buffer := log.dev.Get(blockNum, false);
      if buffer == null {
        return false;
      }
      valid := BufferValid();
    }
  }
}
