/** How the log lies on the device: superblock, log blocks and entries (src/db/log_manager.cc, lines 23-79). */
module LogLayout {
  import opened Types
  import opened Words
  import opened Devices
  import opened Chunks

  const BLOCK_MAGIC: Half := 1234567

  /** Entries of three words after a four-word header: (512 - 4) / 3. */
  const LOG_BLOCK_ENTRY_COUNT: int := 169

  /** End of the words covered by a log block's checksum: 4 + 3 * 169. */
  const LOG_BLOCK_END: int := 511

  const ADD_NODE: Half := 0
  const ADD_EDGE: Half := 1
  const ADD_EDGE_PART: Half := 2
  const REMOVE_NODE: Half := 3
  const REMOVE_EDGE: Half := 4
  const REMOVE_EDGE_PART: Half := 5

  datatype Entry = Entry(opcode: Half, idA: NodeId, idB: NodeId)

  // ---------- superblock: checksum | magic, generation | segment start, segment size ----------

  function Generation(b: Block): Half { High(b[1]) }
  function SegmentStart(b: Block): Half { Low(b[2]) }
  function SegmentSize(b: Block): Half { High(b[2]) }
  predicate SuperValid(b: Block) { b[0] == Checksum(b[1..3]) }

  // ---------- log block: checksum | magic | generation | entry count | entries ----------

  predicate LogBlockValid(b: Block) { b[0] == Checksum(b[1..LOG_BLOCK_END]) }
  function BlockGeneration(b: Block): Word { b[2] }
  function EntryCount(b: Block): Half { Low(b[3]) }

  function EntryAt(b: Block, k: nat): Entry
    requires k < LOG_BLOCK_ENTRY_COUNT
  {
    Entry(Low(b[4 + 3 * k]), FromWord(b[5 + 3 * k]), FromWord(b[6 + 3 * k]))
  }

  function BlockEntries(b: Block): seq<Entry>
    requires EntryCount(b) <= LOG_BLOCK_ENTRY_COUNT
  {
    seq(EntryCount(b), k requires 0 <= k < EntryCount(b) => EntryAt(b, k))
  }

  function Initialised(b: Block, generation: Word): Block {
    b[1 := BLOCK_MAGIC][2 := generation][3 := WithLow(b[3], 0)]
  }

  function Sealed(b: Block): Block {
    b[0 := Checksum(b[1..LOG_BLOCK_END])]
  }

  function WithEntry(b: Block, e: Entry): Block
    requires EntryCount(b) < LOG_BLOCK_ENTRY_COUNT
  {
    var n := EntryCount(b);
    b[4 + 3 * n := WithLow(b[4 + 3 * n], e.opcode)]
     [5 + 3 * n := ToWord(e.idA)]
     [6 + 3 * n := ToWord(e.idB)]
     [3 := WithLow(b[3], n + 1)]
  }

  lemma WithEntryAppends(b: Block, e: Entry)
    requires EntryCount(b) < LOG_BLOCK_ENTRY_COUNT
    ensures BlockEntries(Sealed(WithEntry(b, e))) == BlockEntries(b) + [e]
    ensures LogBlockValid(Sealed(WithEntry(b, e)))
    ensures BlockGeneration(Sealed(WithEntry(b, e))) == BlockGeneration(b)
  {
    var n := EntryCount(b);
    var c := Sealed(WithEntry(b, e));
    FromToWord(e.idA);
    FromToWord(e.idB);
    assert EntryAt(c, n) == e;
    forall k | 0 <= k < n
      ensures EntryAt(c, k) == EntryAt(b, k)
    {
    }
    SealedIsValid(WithEntry(b, e));
  }

  lemma SealedIsValid(b: Block)
    ensures LogBlockValid(Sealed(b))
    ensures Sealed(b)[1..] == b[1..]
  {
    assert Sealed(b)[1..LOG_BLOCK_END] == b[1..LOG_BLOCK_END];
  }

  // ---------- the segment ----------

  ghost predicate Readable(bs: seq<Block>) {
    forall i :: 0 <= i < |bs| ==> EntryCount(bs[i]) <= LOG_BLOCK_ENTRY_COUNT
  }

  function EntryLists(bs: seq<Block>): seq<seq<Entry>>
    requires Readable(bs)
  {
    seq(|bs|, i requires 0 <= i < |bs| => BlockEntries(bs[i]))
  }

  function EntriesOf(bs: seq<Block>): seq<Entry>
    requires Readable(bs)
  {
    Concat(EntryLists(bs))
  }

  lemma EntriesOfAppend(bs: seq<Block>, b: Block)
    requires Readable(bs) && EntryCount(b) <= LOG_BLOCK_ENTRY_COUNT
    ensures Readable(bs + [b]) && EntriesOf(bs + [b]) == EntriesOf(bs) + BlockEntries(b)
  {
    ConcatAppend(EntryLists(bs), BlockEntries(b));
    assert EntryLists(bs + [b]) == EntryLists(bs) + [BlockEntries(b)];
  }

  lemma EntriesOfHead(bs: seq<Block>)
    requires Readable(bs) && bs != []
    ensures Readable(bs[1..]) && EntriesOf(bs) == BlockEntries(bs[0]) + EntriesOf(bs[1..])
  {
    ConcatHead(EntryLists(bs));
    assert EntryLists(bs)[1..] == EntryLists(bs[1..]);
  }

  ghost predicate Intact(b: Block, generation: Word) {
    LogBlockValid(b) && b[1] == BLOCK_MAGIC && BlockGeneration(b) == generation && EntryCount(b) <= LOG_BLOCK_ENTRY_COUNT
  }

  /** Blocks of one generation, packed: all but the last are full, and only the first may be empty. */
  ghost predicate Packed(bs: seq<Block>, generation: Word) {
    && bs != []
    && (forall i :: 0 <= i < |bs| ==> Intact(bs[i], generation))
    && (forall i :: 0 <= i < |bs| - 1 ==> EntryCount(bs[i]) == LOG_BLOCK_ENTRY_COUNT)
    && (forall i :: 0 < i < |bs| ==> EntryCount(bs[i]) > 0)
  }

  /** A device whose block `min` is a valid superblock followed by a packed segment. */
  ghost predicate LogOnDisk(blocks: seq<Block>, min: nat) {
    && |blocks| < TWO32 && min < |blocks|
    && SuperValid(blocks[min])
    && SegmentStart(blocks[min]) == min + 1
    && 1 <= SegmentSize(blocks[min]) && min + 1 + SegmentSize(blocks[min]) <= |blocks|
    && Packed(Segment(blocks, min), Generation(blocks[min]))
  }

  ghost function Segment(blocks: seq<Block>, min: nat): seq<Block>
    requires min < |blocks| && min + 1 + SegmentSize(blocks[min]) <= |blocks|
  {
    blocks[min + 1..min + 1 + SegmentSize(blocks[min])]
  }

  ghost function LogEntries(blocks: seq<Block>, min: nat): seq<Entry>
    requires LogOnDisk(blocks, min)
  {
    EntriesOf(Segment(blocks, min))
  }

  lemma PackedLength(bs: seq<Block>, generation: Word)
    requires Packed(bs, generation)
    ensures |EntriesOf(bs)| == LOG_BLOCK_ENTRY_COUNT * (|bs| - 1) + EntryCount(bs[|bs| - 1])
  {
    EvenLength(EntryLists(bs), LOG_BLOCK_ENTRY_COUNT);
  }

  /** Number of log blocks that hold n entries. */
  function BlocksFor(n: nat): nat {
    if n == 0 then 1 else (n + 168) / 169
  }

  /** In every log on a device, the k-th entry of the generation is in block min + 1 + k / 169, slot k % 169. */
  lemma EntryPosition(blocks: seq<Block>, min: nat, k: nat)
    requires LogOnDisk(blocks, min) && k < |LogEntries(blocks, min)|
    ensures min + 1 + k / 169 < |blocks|
    ensures LogEntries(blocks, min)[k] == EntryAt(blocks[min + 1 + k / 169], k % 169)
  {
    var bs, g := Segment(blocks, min), Generation(blocks[min]);
    PackedLength(bs, g);
    var i, s := k / 169, k % 169;
    assert i < |bs| && s < EntryCount(bs[i]) by {
      assert k == 169 * i + s && s < 169;
      assert EntryCount(bs[|bs| - 1]) <= 169;
      if i < |bs| - 1 {
        assert EntryCount(bs[i]) == 169;
      }
    }
    EvenPosition(EntryLists(bs), LOG_BLOCK_ENTRY_COUNT, i, s);
  }

  lemma SegmentSizeIs(blocks: seq<Block>, min: nat)
    requires LogOnDisk(blocks, min)
    ensures SegmentSize(blocks[min]) == BlocksFor(|LogEntries(blocks, min)|)
  {
    var bs := Segment(blocks, min);
    PackedLength(bs, Generation(blocks[min]));
    assert EntryCount(bs[|bs| - 1]) <= 169;
    assert |bs| > 1 ==> EntryCount(bs[|bs| - 1]) > 0;
  }

  // ---------- appending ----------

  /** Last block of the segment, the one being filled. */
  ghost function LastBlock(blocks: seq<Block>, min: nat): nat
    requires min < |blocks|
  {
    min + SegmentSize(blocks[min])
  }

  lemma AppendInPlace(blocks: seq<Block>, min: nat, e: Entry, blocks': seq<Block>)
    requires LogOnDisk(blocks, min)
    requires EntryCount(blocks[LastBlock(blocks, min)]) < LOG_BLOCK_ENTRY_COUNT
    requires blocks' == blocks[LastBlock(blocks, min) := Sealed(WithEntry(blocks[LastBlock(blocks, min)], e))]
    ensures LogOnDisk(blocks', min) && LogEntries(blocks', min) == LogEntries(blocks, min) + [e]
  {
    var last := LastBlock(blocks, min);
    var bs, b := Segment(blocks, min), blocks[last];
    var n := |bs| - 1;
    WithEntryAppends(b, e);
    assert Segment(blocks', min) == bs[..n] + [Sealed(WithEntry(b, e))];
    assert bs == bs[..n] + [b];
    EntriesOfAppend(bs[..n], b);
    EntriesOfAppend(bs[..n], Sealed(WithEntry(b, e)));
  }

  lemma AppendNewBlock(blocks: seq<Block>, min: nat, e: Entry, super: Block, stale: Block, blocks': seq<Block>)
    requires LogOnDisk(blocks, min) && LastBlock(blocks, min) + 1 < |blocks|
    requires EntryCount(blocks[LastBlock(blocks, min)]) == LOG_BLOCK_ENTRY_COUNT
    requires SuperValid(super) && Generation(super) == Generation(blocks[min])
    requires SegmentStart(super) == min + 1 && SegmentSize(super) == SegmentSize(blocks[min]) + 1
    requires blocks' == blocks[min := super]
                              [LastBlock(blocks, min) + 1 :=
                                Sealed(WithEntry(Initialised(stale, Generation(super)), e))]
    ensures LogOnDisk(blocks', min) && LogEntries(blocks', min) == LogEntries(blocks, min) + [e]
  {
    var bs := Segment(blocks, min);
    var c := Initialised(stale, Generation(super));
    var d := Sealed(WithEntry(c, e));
    WithEntryAppends(c, e);
    assert BlockEntries(c) == [];
    assert Segment(blocks', min) == bs + [d];
    EntriesOfAppend(bs, d);
  }

  lemma EmptySegment(blocks: seq<Block>, min: nat, super: Block, stale: Block, blocks': seq<Block>)
    requires |blocks| < TWO32 && min + 1 < |blocks|
    requires SuperValid(super) && SegmentStart(super) == min + 1 && SegmentSize(super) == 1
    requires blocks' == blocks[min := super][min + 1 := Sealed(Initialised(stale, Generation(super)))]
    ensures LogOnDisk(blocks', min) && LogEntries(blocks', min) == []
  {
    var b := Sealed(Initialised(stale, Generation(super)));
    SealedIsValid(Initialised(stale, Generation(super)));
    assert Segment(blocks', min) == [b];
    EntriesOfAppend([], b);
    assert [] + [b] == [b];
  }

  /** The log depends on its own blocks only. */
  lemma LogFrame(blocks: seq<Block>, blocks': seq<Block>, min: nat)
    requires LogOnDisk(blocks, min) && |blocks'| == |blocks|
    requires forall i :: min <= i <= LastBlock(blocks, min) ==> blocks'[i] == blocks[i]
    ensures LogOnDisk(blocks', min) && LogEntries(blocks', min) == LogEntries(blocks, min)
  {
    assert Segment(blocks', min) == Segment(blocks, min);
  }

  // ---------- checksums ----------

  /** No single changed word of the covered part of a log block goes unnoticed. */
  lemma LogBlockDetectsOneWord(b: Block, i: nat, w: Word)
    requires LogBlockValid(b) && i < LOG_BLOCK_END && b[i] != w
    ensures !LogBlockValid(b[i := w])
  {
    if i == 0 {
      assert b[i := w][1..LOG_BLOCK_END] == b[1..LOG_BLOCK_END];
    } else {
      assert b[i := w][1..LOG_BLOCK_END] == b[1..LOG_BLOCK_END][i - 1 := w];
      ChecksumDetectsOneWord(b[1..LOG_BLOCK_END], i - 1, w);
    }
  }

  lemma SuperDetectsOneWord(b: Block, i: nat, w: Word)
    requires SuperValid(b) && i < 3 && b[i] != w
    ensures !SuperValid(b[i := w])
  {
    if i == 0 {
      assert b[i := w][1..3] == b[1..3];
    } else {
      assert b[i := w][1..3] == b[1..3][i - 1 := w];
      ChecksumDetectsOneWord(b[1..3], i - 1, w);
    }
  }

  /** Changing one covered word of any block of a log, superblock included, leaves no valid log behind. */
  lemma SingleWordCorruption(blocks: seq<Block>, min: nat, i: nat, j: nat, w: Word)
    requires LogOnDisk(blocks, min) && min <= i <= LastBlock(blocks, min)
    requires j < (if i == min then 3 else 511) && blocks[i][j] != w
    ensures if i == min then !SuperValid(blocks[i][j := w]) else !LogBlockValid(blocks[i][j := w])
    ensures !LogOnDisk(blocks[i := blocks[i][j := w]], min)
  {
    var blocks' := blocks[i := blocks[i][j := w]];
    if i == min {
      SuperDetectsOneWord(blocks[i], j, w);
    } else {
      assert Segment(blocks, min)[i - min - 1] == blocks[i];
      LogBlockDetectsOneWord(blocks[i], j, w);
      assert Segment(blocks', min)[i - min - 1] == blocks'[i];
    }
  }

  // ---------- devices that hold no log ----------

  /** The block that opening takes for the one being filled, in 32-bit arithmetic. */
  function LastNumber(super: Block): Half {
    (SegmentStart(super) + SegmentSize(super) - 1) % TWO32
  }

  /** What opening looks at: two checksums, and that the block exists. */
  ghost predicate Accepted(blocks: seq<Block>, min: nat) {
    && min < |blocks| && SuperValid(blocks[min])
    && LastNumber(blocks[min]) < |blocks| && LogBlockValid(blocks[LastNumber(blocks[min])])
  }

  lemma LogIsAccepted(blocks: seq<Block>, min: nat)
    requires LogOnDisk(blocks, min)
    ensures Accepted(blocks, min) && LastNumber(blocks[min]) == LastBlock(blocks, min)
  {
    var bs := Segment(blocks, min);
    assert bs[|bs| - 1] == blocks[LastBlock(blocks, min)];
  }

  /** Magic numbers are not looked at: any other magic in the superblock, with its checksum, is accepted as well. */
  lemma MagicIsIgnored(blocks: seq<Block>, min: nat, magic: Half)
    requires Accepted(blocks, min) && LastNumber(blocks[min]) != min
    ensures var super := blocks[min][1 := WithLow(blocks[min][1], magic)];
      Accepted(blocks[min := super[0 := Checksum(super[1..3])]], min)
  {
    var super := blocks[min][1 := WithLow(blocks[min][1], magic)];
    assert super[0 := Checksum(super[1..3])][1..3] == super[1..3];
  }

  /** A block of zeros passes both checksums, but as a superblock it names no block of the device. */
  lemma ZerosAreRejected(blocks: seq<Block>, min: nat)
    requires min < |blocks| < TWO32 && blocks[min] == ZeroBlock()
    ensures SuperValid(blocks[min]) && LogBlockValid(blocks[min]) && !Accepted(blocks, min)
  {
    ChecksumOfZeros(ZeroBlock()[1..3]);
    ChecksumOfZeros(ZeroBlock()[1..LOG_BLOCK_END]);
  }

  // ---------- reading any device ----------

  /** What a reader hands out before it ends, or before a failing runtime invariant ends the process. */
  datatype Reading = Reading(entries: seq<Entry>, dies: bool)

  function Then(e: Entry, rest: Reading): Reading {
    Reading([e] + rest.entries, rest.dies)
  }

  /**
   * Reading on at entry `index` of block `num`, in a segment that ends before block `end`. At the end of a block the
   * next entry is the first of the next block, even if that block is empty.
   */
  function Scan(blocks: seq<Block>, num: nat, index: nat, end: nat): Reading
    requires num < end && num < |blocks|
    decreases end - num, LOG_BLOCK_ENTRY_COUNT - index
  {
    if num == end - 1 && index >= EntryCount(blocks[num]) then Reading([], false)
    else
      var (n, i) := if index == EntryCount(blocks[num]) then (num + 1, 0) else (num, index);
      if !LogBlockValid(blocks[num]) || n >= |blocks| || !LogBlockValid(blocks[n]) || i >= LOG_BLOCK_ENTRY_COUNT
      then Reading([], true)
      else
        Then(EntryAt(blocks[n], i), Scan(blocks, n, i + 1, end))
  }

  /** The entry at hand, or at the front of the next block. */
  lemma ScanStep(blocks: seq<Block>, num: nat, index: nat, n: nat, i: nat, end: nat)
    requires num < end && num < |blocks| && n < end && n < |blocks| && i < LOG_BLOCK_ENTRY_COUNT
    requires if index == EntryCount(blocks[num]) then n == num + 1 && i == 0
             else n == num && i == index && (num == end - 1 ==> index < EntryCount(blocks[num]))
    requires LogBlockValid(blocks[num]) && LogBlockValid(blocks[n])
    ensures Scan(blocks, num, index, end) == Then(EntryAt(blocks[n], i), Scan(blocks, n, i + 1, end))
  {
  }

  function SegmentEnd(super: Block): nat {
    SegmentStart(super) + SegmentSize(super)
  }

  /** Reading from the start of the segment that the superblock names. */
  function LogReading(blocks: seq<Block>, min: nat): Reading
    requires min < |blocks|
  {
    var start := SegmentStart(blocks[min]);
    if start >= SegmentEnd(blocks[min]) then Reading([], false)
    else if start >= |blocks| || !LogBlockValid(blocks[start]) then Reading([], true)
    else Scan(blocks, start, 0, SegmentEnd(blocks[min]))
  }

  /** Reading runs into a later block whose checksum is wrong. */
  lemma {:induction false} ScanDies(blocks: seq<Block>, num: nat, index: nat, bad: nat, end: nat)
    requires num < bad < end && bad < |blocks| && index <= LOG_BLOCK_ENTRY_COUNT && !LogBlockValid(blocks[bad])
    requires forall n :: num <= n < bad ==> LogBlockValid(blocks[n]) && EntryCount(blocks[n]) == LOG_BLOCK_ENTRY_COUNT
    ensures Scan(blocks, num, index, end).dies
    decreases bad - num, LOG_BLOCK_ENTRY_COUNT - index
  {
    if index < LOG_BLOCK_ENTRY_COUNT {
      ScanDies(blocks, num, index + 1, bad, end);
    } else if num + 1 < bad {
      ScanDies(blocks, num + 1, 1, bad, end);
    }
  }

  /**
   * Of a log with one changed word among those the checksums cover, words 0 to 2 of the superblock and words 0 to 510
   * of a log block, opening does not accept the device, or reading it dies.
   */
  lemma CorruptionIsNoticed(blocks: seq<Block>, min: nat, i: nat, j: nat, w: Word)
    requires LogOnDisk(blocks, min) && min <= i <= LastBlock(blocks, min)
    requires j < (if i == min then 3 else 511) && blocks[i][j] != w
    ensures var blocks' := blocks[i := blocks[i][j := w]]; !Accepted(blocks', min) || LogReading(blocks', min).dies
  {
    var blocks' := blocks[i := blocks[i][j := w]];
    SingleWordCorruption(blocks, min, i, j, w);
    LogIsAccepted(blocks, min);
    if min + 1 < i < LastBlock(blocks, min) {
      FullBlocks(blocks, min);
      ScanDies(blocks', min + 1, 0, i, LastBlock(blocks, min) + 1);
    }
  }

  lemma FullBlocks(blocks: seq<Block>, min: nat)
    requires LogOnDisk(blocks, min)
    ensures forall n :: min < n < LastBlock(blocks, min) ==>
              LogBlockValid(blocks[n]) && EntryCount(blocks[n]) == LOG_BLOCK_ENTRY_COUNT
    ensures LogBlockValid(blocks[LastBlock(blocks, min)])
  {
    var bs := Segment(blocks, min);
    assert forall n :: min < n <= LastBlock(blocks, min) ==> blocks[n] == bs[n - min - 1];
  }
}
