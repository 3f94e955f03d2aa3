/**
 * The bytes on the device: where src/db/log_manager.cc (lines 23-79) and src/db/checkpoint_manager.cc (lines 14-18 and
 * 111-123) keep every field, on a machine that stores the lowest octet first.
 */
module DiskBytes {
  import opened Types
  import opened Words
  import opened Devices
  import opened Graphs
  import opened LogLayout
  import opened CheckpointCodec
  import opened Replays

  // ---------- octets of a word ----------

  /** Octet i of a word, the lowest being octet 0. */
  function Octet(w: nat, i: nat): nat {
    if i == 0 then w % 0x100 else Octet(w / 0x100, i - 1)
  }

  /** The number that n octets from octet i on make up, lowest first. */
  function Number(w: nat, i: nat, n: nat): nat
    decreases n, w
  {
    if n == 0 then 0 else Octet(w, i) + 0x100 * Number(w, i + 1, n - 1)
  }

  function Power256(n: nat): (p: nat)
    ensures p > 0
  {
    if n == 0 then 1 else 0x100 * Power256(n - 1)
  }

  lemma {:induction false} NumberShifts(w: nat, i: nat, n: nat)
    ensures Number(w, i + 1, n) == Number(w / 0x100, i, n)
    decreases n
  {
    if n > 0 {
      NumberShifts(w, i + 1, n - 1);
    }
  }

  lemma {:induction false} NumberIsRemainder(w: nat, n: nat)
    ensures Number(w, 0, n) == w % Power256(n)
  {
    if n > 0 {
      NumberShifts(w, 0, n - 1);
      NumberIsRemainder(w / 0x100, n - 1);
      RemainderStep(w, Power256(n - 1));
    }
  }

  lemma RemainderStep(w: nat, p: nat)
    requires p > 0
    ensures w % (0x100 * p) == w % 0x100 + 0x100 * (w / 0x100 % p)
  {
    var q, r := w / 0x100 / p, w / 0x100 % p;
    var d, s := 0x100 * p, w % 0x100 + 0x100 * r;
    assert w / 0x100 == p * q + r && w == 0x100 * (w / 0x100) + w % 0x100;
    assert w == d * q + s && s < d;
    DivisionIs(w, d, q, s);
  }

  lemma Powers()
    ensures Power256(4) == TWO32 && Power256(8) == TWO64
  {
    assert Power256(2) == 0x1_0000;
    assert Power256(4) == 0x1_0000 * Power256(2);
    assert Power256(6) == 0x1_0000 * Power256(4);
    assert Power256(8) == 0x1_0000 * Power256(6);
  }

  lemma WholeNumber(w: Word)
    ensures Number(w, 0, 8) == w
  {
    Powers();
    NumberIsRemainder(w, 8);
  }

  lemma LowNumber(w: Word)
    ensures Number(w, 0, 4) == Low(w)
  {
    Powers();
    NumberIsRemainder(w, 4);
  }

  lemma HighNumber(w: Word)
    ensures Number(w, 4, 4) == High(w)
  {
    FourShifts(w);
    HighQuotient(w);
    LowNumber(High(w));
  }

  lemma FourShifts(w: nat)
    ensures Number(w, 4, 4) == Number(w / 0x100 / 0x100 / 0x100 / 0x100, 0, 4)
  {
    NumberShifts(w, 3, 4);
    NumberShifts(w / 0x100, 2, 4);
    NumberShifts(w / 0x100 / 0x100, 1, 4);
    NumberShifts(w / 0x100 / 0x100 / 0x100, 0, 4);
  }

  lemma HighQuotient(w: Word)
    ensures w / 0x100 / 0x100 / 0x100 / 0x100 == High(w)
  {
  }

  // ---------- octets of a block ----------

  /** The byte at this offset of the block. */
  function ByteAt(b: Block, at: nat): nat
    requires at < 4096
  {
    Octet(b[at / 8], at % 8)
  }

  /** The unsigned number in `size` bytes, lowest first. */
  function NumberAt(b: Block, at: nat, size: nat): nat
    requires at + size <= 4096
    decreases size, b
  {
    if size == 0 then 0 else ByteAt(b, at) + 0x100 * NumberAt(b, at + 1, size - 1)
  }

  lemma {:induction false} NumberInWord(b: Block, at: nat, q: nat, i: nat, n: nat)
    requires at == 8 * q + i && q < BLOCK_WORDS && i + n <= 8
    ensures NumberAt(b, at, n) == Number(b[q], i, n)
    decreases n
  {
    if n > 0 {
      NumberInWord(b, at + 1, q, i + 1, n - 1);
      assert at / 8 == q && at % 8 == i;
    }
  }

  /** A whole word of the block. */
  lemma WordAt(b: Block, at: nat, q: nat)
    requires at == 8 * q && q < BLOCK_WORDS
    ensures NumberAt(b, at, 8) == b[q]
  {
    WholeNumber(b[q]);
    NumberInWord(b, at, q, 0, 8);
  }

  /** Its two halves. */
  lemma LowAt(b: Block, at: nat, q: nat)
    requires at == 8 * q && q < BLOCK_WORDS
    ensures NumberAt(b, at, 4) == Low(b[q])
  {
    LowNumber(b[q]);
    NumberInWord(b, at, q, 0, 4);
  }

  lemma HighAt(b: Block, at: nat, q: nat)
    requires at == 8 * q + 4 && q < BLOCK_WORDS
    ensures NumberAt(b, at, 4) == High(b[q])
  {
    HighNumber(b[q]);
    NumberInWord(b, at, q, 4, 4);
  }

  // ---------- the log ----------

  /** Checksum, magic, generation, start and size of the segment. */
  lemma SuperblockBytes(b: Block)
    ensures SuperValid(b) <==> NumberAt(b, 0, 8) == Checksum(b[1..3])
    ensures Generation(b) == NumberAt(b, 12, 4)
    ensures SegmentStart(b) == NumberAt(b, 16, 4) && SegmentSize(b) == NumberAt(b, 20, 4)
  {
    WordAt(b, 0, 0);
    HighAt(b, 12, 1);
    LowAt(b, 16, 2);
    HighAt(b, 20, 2);
  }

  /** Checksum, magic, generation, number of entries. */
  lemma LogBlockBytes(b: Block)
    ensures LogBlockValid(b) <==> NumberAt(b, 0, 8) == Checksum(b[1..511])
    ensures BlockGeneration(b) == NumberAt(b, 16, 8) && EntryCount(b) == NumberAt(b, 24, 4)
  {
    WordAt(b, 0, 0);
    WordAt(b, 16, 2);
    LowAt(b, 24, 3);
  }

  /**
   * Opening, said in bytes and bits: the superblock exists, and so does the block at start + size - 1 in 32-bit
   * arithmetic, and the first eight bytes of each are the bitwise parity of the words behind them, two words of the
   * superblock and 510 of the log block.
   */
  lemma AcceptedBytes(blocks: seq<Block>, min: nat)
    ensures Accepted(blocks, min) <==>
            && min < |blocks| && IsParity(NumberAt(blocks[min], 0, 8), blocks[min][1..3])
            && var k := (NumberAt(blocks[min], 16, 4) + NumberAt(blocks[min], 20, 4) - 1) % 0x1_0000_0000;
               k < |blocks| && IsParity(NumberAt(blocks[k], 0, 8), blocks[k][1..511])
  {
    if min < |blocks| {
      SuperblockBytes(blocks[min]);
      WordAt(blocks[min], 0, 0);
      ChecksumIsParity(blocks[min][1..3], blocks[min][0]);
      var k := LastNumber(blocks[min]);
      if k < |blocks| {
        WordAt(blocks[k], 0, 0);
        ChecksumIsParity(blocks[k][1..511], blocks[k][0]);
      }
    }
  }

  /** The two's complement of a signed 64-bit number. */
  predicate IsComplement(w: int, id: NodeId) {
    0 <= w < 0x1_0000_0000_0000_0000 && (w - id) % 0x1_0000_0000_0000_0000 == 0
  }

  lemma ComplementIs(w: Word, id: NodeId)
    ensures IsComplement(w, id) <==> w == ToWord(id)
    ensures IsComplement(w, id) <==> id == FromWord(w)
  {
    FromToWord(id);
  }

  /** Entry k takes 24 bytes from byte 32 + 24 * k on: opcode, padding, two signed ids. */
  lemma EntryBytes(b: Block, k: nat)
    requires k < 169
    ensures EntryAt(b, k).opcode == NumberAt(b, 32 + 24 * k, 4)
    ensures IsComplement(NumberAt(b, 40 + 24 * k, 8), EntryAt(b, k).idA)
    ensures IsComplement(NumberAt(b, 48 + 24 * k, 8), EntryAt(b, k).idB)
  {
    LowAt(b, 32 + 24 * k, 4 + 3 * k);
    WordAt(b, 40 + 24 * k, 5 + 3 * k);
    WordAt(b, 48 + 24 * k, 6 + 3 * k);
    ComplementIs(b[5 + 3 * k], EntryAt(b, k).idA);
    ComplementIs(b[6 + 3 * k], EntryAt(b, k).idB);
  }

  /** The number of an operation in the log, by its place in the enumeration of src/db/log_manager.h. */
  function NumberOf(op: Op): nat {
    match op
    case AddNode(_) => 0
    case AddEdge(_, _) => 1
    case AddEdgePart(_, _) => 2
    case RemoveNode(_) => 3
    case RemoveEdge(_, _) => 4
    case RemoveEdgePart(_, _) => 5
  }

  function FirstId(op: Op): NodeId {
    match op
    case AddNode(id) => id
    case RemoveNode(id) => id
    case AddEdge(a, _) => a
    case RemoveEdge(a, _) => a
    case AddEdgePart(local, _) => local
    case RemoveEdgePart(local, _) => local
  }

  function SecondId(op: Op): NodeId {
    match op
    case AddNode(_) => 0
    case RemoveNode(_) => 0
    case AddEdge(_, b) => b
    case RemoveEdge(_, b) => b
    case AddEdgePart(_, remote) => remote
    case RemoveEdgePart(_, remote) => remote
  }

  /** Logging an operation: the count goes up by one, and these bytes are written in the next slot. */
  lemma LoggedBytes(b: Block, op: Op)
    requires EntryCount(b) < LOG_BLOCK_ENTRY_COUNT
    ensures var c, n := Sealed(WithEntry(b, EntryOf(op))), NumberAt(b, 24, 4);
      && n < 169 && NumberAt(c, 24, 4) == n + 1
      && NumberAt(c, 32 + 24 * n, 4) == NumberOf(op)
      && IsComplement(NumberAt(c, 40 + 24 * n, 8), FirstId(op))
      && IsComplement(NumberAt(c, 48 + 24 * n, 8), SecondId(op))
  {
    var c, n := Sealed(WithEntry(b, EntryOf(op))), EntryCount(b);
    LogBlockBytes(b);
    LogBlockBytes(c);
    WithEntryAppends(b, EntryOf(op));
    EntryBytes(c, n);
    assert |BlockEntries(c)| == EntryCount(c) && |BlockEntries(b)| == n;
    assert BlockEntries(c)[n] == EntryAt(c, n);
  }

  // ---------- the checkpoint ----------

  /** The flag is a byte, behind it the version and the number of nodes. */
  lemma CheckpointBytes(b: Block)
    ensures Flag(b[0]) <==> ByteAt(b, 0) != 0
    ensures b[1] == NumberAt(b, 8, 8) && b[2] == NumberAt(b, 16, 8)
  {
    WordAt(b, 8, 1);
    WordAt(b, 16, 2);
  }

  /** A record is the id of the node, the number of its edges, and their ids. */
  lemma RecordWords(r: Record)
    requires |r.edges| < TWO64
    ensures |Encode(r)| == 2 + |r.edges|
    ensures IsComplement(Encode(r)[0], r.id) && Encode(r)[1] == |r.edges|
    ensures forall i :: 0 <= i < |r.edges| ==> IsComplement(Encode(r)[2 + i], r.edges[i])
  {
    ComplementIs(ToWord(r.id), r.id);
    forall i | 0 <= i < |r.edges|
      ensures IsComplement(Encode(r)[2 + i], r.edges[i])
    {
      assert Encode(r)[2 + i] == WordsOf(r.edges)[i];
      ComplementIs(ToWord(r.edges[i]), r.edges[i]);
    }
  }
}
