/** The block device behind the buffer manager (src/io/buffer_manager.cc, src/platform_params.h). */
module Devices {
  import opened Words

  /** 4096 bytes are 512 words. */
  const BLOCK_WORDS: int := 512

  type Block = b: seq<Word> | |b| == BLOCK_WORDS witness ZeroBlock()

  function ZeroBlock(): (b: seq<Word>)
    ensures |b| == BLOCK_WORDS && forall i :: 0 <= i < |b| ==> b[i] == 0
  {
    seq(BLOCK_WORDS, i => 0)
  }

  class BlockDevice {
    var blocks: seq<Block>

    /** A fresh buffer holding the block, or zeros; null stands for NO_SPACE. */
    method Get(blockNum: nat, zeroed: bool) returns (buffer: array?<Word>)
      ensures buffer == null <==> blockNum >= |blocks|
      ensures buffer != null ==> fresh(buffer) && buffer.Length == BLOCK_WORDS
      ensures buffer != null ==> buffer[..] == if zeroed then ZeroBlock() else blocks[blockNum]
    {
      if blockNum >= |blocks| {
        return null;
      }
      ghost var content := if zeroed then ZeroBlock() else blocks[blockNum];
      buffer := new Word[BLOCK_WORDS](i requires 0 <= i < BLOCK_WORDS && blockNum < |blocks| reads this =>
        if zeroed then 0 else blocks[blockNum][i]);
      assert buffer[..] == content;
    }

    /** Writing is only possible to a block that exists. */
    method Write(blockNum: nat, buffer: array<Word>)
      requires blockNum < |blocks| && buffer.Length == BLOCK_WORDS
      modifies this
      ensures blocks == old(blocks)[blockNum := buffer[..]]
    {
      blocks := blocks[blockNum := buffer[..]];
    }
  }
}
