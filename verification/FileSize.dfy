/** How many blocks a file of a given size has, and how many the file system thinks
    it has. */
module FileSize {
  import opened Blocks
  import opened Tree
  import opened Growth

  function DataBlocks(size: nat): nat {
    (size + BLOCK_SIZE - 1) / BLOCK_SIZE
  }

  /** As many blocks as it takes and no more. */
  lemma DataBlocksIs(size: nat)
    ensures 4096 * DataBlocks(size) - 4096 < size <= 4096 * DataBlocks(size)
  {}

  /** Fewer bytes, no more blocks. */
  lemma BlocksMonotone(a: nat, b: nat)
    requires a <= b
    ensures DataBlocks(a) <= DataBlocks(b)
  {}

  /** The block count that resize compares and directory scans use. */
  function TotalBlocks(size: nat): nat {
    var data := DataBlocks(size);
    if data < DIRECT then data
    else if data - DIRECT < WORDS then data + 1
    else
      var rest := data - DIRECT - WORDS;
      data + 2 + (rest + WORDS - 1) / WORDS
  }

  /** The count is right except at exactly 23 and 1047 data blocks, where it counts an
      index block that the file does not have. */
  lemma TotalBlocksExact(size: nat)
    ensures TotalBlocks(size) == NodeCount(DataBlocks(size)) <==> DataBlocks(size) != 23 && DataBlocks(size) != 1047
    ensures DataBlocks(size) == 23 || DataBlocks(size) == 1047 ==>
      TotalBlocks(size) == NodeCount(DataBlocks(size)) + 1
  {}

  lemma {:induction false} TotalBlocksStep(a: nat, b: nat)
    requires DataBlocks(a) < DataBlocks(b)
    ensures TotalBlocks(a) < TotalBlocks(b)
  {}

  /** Comparing total counts is comparing data block counts, so resize always takes
      the right branch; and the difference is at least that of the data blocks. */
  lemma TotalBlocksOrder(a: nat, b: nat)
    ensures TotalBlocks(a) < TotalBlocks(b) <==> DataBlocks(a) < DataBlocks(b)
    ensures TotalBlocks(a) == TotalBlocks(b) <==> DataBlocks(a) == DataBlocks(b)
    ensures DataBlocks(a) <= DataBlocks(b) ==> TotalBlocks(b) - TotalBlocks(a) >= DataBlocks(b) - DataBlocks(a)
  {
    if DataBlocks(a) < DataBlocks(b) {
      TotalBlocksStep(a, b);
    } else if DataBlocks(b) < DataBlocks(a) {
      TotalBlocksStep(b, a);
    }
  }

  /** No 32-bit size needs a position the tree does not have. */
  lemma SizeFits(size: Word)
    ensures DataBlocks(size) <= 0x10_0000 < MAX_BLOCKS
  {}

  /** What is left of the total when data blocks and two index blocks are taken off. */
  lemma RestIsSeconds(size: nat)
    ensures DataBlocks(size) > SINGLE ==> TotalBlocks(size) - DataBlocks(size) - 2 == Seconds(DataBlocks(size))
  {}
}
