/** The sizes of the file system and the block: 4096 bytes, seen also as 1024
    little-endian 32-bit words (indexes) or 512 64-bit words (bitmaps). */
module Blocks {

  const BLOCK_SIZE: nat := 4096
  const WORDS: nat := 1024          // 32-bit words in a block
  const LONGS: nat := 512           // 64-bit words in a block
  const U32: nat := 0x1_0000_0000
  const U64: nat := 0x1_0000_0000_0000_0000
  const I31: int := 0x8000_0000     // the first number that is no int
  const FAIL: nat := 0xFFFF_FFFF    // kFail seen as a block id

  type byte = x: int | 0 <= x < 256
  type Block = b: seq<byte> | |b| == 4096 witness seq(4096, _ => 0)
  type Word = x: int | 0 <= x < 0x1_0000_0000
  type Long = x: int | 0 <= x < 0x1_0000_0000_0000_0000

  /** The 32-bit word at index i. */
  function GetWord(b: Block, i: nat): Word
    requires i < WORDS
  {
    var b0: int, b1: int, b2: int, b3: int := b[4 * i], b[4 * i + 1], b[4 * i + 2], b[4 * i + 3];
    b0 + 0x100 * b1 + 0x1_0000 * b2 + 0x100_0000 * b3
  }

  /** The block after the assignment of w to its i-th word. */
  function SetWord(b: Block, i: nat, w: Word): Block
    requires i < WORDS
  {
    b[4 * i := w % 0x100]
     [4 * i + 1 := w / 0x100 % 0x100]
     [4 * i + 2 := w / 0x1_0000 % 0x100]
     [4 * i + 3 := w / 0x100_0000]
  }

  lemma SplitWord(w: Word)
    ensures w ==
      w % 0x100 + 0x100 * (w / 0x100 % 0x100) + 0x1_0000 * (w / 0x1_0000 % 0x100) + 0x100_0000 * (w / 0x100_0000)
  {
    assert w / 0x100 / 0x100 == w / 0x1_0000;
    assert w / 0x1_0000 / 0x100 == w / 0x100_0000;
  }

  /** The bytes of a word, low byte first. */
  lemma BytesOfWord(b: Block, i: nat)
    requires i < WORDS
    ensures 4 * i + 3 < 4096
    ensures b[4 * i] as int == GetWord(b, i) % 0x100 && b[4 * i + 1] as int == GetWord(b, i) / 0x100 % 0x100
    ensures b[4 * i + 2] as int == GetWord(b, i) / 0x1_0000 % 0x100 && b[4 * i + 3] as int == GetWord(b, i) / 0x100_0000
  {
    var b0: int, b1: int, b2: int, b3: int := b[4 * i], b[4 * i + 1], b[4 * i + 2], b[4 * i + 3];
    var w := GetWord(b, i);
    assert w / 0x100 == b1 + 0x100 * b2 + 0x1_0000 * b3;
    assert w / 0x1_0000 == b2 + 0x100 * b3;
  }

  /** A word written is the word read, and every other word is as before. */
  lemma SetWordGet(b: Block, i: nat, w: Word, j: nat)
    requires i < WORDS && j < WORDS
    ensures GetWord(SetWord(b, i, w), j) == if i == j then w else GetWord(b, j)
  {
    if i == j {
      SplitWord(w);
    }
  }

  lemma SetWordGetAll(b: Block, i: nat, w: Word)
    requires i < WORDS
    ensures forall j: nat | j < WORDS :: GetWord(SetWord(b, i, w), j) == if i == j then w else GetWord(b, j)
  {
    forall j: nat | j < WORDS
      ensures GetWord(SetWord(b, i, w), j) == if i == j then w else GetWord(b, j)
    {
      SetWordGet(b, i, w, j);
    }
  }

  /** Writing back the word that was there restores the block. */
  lemma SetWordBack(b: Block, i: nat, w: Word)
    requires i < WORDS
    ensures SetWord(SetWord(b, i, w), i, GetWord(b, i)) == b
  {
    hide GetWord;
    BytesOfWord(b, i);
  }

  /** The order in which two words are written does not matter. */
  lemma SetWordSwap(b: Block, i: nat, v: Word, j: nat, w: Word)
    requires i < WORDS && j < WORDS && i != j
    ensures SetWord(SetWord(b, i, v), j, w) == SetWord(SetWord(b, j, w), i, v)
  {}

  /** The 64-bit word at index j. */
  function GetLong(b: Block, j: nat): Long
    requires j < LONGS
  {
    GetWord(b, 2 * j) + U32 * GetWord(b, 2 * j + 1)
  }

  function SetLong(b: Block, j: nat, x: Long): Block
    requires j < LONGS
  {
    SetWord(SetWord(b, 2 * j, x % U32), 2 * j + 1, x / U32)
  }

  lemma SetLongGet(b: Block, i: nat, x: Long, j: nat)
    requires i < LONGS && j < LONGS
    ensures GetLong(SetLong(b, i, x), j) == if i == j then x else GetLong(b, j)
  {
    hide GetWord, SetWord;
    var c := SetWord(b, 2 * i, x % U32);
    SetWordGet(b, 2 * i, x % U32, 2 * j);
    SetWordGet(b, 2 * i, x % U32, 2 * j + 1);
    SetWordGet(c, 2 * i + 1, x / U32, 2 * j);
    SetWordGet(c, 2 * i + 1, x / U32, 2 * j + 1);
  }

  lemma SetLongBack(b: Block, i: nat, x: Long)
    requires i < LONGS
    ensures SetLong(SetLong(b, i, x), i, GetLong(b, i)) == b
  {
    hide GetWord, SetWord;
    var lo, hi, v := x % U32, x / U32, GetLong(b, i);
    var c := SetWord(b, 2 * i, lo);
    assert v % U32 == GetWord(b, 2 * i) && v / U32 == GetWord(b, 2 * i + 1);
    SetWordSwap(c, 2 * i + 1, hi, 2 * i, v % U32);
    SetWordBack(b, 2 * i, lo);
    SetWordBack(b, 2 * i + 1, hi);
  }

  /** Overwriting part of a block (memcpy into a block buffer). */
  function Patch(b: Block, off: nat, d: seq<byte>): Block
    requires off + |d| <= BLOCK_SIZE
  {
    b[..off] + d + b[off + |d|..]
  }
}
