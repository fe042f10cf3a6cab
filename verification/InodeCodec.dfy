/** The on-disk form of an inode: 32 words, 32 inodes to a block. */
module InodeCodec {
  import opened Blocks
  import opened Tree

  const INODE_WORDS: nat := 32
  const INODES_IN_BLOCK: nat := 32
  const FILE: Word := 0
  const DIRECTORY: Word := 1

  type Half = x: int | 0 <= x < 0x1_0000

  /** stamps are the three times, owner the user and group ids: carried, not interpreted. */
  datatype InodeRec = InodeRec(size: Word, stamps: seq<Word>, owner: Word, links: Half, mode: Half, root: Root,
    kind: Word) {
    ghost predicate Ok() {
      |stamps| == 3 && |root.direct| == DIRECT
    }
  }

  /** Where an inode is kept: a block and a slot in it. */
  datatype Position = Position(block: nat, slot: nat)

  function Encode(r: InodeRec): (ws: seq<Word>)
    requires r.Ok()
    ensures |ws| == INODE_WORDS
  {
    [r.size] + r.stamps + [r.owner, r.links + 0x1_0000 * r.mode] + r.root.direct +
      [r.root.indirect1, r.root.indirect2, r.kind]
  }

  function Decode(ws: seq<Word>): (r: InodeRec)
    requires |ws| == INODE_WORDS
    ensures r.Ok()
  {
    InodeRec(ws[0], ws[1..4], ws[4], ws[5] % 0x1_0000, ws[5] / 0x1_0000, Root(ws[6..29], ws[29], ws[30]), ws[31])
  }

  lemma DecodeEncode(r: InodeRec)
    requires r.Ok()
    ensures Decode(Encode(r)) == r
  {
    var ws := Encode(r);
    assert ws[1..4] == r.stamps;
    assert ws[6..29] == r.root.direct;
  }

  /** Copying words into a block, from word k on. */
  function PutWords(b: Block, k: nat, ws: seq<Word>): Block
    requires k + |ws| <= WORDS
    decreases |ws|
  {
    if ws == [] then b else PutWords(SetWord(b, k, ws[0]), k + 1, ws[1..])
  }

  function GetWords(b: Block, k: nat, n: nat): (ws: seq<Word>)
    requires k + n <= WORDS
    ensures |ws| == n
    ensures forall i | 0 <= i < n :: ws[i] == GetWord(b, k + i)
    decreases n
  {
    if n == 0 then [] else [GetWord(b, k)] + GetWords(b, k + 1, n - 1)
  }

  lemma {:induction false} PutWordsGet(b: Block, k: nat, ws: seq<Word>, j: nat)
    requires k + |ws| <= WORDS && j < WORDS
    ensures GetWord(PutWords(b, k, ws), j) == if k <= j < k + |ws| then ws[j - k] else GetWord(b, j)
    decreases |ws|
  {
    hide GetWord, SetWord;
    if ws != [] {
      PutWordsGet(SetWord(b, k, ws[0]), k + 1, ws[1..], j);
      SetWordGet(b, k, ws[0], j);
    }
  }

  function PutInode(b: Block, slot: nat, r: InodeRec): Block
    requires slot < INODES_IN_BLOCK && r.Ok()
  {
    PutWords(b, slot * INODE_WORDS, Encode(r))
  }

  function GetInode(b: Block, slot: nat): (r: InodeRec)
    requires slot < INODES_IN_BLOCK
    ensures r.Ok()
  {
    Decode(GetWords(b, slot * INODE_WORDS, INODE_WORDS))
  }

  /** An inode written is the inode read, and the others in the block are as before. */
  lemma PutInodeGet(b: Block, slot: nat, r: InodeRec, other: nat)
    requires slot < INODES_IN_BLOCK && other < INODES_IN_BLOCK && r.Ok()
    ensures GetInode(PutInode(b, slot, r), other) == if other == slot then r else GetInode(b, other)
  {
    hide GetWord, GetWords, Encode, Decode, PutWords;
    var b', ws := PutInode(b, slot, r), Encode(r);
    var now, before := GetWords(b', other * INODE_WORDS, INODE_WORDS), GetWords(b, other * INODE_WORDS, INODE_WORDS);
    forall i | 0 <= i < INODE_WORDS
      ensures now[i] == if other == slot then ws[i] else before[i]
    {
      var j := other * INODE_WORDS + i;
      PutWordsGet(b, slot * INODE_WORDS, ws, j);
      assert now[i] == GetWord(b', j) && before[i] == GetWord(b, j);
    }
    if other == slot {
      assert now == ws;
    } else {
      assert now == before;
    }
    DecodeEncode(r);
  }

  /** Where the fields of an inode are: 32 words from 128 times the slot on, the size
      first, the pointers from the seventh word, the type last. */
  lemma InodeAt(b: Block, slot: nat)
    requires slot < INODES_IN_BLOCK
    ensures 32 * slot + 31 < 1024 && FILE == 0 && DIRECTORY == 1
    ensures var r, o := GetInode(b, slot), 32 * slot;
      && r.size == GetWord(b, o) && |r.stamps| == 3 && r.owner == GetWord(b, o + 4)
      && (forall i | 0 <= i < 3 :: r.stamps[i] == GetWord(b, o + 1 + i))
      && r.links as int + 0x1_0000 * (r.mode as int) == GetWord(b, o + 5)
      && |r.root.direct| == 23 && (forall i | 0 <= i < 23 :: r.root.direct[i] == GetWord(b, o + 6 + i))
      && r.root.indirect1 == GetWord(b, o + 29) && r.root.indirect2 == GetWord(b, o + 30)
      && r.kind == GetWord(b, o + 31)
  {
    hide GetWord, GetWords;
    var o := 32 * slot;
    var ws := GetWords(b, slot * INODE_WORDS, INODE_WORDS);
    assert forall i | 0 <= i < 32 :: ws[i] == GetWord(b, o + i);
    assert forall i | 0 <= i < 3 :: ws[1..4][i] == ws[1 + i];
    assert forall i | 0 <= i < 23 :: ws[6..29][i] == ws[6 + i];
  }
}
