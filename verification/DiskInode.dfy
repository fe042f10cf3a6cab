/** A file or directory on disk: its size and the roots of its block tree. */
module Inodes {
  import opened Blocks
  import opened BitmapModel
  import opened Tree
  import opened Growth
  import opened Shrinkage
  import opened CacheModel
  import opened Device
  import opened InodeCodec
  import opened FileSize
  import opened FileBytes
  import opened Wrappers
  import Bitmaps

  function Min(a: int, b: int): int { if a < b then a else b }
  function Max(a: int, b: int): int { if a > b then a else b }

  /** Takes the ids in the entries from..to of an index buffer, whose entry j is that
      of data block base + j, and overwrites them with -1. */
  method Collect(buf0: Block, base: nat, from: int, to: int, ids0: seq<int>, ghost m: map<Node, int>,
          ghost d0: map<Node, int>)
    returns (buf: Block, ids: seq<int>, ghost d: map<Node, int>)
    requires 0 <= from && Collected(ids0, d0, m) && Feeds(buf0, base, from, to, m, d0)
    ensures Collected(ids, d, m)
    ensures forall x :: x in d <==> x in d0 || (x.Data? && base + from <= x.i < base + to)
    ensures forall k: nat | k < WORDS ::
      GetWord(buf, k) == if from <= k < to then 0xFFFF_FFFF else GetWord(buf0, k)
  {
    hide GetWord, SetWord, Collected;
    buf, ids, d := buf0, ids0, d0;
    var j := from;
    while j < to
      invariant from <= j <= Max(from, to) && Collected(ids, d, m)
      invariant forall x :: x in d <==> x in d0 || (x.Data? && base + from <= x.i < base + j)
      invariant forall k: nat | k < WORDS ::
        GetWord(buf, k) == if from <= k < j then 0xFFFF_FFFF else GetWord(buf0, k)
    {
      assert GetWord(buf, j) == GetWord(buf0, j);
      Collect1(ids, d, m, Data(base + j));
      SetWordGetAll(buf, j, FAIL);
      ids := ids + [GetWord(buf, j)];
      d := d[Data(base + j) := m[Data(base + j)]];
      buf := SetWord(buf, j, FAIL);
      j := j + 1;
    }
  }

  /** The ids collected by a shrink are given back, one bitmap write each; whatever
      else is in use stays so after every one of them. */
  method FreeAll(ids: seq<int>, dev: BlockDevice, bm: Area, ghost keep: set<int>)
    requires dev.Valid() && bm.Fits(dev.View()) && (forall id | id in ids :: bm.Manages(id))
    requires keep <= Used(bm, dev.View()) && keep !! SetOf(ids)
    modifies dev, dev.disk, dev.cache
    ensures dev.Valid() && bm.Fits(dev.View()) && SameOutside(bm, old(dev.View()), dev.View())
    ensures Used(bm, dev.View()) == old(Used(bm, dev.View())) - SetOf(ids)
    ensures |old(dev.history)| <= |dev.history| && old(dev.history) == dev.history[..|old(dev.history)|]
    ensures Covers(dev.history, |old(dev.history)|, bm, keep)
  {
    hide BlockDevice.Valid, Used, Unmarked, Area.Fits, Area.Limit;
    ghost var h := |dev.history|;
    var k := 0;
    while k < |ids|
      invariant 0 <= k <= |ids|
      invariant dev.Valid() && bm.Fits(dev.View()) && SameOutside(bm, old(dev.View()), dev.View())
      invariant Used(bm, dev.View()) == old(Used(bm, dev.View())) - SetOf(ids[..k])
      invariant h <= |dev.history| && dev.history[..h] == old(dev.history)
      invariant Covers(dev.history, h, bm, keep)
    {
      UnmarkedUsed(bm, dev.View(), ids[k]);
      FitsSame(bm, dev.View());
      assert SetOf(ids[..k + 1]) == SetOf(ids[..k]) + {ids[k]};
      assert ids[k] in SetOf(ids);
      Bitmaps.Free(bm, ids[k], dev);
      k := k + 1;
    }
    assert ids[..k] == ids;
  }

  /** The device block that the source's shrink overwrites by mistake: the number of
      the last second-level index block that stays, taken as a block id. */
  function Stray(newData: int, repaired: bool): int {
    if !repaired && newData > SINGLE then (newData - SINGLE - 1) / WORDS else -1
  }

  /** The same when a file of one size gets another: there is one in a shrink alone. */
  function StrayOf(size0: nat, size: nat, repaired: bool): int {
    if DataBlocks(size) < DataBlocks(size0) then Stray(DataBlocks(size), repaired) else -1
  }

  lemma StrayIs(size0: nat, size: nat, n: nat)
    ensures Stray(n, true) == -1 && Stray(n, false) == if n <= 1047 then -1 else (n - 1048) / 1024
    ensures StrayOf(size0, size, true) == -1
    ensures StrayOf(size0, size, false) ==
      if (size + 4095) / 4096 < (size0 + 4095) / 4096 && size > 1047 * 4096 then ((size + 4095) / 4096 - 1048) / 1024
      else -1
  {}

  /** What is left of a block of inodes that the stray write has hit when one of its
      inodes has been written again: the words of the others, as far as the buffer had
      pointers, are numbers of data blocks. */
  ghost predicate Overwritten(b: Block, slot: nat, m: map<Node, int>, i: nat, from: int) {
    from <= WORDS && forall j: nat {:trigger GetWord(b, j)} | j < from && j / INODE_WORDS != slot ::
      PointerOf(m, Data(SINGLE + WORDS * i + j), GetWord(b, j))
  }

  lemma OverwrittenBy(s: seq<Block>, slot: nat, r: InodeRec, m: map<Node, int>, i: nat, from: int)
    requires ClobberedBy(s, m, i, from) && slot < INODES_IN_BLOCK && r.Ok()
    ensures i < |s| && GetInode(PutInode(s[i], slot, r), slot) == r
    ensures Overwritten(PutInode(s[i], slot, r), slot, m, i, from)
  {
    hide GetWord, Encode, PutWords, GetInode, PointerOf;
    PutInodeGet(s[i], slot, r, slot);
    forall j: nat | j < from && j / INODE_WORDS != slot
      ensures PointerOf(m, Data(SINGLE + WORDS * i + j), GetWord(PutInode(s[i], slot, r), j))
    {
      PutWordsGet(s[i], slot * INODE_WORDS, Encode(r), j);
    }
  }

  /** The first k bytes of buf are those of c from l on, the others those of buf0. */
  ghost predicate Copied(buf: seq<byte>, buf0: seq<byte>, c: seq<byte>, l: nat, k: int) {
    && |buf| == |buf0| && 0 <= k <= |buf| && l + k <= |c|
    && forall j | 0 <= j < |buf| :: buf[j] == if j < k then c[l + j] else buf0[j]
  }

  lemma CopiedNone(buf0: seq<byte>, c: seq<byte>, l: nat)
    requires l <= |c|
    ensures Copied(buf0, buf0, c, l, 0)
  {}

  lemma CopiedNext(buf: seq<byte>, buf0: seq<byte>, c: seq<byte>, l: nat, k: nat, m: nat)
    requires Copied(buf, buf0, c, l, k) && l + k + m <= |c| && k + m <= |buf|
    ensures Copied(Splice(buf, k, c[l + k..l + k + m]), buf0, c, l, k + m)
  {}

  lemma CopiedDone(buf: seq<byte>, buf0: seq<byte>, c: seq<byte>, l: nat, k: nat)
    requires Copied(buf, buf0, c, l, k)
    ensures k <= |buf0| && l + k <= |c| && buf == c[l..l + k] + buf0[k..]
  {}

  /** memcpy into a buffer. */
  function Splice(buf: seq<byte>, at: nat, d: seq<byte>): (r: seq<byte>)
    requires at + |d| <= |buf|
    ensures |r| == |buf|
  {
    buf[..at] + d + buf[at + |d|..]
  }

  /** What is asked of a reader or writer: below 2 GiB the end is not so far that 32 bits
      do not hold it. (The length is then 2 GiB or more, and the code can come to copy a
      negative number of bytes.) */
  predicate Addressable(offset: Word, len: Word, size: Word) {
    offset <= size && offset < I31 ==> offset + len < U32 || (offset + len) % U32 >= size
  }

  /** There are ids for the blocks that a file of one size lacks at another. */
  ghost predicate GrowthFits(bm: Area, s: seq<Block>, size0: nat, size: nat)
    requires bm.Fits(s)
  {
    || DataBlocks(size) <= DataBlocks(size0)
    || |Used(bm, s)| + NodeCount(DataBlocks(size)) - NodeCount(DataBlocks(size0)) <= bm.num * BLOCK_BITS
  }

  /** That is, the ids free are as many as the blocks lacking. */
  lemma GrowthFitsIs(bm: Area, s: seq<Block>, size0: nat, size: nat)
    requires bm.Fits(s)
    ensures GrowthFits(bm, s, size0, size) <==>
      || (size + 4095) / 4096 <= (size0 + 4095) / 4096
      || |Used(bm, s)| + |Nodes((size + 4095) / 4096)| - |Nodes((size0 + 4095) / 4096)| <= bm.num * 32768
  {
    hide Used, NodeCount, Nodes;
    NodesCount(DataBlocks(size));
    NodesCount(DataBlocks(size0));
  }

  function BlockOf(pos: Option<Position>): int {
    if pos.Some? then pos.value.block else -1
  }

  /** All blocks of a tree are in the cache. */
  ghost predicate Held(m: map<Node, int>, table: map<int, int>) {
    forall x | x in m :: m[x] in table
  }

  lemma HeldWalk(bm: Area, t: Root, s: seq<Block>, n: nat, i: nat, table: map<int, int>)
    requires FileOk(bm, t, s, n) && i < n && Held(TreeOf(t, s, n), table)
    ensures |t.direct| == DIRECT && (i < DIRECT ==> t.direct[i] as int in table)
    ensures DIRECT <= i < SINGLE ==> t.indirect1 as int in table
    ensures SINGLE <= i ==>
      && t.indirect2 as int in table && t.indirect2 as int < |s| && (i - SINGLE) / WORDS < WORDS
      && GetWord(s[t.indirect2], (i - SINGLE) / WORDS) as int in table
    ensures Id(t, s, Data(i)) in table
  {
    hide GetWord, Used;
    WalkFacts(bm, t, s, n, i);
    var m := TreeOf(t, s, n);
    assert Points(t, s, m, Data(i));
    if i >= DIRECT {
      assert Points(t, s, m, Parent(Data(i)));
      if i >= SINGLE { assert Points(t, s, m, Ind2); }
    }
  }

  /** The first n data blocks are on disk. */
  ghost predicate DataSynced(m: map<Node, int>, d: seq<Block>, view: seq<Block>, n: nat) {
    forall k: nat {:trigger Data(k)} | k < n :: Data(k) in m && OnDisk(d, view, m[Data(k)])
  }

  lemma NoneSynced(m: map<Node, int>, d: seq<Block>, view: seq<Block>)
    ensures DataSynced(m, d, view, 0) && OnlyData(m, d, d)
  {}

  lemma SyncedStill(m: map<Node, int>, d: seq<Block>, d': seq<Block>, view: seq<Block>, n: nat)
    requires DataSynced(m, d, view, n) && Towards(d, d', view)
    ensures DataSynced(m, d', view, n)
  {
    hide OnDisk, Towards;
    forall k: nat {:trigger Data(k)} | k < n
      ensures Data(k) in m && OnDisk(d', view, m[Data(k)])
    {
      StaysOnDisk(d, d', view, m[Data(k)]);
    }
  }

  lemma SyncedNext(m: map<Node, int>, d0: seq<Block>, d: seq<Block>, d': seq<Block>, view: seq<Block>, n: nat)
    requires DataSynced(m, d, view, n) && Data(n) in m && 0 <= m[Data(n)] < |d| && m[Data(n)] < |view|
    requires OnDisk(d', view, m[Data(n)]) && d' == d[m[Data(n)] := view[m[Data(n)]]]
    requires forall b :: OnDisk(d, view, b) ==> OnDisk(d', view, b)
    ensures DataSynced(m, d', view, n + 1)
    ensures OnlyData(m, d0, d) ==> OnlyData(m, d0, d')
  {
    assert IsData(m, m[Data(n)]);
  }

  lemma AllSynced(m: map<Node, int>, d: seq<Block>, view: seq<Block>, n: nat)
    requires DataSynced(m, d, view, n) && forall x | x in m && x.Data? :: x.i < n
    ensures forall x | x in m && x.Data? :: OnDisk(d, view, m[x])
  {}

  /** What was on disk is. */
  ghost predicate StillOnDisk(d0: seq<Block>, d: seq<Block>, view: seq<Block>) {
    forall b :: OnDisk(d0, view, b) ==> OnDisk(d, view, b)
  }

  lemma StillTowards(d0: seq<Block>, d: seq<Block>, view: seq<Block>)
    requires Towards(d0, d, view)
    ensures StillOnDisk(d0, d, view)
  {
    hide OnDisk, Towards;
    forall b | OnDisk(d0, view, b)
      ensures OnDisk(d, view, b)
    {
      StaysOnDisk(d0, d, view, b);
    }
  }

  lemma StillNext(d0: seq<Block>, d: seq<Block>, d': seq<Block>, view: seq<Block>)
    requires StillOnDisk(d0, d, view) && forall b :: OnDisk(d, view, b) ==> OnDisk(d', view, b)
    ensures StillOnDisk(d0, d', view)
  {}

  /** The first n second-level index blocks are on disk. */
  ghost predicate SecondsSynced(m: map<Node, int>, d: seq<Block>, view: seq<Block>, n: nat) {
    forall k: nat {:trigger Second(k)} | k < n :: Second(k) in m && OnDisk(d, view, m[Second(k)])
  }

  lemma NoSeconds(m: map<Node, int>, d: seq<Block>, view: seq<Block>)
    ensures SecondsSynced(m, d, view, 0)
  {}

  lemma SecondSynced(m: map<Node, int>, d: seq<Block>, d': seq<Block>, view: seq<Block>, n: nat)
    requires SecondsSynced(m, d, view, n) && Second(n) in m && OnDisk(d', view, m[Second(n)])
    requires forall b :: OnDisk(d, view, b) ==> OnDisk(d', view, b)
    ensures SecondsSynced(m, d', view, n + 1)
  {
    hide OnDisk;
  }

  lemma AllSeconds(m: map<Node, int>, d: seq<Block>, d': seq<Block>, view: seq<Block>, n: nat)
    requires SecondsSynced(m, d, view, n) && (forall b: nat | Second(b) in m :: b < n)
    requires forall b :: OnDisk(d, view, b) ==> OnDisk(d', view, b)
    ensures forall x | x in m && x.Second? :: OnDisk(d', view, m[x])
  {
    hide OnDisk;
  }

  lemma HeldIndex(m: map<Node, int>, table: map<int, int>)
    ensures Held(m, table) ==> forall x | x in m :: m[x] in table
  {}

  lemma SpliceNone(buf: seq<byte>, at: nat)
    requires at <= |buf|
    ensures Splice(buf, at, []) == buf
  {}

  lemma PatchNone(b: Block, a: nat, buf: seq<byte>, at: nat)
    requires a <= BLOCK_SIZE && at <= |buf|
    ensures Patch(b, a, buf[at..at]) == b
  {}

  /** The ends of a read or write, as the code's ints. */
  lemma IntEnds(offset: Word, len: Word, size: Word)
    requires offset <= size && (offset < I31 ==> len <= size - offset)
    ensures var l, r := AsInt(offset), AsInt((offset + len) % U32);
      && -I31 <= l < I31 && -I31 <= r < I31
      && (offset >= I31 <==> l < 0)
      && (0 <= l ==> l == offset && MovedBytes(offset, len) <= len)
      && (0 <= l && 0 <= r ==> r == offset + len && MovedBytes(offset, len) == len && AsInt(len) == len)
      && (0 <= l && 0 <= r && l / BLOCK_SIZE != r / BLOCK_SIZE ==> l / BLOCK_SIZE < r / BLOCK_SIZE)
      && (r < 0 <= l ==> r == offset + len - U32 && (l / BLOCK_SIZE + 1) * BLOCK_SIZE <= size)
      && (r < 0 <= l ==> MovedBytes(offset, len) == BLOCK_SIZE - l % BLOCK_SIZE <= len - r % BLOCK_SIZE)
      && (r < 0 <= l ==> r % BLOCK_SIZE == (offset + len) % BLOCK_SIZE)
  {}

  /** A range in one block. Its block is the file's, or the first one after the file if
      the range is empty and at the end, or beyond any file. */
  lemma InOneBlock(offset: Word, len: Word, size: Word)
    requires offset <= size && (offset < I31 ==> len <= size - offset)
    requires AsInt(offset) / BLOCK_SIZE == AsInt((offset + len) % U32) / BLOCK_SIZE
    ensures var l, r := AsInt(offset), AsInt((offset + len) % U32); var inner := l / BLOCK_SIZE % U32;
      && (l < 0 ==> inner >= MAX_BLOCKS)
      && (0 <= l ==> 0 <= r && inner < MAX_BLOCKS && l % BLOCK_SIZE + len == r % BLOCK_SIZE)
      && (0 <= l ==> inner * BLOCK_SIZE + l % BLOCK_SIZE == offset && inner * BLOCK_SIZE + r % BLOCK_SIZE <= size)
      && (0 <= l && inner >= DataBlocks(size) ==> len == 0 && offset == size && size % BLOCK_SIZE == 0)
      && (0 <= l && inner < DataBlocks(size) ==> !(offset == size && size % BLOCK_SIZE == 0))
    ensures DataBlocks(size) < MAX_BLOCKS
  {}

  /** The blocks of a range that does not lie in one. */
  lemma SpanBlocks(size: Word, l: int, r: int)
    requires -I31 <= l < I31 && -I31 <= r < I31
    requires 0 <= l && 0 <= r ==> l / BLOCK_SIZE < r / BLOCK_SIZE && r <= size
    requires r < 0 <= l ==> (l / BLOCK_SIZE + 1) * BLOCK_SIZE <= size
    ensures l < 0 ==> l / BLOCK_SIZE % U32 >= MAX_BLOCKS
    ensures r < 0 ==> r / BLOCK_SIZE % U32 >= MAX_BLOCKS
    ensures 0 <= l ==> l / BLOCK_SIZE < DataBlocks(size) && l / BLOCK_SIZE % U32 == l / BLOCK_SIZE
    ensures 0 <= l ==> l == l / BLOCK_SIZE * BLOCK_SIZE + l % BLOCK_SIZE && (l / BLOCK_SIZE + 1) * BLOCK_SIZE <= size
    ensures 0 <= l && 0 <= r ==>
      r / BLOCK_SIZE <= DataBlocks(size) && (r % BLOCK_SIZE > 0 ==> r / BLOCK_SIZE < DataBlocks(size))
    ensures 0 <= r ==> r / BLOCK_SIZE % U32 == r / BLOCK_SIZE && r == r / BLOCK_SIZE * BLOCK_SIZE + r % BLOCK_SIZE
    ensures DataBlocks(size) < MAX_BLOCKS
  {}

  class DiskInode {
    var size: Word
    var stamps: seq<Word>
    var owner: Word
    var links: Half
    var mode: Half
    var kind: Word
    var direct: seq<Word>
    var indirect1: Word
    var indirect2: Word

    ghost function Ptrs(): Root
      reads this
    {
      Root(direct, indirect1, indirect2)
    }

    ghost function Rec(): InodeRec
      reads this
    {
      InodeRec(size, stamps, owner, links, mode, Ptrs(), kind)
    }

    constructor FromRec(r: InodeRec)
      requires r.Ok()
      ensures Rec() == r
    {
      size, stamps, owner, links, mode, kind := r.size, r.stamps, r.owner, r.links, r.mode, r.kind;
      direct, indirect1, indirect2 := r.root.direct, r.root.indirect1, r.root.indirect2;
    }

    /** Inode::write_inode: the block of the inode is read, patched and written. */
    method WriteInode(pos: Position, dev: BlockDevice)
      requires dev.Valid() && pos.block < |dev.View()| && pos.slot < INODES_IN_BLOCK && Rec().Ok()
      modifies dev, dev.disk, dev.cache
      ensures dev.Valid()
      ensures dev.View() == old(dev.View())[pos.block := PutInode(old(dev.View())[pos.block], pos.slot, Rec())]
      ensures dev.history == old(dev.history) + [dev.View()]
    {
      hide BlockDevice.Valid, PutInode;
      var blk := dev.Read(pos.block);
      blk := PutInode(blk, pos.slot,
        InodeRec(size, stamps, owner, links, mode, Root(direct, indirect1, indirect2), kind));
      dev.Write(pos.block, blk);
    }

    /** Step one of increase: the direct blocks. */
    method IncreaseDirect(oldData: int, newData: int, dev: BlockDevice, bm: Area, ghost m0: map<Node, int>,
            ghost u0: set<int>, ghost s0: seq<Block>)
      returns (ok: bool, ghost m: map<Node, int>)
      requires dev.Valid() && 0 <= oldData <= newData && Growing(bm, Ptrs(), dev.View(), m0, m0, u0, s0)
      requires At(m0, oldData, oldData > DIRECT, oldData > SINGLE, Seconds(oldData))
      modifies this`direct, dev, dev.disk, dev.cache
      ensures dev.Valid() && (ok ==> Growing(bm, Ptrs(), dev.View(), m, m0, u0, s0))
      ensures ok ==> At(m, Max(oldData, Min(newData, DIRECT)), oldData > DIRECT, oldData > SINGLE, Seconds(oldData))
      ensures !ok ==> Failed(bm, Ptrs(), dev.View(), m, m0, u0, s0, newData)
    {
      hide BlockDevice.Valid, Growing, Used, Marked, Stuck, Seconds, Area.Manages, Area.Limit, Area.Fits, Laid;
      SecondsMono(oldData, newData);
      m := m0;
      var i := oldData;
      while i < Min(newData, DIRECT)
        invariant oldData <= i <= Max(oldData, Min(newData, DIRECT))
        invariant dev.Valid() && Growing(bm, Ptrs(), dev.View(), m, m0, u0, s0)
        invariant At(m, i, oldData > DIRECT, oldData > SINGLE, Seconds(oldData))
      {
        ghost var s, t := dev.View(), Ptrs();
        GrowingFacts(bm, t, s, m, m0, u0, s0);
        var newBlk := Bitmaps.Alloc(bm, dev);
        if newBlk == FAIL {
          OldPart(bm, t, s, m, m0, u0, s0);
          FailedAt(bm, t, t, s, m, m0, u0, s0, newData, i, oldData > DIRECT, oldData > SINGLE, Seconds(oldData),
            Data(i));
          ok := false;
          return;
        }
        direct := direct[i := newBlk];
        GrowRoot(bm, t, Ptrs(), s, m, m0, u0, s0, Data(i), newBlk);
        m := m[Data(i) := newBlk];
        i := i + 1;
      }
      ok := true;
    }

    /** The index block indirect1, if there is none yet. */
    method NeedIndirect1(oldData: int, newData: int, dev: BlockDevice, bm: Area, ghost m1: map<Node, int>,
            ghost m0: map<Node, int>, ghost u0: set<int>, ghost s0: seq<Block>)
      returns (ok: bool, ghost m: map<Node, int>)
      requires dev.Valid() && 0 <= oldData <= newData && DIRECT < newData
      requires Growing(bm, Ptrs(), dev.View(), m1, m0, u0, s0)
      requires At(m1, Max(oldData, DIRECT), oldData > DIRECT, oldData > SINGLE, Seconds(oldData))
      requires indirect1 != 0 <==> oldData > DIRECT
      modifies this`indirect1, dev, dev.disk, dev.cache
      ensures dev.Valid() && (ok ==> Growing(bm, Ptrs(), dev.View(), m, m0, u0, s0))
      ensures ok ==> indirect1 != 0 && At(m, Max(oldData, DIRECT), true, oldData > SINGLE, Seconds(oldData))
      ensures !ok ==> Failed(bm, Ptrs(), dev.View(), m, m0, u0, s0, newData)
    {
      hide BlockDevice.Valid, Growing, Used, Marked, Stuck, Seconds, Area.Fits, Area.Limit, Laid, Rep, IsUsed, Failed;
      SecondsMono(oldData, newData);
      m := m1;
      ok := true;
      if indirect1 == 0 {
        ghost var s, t := dev.View(), Ptrs();
        GrowingFacts(bm, t, s, m, m0, u0, s0);
        indirect1 := Bitmaps.Alloc(bm, dev);
        if indirect1 == FAIL {
          RootUnused(bm, t, Ptrs(), s, m, m0, u0, s0);
          FailedAt(bm, t, Ptrs(), s, m, m0, u0, s0, newData, Max(oldData, DIRECT), false, oldData > SINGLE,
            Seconds(oldData), Ind1);
          ok := false;
        } else {
          GrowRoot(bm, t, Ptrs(), s, m, m0, u0, s0, Ind1, indirect1);
          m := m[Ind1 := indirect1];
        }
      }
    }

    /** Step two of increase: the blocks under indirect1. Their pointers are collected
        in a buffer that is written once at the end. */
    method IncreaseSingle(oldData: int, newData: int, dev: BlockDevice, bm: Area, ghost m1: map<Node, int>,
            ghost m0: map<Node, int>, ghost u0: set<int>, ghost s0: seq<Block>)
      returns (ok: bool, ghost m: map<Node, int>)
      requires dev.Valid() && 0 <= oldData <= newData && DIRECT < newData
      requires Growing(bm, Ptrs(), dev.View(), m1, m0, u0, s0)
      requires At(m1, Max(oldData, DIRECT), true, oldData > SINGLE, Seconds(oldData))
      modifies dev, dev.disk, dev.cache
      ensures dev.Valid() && (ok ==> Growing(bm, Ptrs(), dev.View(), m, m0, u0, s0))
      ensures ok ==> At(m, Max(oldData, Min(newData, SINGLE)), true, oldData > SINGLE, Seconds(oldData))
      ensures !ok ==> Failed(bm, Ptrs(), dev.View(), m, m0, u0, s0, newData)
    {
      hide BlockDevice.Valid, Growing, Used, Marked, Stuck, Seconds, Area.Fits, Area.Limit, Laid, Rep, SetWord, IsUsed,
        Failed;
      SecondsMono(oldData, newData);
      m := m1;
      ghost var sec := Seconds(oldData);
      OldPart(bm, Ptrs(), dev.View(), m, m0, u0, s0);
      GrowingFacts(bm, Ptrs(), dev.View(), m, m0, u0, s0);
      assert Ind1 in m;
      var p := dev.Read(indirect1);
      assert dev.View()[indirect1 := p] == dev.View();
      var i := Max(oldData, DIRECT);
      while i < Min(newData, SINGLE)
        invariant Max(oldData, DIRECT) <= i <= Max(oldData, Min(newData, SINGLE))
        invariant dev.Valid() && Laid(bm, dev.View()) && bm.Fits(dev.View()) && indirect1 as int < |dev.View()|
        invariant Growing(bm, Ptrs(), dev.View()[indirect1 as int := p], m, m0, u0, s0)
        invariant Rep(Ptrs(), dev.View(), m0, bm.offset, bm.Limit())
        invariant Ind1 in m && m[Ind1] == indirect1
        invariant At(m, i, true, oldData > SINGLE, sec)
      {
        ghost var s, t, x := dev.View(), Ptrs(), Data(i);
        var newBlk := Bitmaps.Alloc(bm, dev);
        if newBlk == FAIL {
          FailedBuffer(bm, t, s, Ind1, p, m, m0, u0, s0, newData, i, true, oldData > SINGLE, sec, x);
          ok := false;
          return;
        }
        MarkedUsed(bm, s, newBlk);
        OldKept(bm, t, s, dev.View(), m0);
        GrowBuffer(bm, t, s, Ind1, p, m, m0, u0, s0, x, newBlk);
        p := SetWord(p, i - DIRECT, newBlk);
        m := m[x := newBlk];
        i := i + 1;
      }
      dev.Write(indirect1, p);
      ok := true;
    }

    /** The index block indirect2, if there is none yet. */
    method NeedIndirect2(oldData: int, newData: int, dev: BlockDevice, bm: Area, ghost m1: map<Node, int>,
            ghost m0: map<Node, int>, ghost u0: set<int>, ghost s0: seq<Block>)
      returns (ok: bool, ghost m: map<Node, int>)
      requires dev.Valid() && 0 <= oldData <= newData && SINGLE < newData
      requires Growing(bm, Ptrs(), dev.View(), m1, m0, u0, s0)
      requires At(m1, Max(oldData, SINGLE), true, oldData > SINGLE, Seconds(oldData))
      requires indirect2 != 0 <==> oldData > SINGLE
      modifies this`indirect2, dev, dev.disk, dev.cache
      ensures dev.Valid() && (ok ==> Growing(bm, Ptrs(), dev.View(), m, m0, u0, s0))
      ensures ok ==> indirect2 != 0 && At(m, Max(oldData, SINGLE), true, true, Seconds(oldData))
      ensures !ok ==> Failed(bm, Ptrs(), dev.View(), m, m0, u0, s0, newData)
    {
      hide BlockDevice.Valid, Growing, Used, Marked, Stuck, Seconds, Area.Fits, Area.Limit, Laid, Rep, IsUsed, Failed;
      SecondsMono(oldData, newData);
      m := m1;
      ok := true;
      if indirect2 == 0 {
        ghost var s, t := dev.View(), Ptrs();
        GrowingFacts(bm, t, s, m, m0, u0, s0);
        indirect2 := Bitmaps.Alloc(bm, dev);
        if indirect2 == FAIL {
          RootUnused(bm, t, Ptrs(), s, m, m0, u0, s0);
          FailedAt(bm, t, Ptrs(), s, m, m0, u0, s0, newData, Max(oldData, SINGLE), true, false, Seconds(oldData), Ind2);
          ok := false;
        } else {
          GrowRoot(bm, t, Ptrs(), s, m, m0, u0, s0, Ind2, indirect2);
          m := m[Ind2 := indirect2];
        }
      }
    }

    /** The second-level index block of the next data block i, unless blkLimit says
        it is there already. */
    method NeedSecond(i: int, p0: Block, blkLimit0: int, newData: int, dev: BlockDevice, bm: Area, ghost m1: map<Node,
            int>, ghost m0: map<Node, int>, ghost u0: set<int>, ghost s0: seq<Block>)
      returns (ok: bool, p: Block, blkLimit: int, ghost m: map<Node, int>)
      requires dev.Valid() && Growing(bm, Ptrs(), dev.View(), m1, m0, u0, s0)
      requires SINGLE <= i < newData <= MAX_BLOCKS && -1 <= blkLimit0
      requires (i - SINGLE) / WORDS <= blkLimit0 + 1 <= Seconds(newData)
      requires At(m1, i, true, true, blkLimit0 + 1)
      requires indirect2 as int < |dev.View()| && p0 == dev.View()[indirect2]
      modifies dev, dev.disk, dev.cache
      ensures dev.Valid() && (ok ==> Growing(bm, Ptrs(), dev.View(), m, m0, u0, s0))
      ensures ok ==> blkLimit == Max(blkLimit0, (i - SINGLE) / WORDS) && At(m, i, true, true, blkLimit + 1)
      ensures ok ==> indirect2 as int < |dev.View()| && p == dev.View()[indirect2]
      ensures !ok ==> Failed(bm, Ptrs(), dev.View(), m, m0, u0, s0, newData)
    {
      hide BlockDevice.Valid, Growing, Used, Marked, Stuck, Area.Fits, Area.Limit, Laid, Rep, IsUsed, Failed, SetWord,
        GetWord;
      m, p, blkLimit, ok := m1, p0, blkLimit0, true;
      var blk := (i - SINGLE) / WORDS;
      if blk > blkLimit {
        ghost var s, t, x := dev.View(), Ptrs(), Second(blk);
        GrowingFacts(bm, t, s, m, m0, u0, s0);
        var newInd1 := Bitmaps.Alloc(bm, dev);
        if newInd1 == FAIL {
          OldPart(bm, t, s, m, m0, u0, s0);
          FailedAt(bm, t, t, s, m, m0, u0, s0, newData, i, true, true, blkLimit + 1, x);
          ok := false;
          return;
        }
        GrowChild(bm, t, s, m, m0, u0, s0, x, newInd1);
        p := SetWord(p, blk, newInd1);
        blkLimit := blkLimit + 1;
        dev.Write(indirect2, p);
        m := m[x := newInd1];
      }
    }

    /** The data block i, entered in the second-level index block p[blk]. */
    method AddUnderSecond(i: int, p: Block, newData: int, dev: BlockDevice, bm: Area, ghost sec: nat,
            ghost m1: map<Node, int>, ghost m0: map<Node, int>, ghost u0: set<int>, ghost s0: seq<Block>)
      returns (ok: bool, ghost m: map<Node, int>)
      requires dev.Valid() && Growing(bm, Ptrs(), dev.View(), m1, m0, u0, s0)
      requires SINGLE <= i < newData <= MAX_BLOCKS && (i - SINGLE) / WORDS < sec <= Seconds(newData)
      requires At(m1, i, true, true, sec)
      requires indirect2 as int < |dev.View()| && p == dev.View()[indirect2]
      modifies dev, dev.disk, dev.cache
      ensures dev.Valid() && (ok ==> Growing(bm, Ptrs(), dev.View(), m, m0, u0, s0))
      ensures ok ==> At(m, i + 1, true, true, sec)
      ensures ok ==> indirect2 as int < |dev.View()| && p == dev.View()[indirect2]
      ensures !ok ==> Failed(bm, Ptrs(), dev.View(), m, m0, u0, s0, newData)
    {
      hide BlockDevice.Valid, Growing, Used, Stuck, Area.Fits, Area.Limit, Area.Manages, Laid, Rep, IsUsed, Failed,
        SetWord, GetWord, Marked;
      m, ok := m1, true;
      var j := i - SINGLE;
      var blk := j / WORDS;
      ghost var s, t, x := dev.View(), Ptrs(), Data(i);
      GrowingFacts(bm, t, s, m, m0, u0, s0);
      SecondFacts(bm, t, s, m, m0, u0, s0, i);
      var ind21 := dev.Read(GetWord(p, blk));
      var newBlk := Bitmaps.Alloc(bm, dev);
      if newBlk == FAIL {
        OldPart(bm, t, s, m, m0, u0, s0);
        FailedAt(bm, t, t, s, m, m0, u0, s0, newData, i, true, true, sec, x);
        ok := false;
        return;
      }
      GrowUnder(bm, t, s, m, m0, u0, s0, i, newBlk);
      ind21 := SetWord(ind21, j % WORDS, newBlk);
      dev.Write(GetWord(p, blk), ind21);
      m := m[x := newBlk];
    }

    /** Step three of increase: the blocks under indirect2. */
    method IncreaseDouble(oldData: int, newData: int, dev: BlockDevice, bm: Area, ghost m1: map<Node, int>,
            ghost m0: map<Node, int>, ghost u0: set<int>, ghost s0: seq<Block>)
      returns (ok: bool, ghost m: map<Node, int>)
      requires dev.Valid() && 0 <= oldData <= newData <= MAX_BLOCKS && SINGLE < newData
      requires Growing(bm, Ptrs(), dev.View(), m1, m0, u0, s0)
      requires At(m1, Max(oldData, SINGLE), true, true, Seconds(oldData))
      modifies dev, dev.disk, dev.cache
      ensures dev.Valid() && (ok ==> Growing(bm, Ptrs(), dev.View(), m, m0, u0, s0))
      ensures ok ==> At(m, newData, true, true, Seconds(newData))
      ensures !ok ==> Failed(bm, Ptrs(), dev.View(), m, m0, u0, s0, newData)
    {
      hide BlockDevice.Valid, Growing, Used, Stuck, Area.Fits, Area.Limit, Laid, Rep, Failed, At;
      GrowingFacts(bm, Ptrs(), dev.View(), m1, m0, u0, s0);
      HasInd2(m1, Max(oldData, SINGLE), Seconds(oldData));
      m, ok := m1, true;
      var p := dev.Read(indirect2);
      var oldIdxLimit := oldData - SINGLE - 1;
      var blkLimit := if oldIdxLimit < 0 then -1 else oldIdxLimit / WORDS;
      assert blkLimit + 1 == Seconds(oldData);
      var i := Max(oldData, SINGLE);
      while i < newData
        invariant Max(oldData, SINGLE) <= i <= Max(oldData, newData)
        invariant blkLimit == (if i == SINGLE then -1 else (i - SINGLE - 1) / WORDS)
        invariant dev.Valid() && Growing(bm, Ptrs(), dev.View(), m, m0, u0, s0)
        invariant At(m, i, true, true, blkLimit + 1)
        invariant indirect2 as int < |dev.View()| && p == dev.View()[indirect2]
      {
        SecondsMono(i + 1, newData);
        assert Seconds(i + 1) == (i - SINGLE) / WORDS + 1;
        ok, p, blkLimit, m := NeedSecond(i, p, blkLimit, newData, dev, bm, m, m0, u0, s0);
        if !ok { return; }
        ok, m := AddUnderSecond(i, p, newData, dev, bm, blkLimit + 1, m, m0, u0, s0);
        if !ok { return; }
        i := i + 1;
      }
    }

    /** Grows the tree from oldData to newData data blocks. It succeeds exactly when
        enough ids are free. */
    method Increase(oldData: int, newData: int, dev: BlockDevice, bm: Area) returns (ok: bool)
      requires dev.Valid() && 0 <= oldData <= newData <= MAX_BLOCKS && FileOk(bm, Ptrs(), dev.View(), oldData)
      modifies this`direct, this`indirect1, this`indirect2, dev, dev.disk, dev.cache
      ensures dev.Valid() && Laid(bm, dev.View()) && bm.Fits(dev.View())
      ensures ok <==> |old(Used(bm, dev.View()))| + NodeCount(newData) - NodeCount(oldData) <= bm.num * BLOCK_BITS
      ensures ok ==> FileOk(bm, Ptrs(), dev.View(), newData)
      ensures ok ==> GrownExactly(bm, old(TreeOf(Ptrs(), dev.View(), oldData)), TreeOf(Ptrs(), dev.View(), newData),
        old(dev.View()), dev.View())
      ensures !ok ==> exists m :: Failed(bm, Ptrs(), dev.View(), m, old(TreeOf(Ptrs(), dev.View(), oldData)),
        old(Used(bm, dev.View())), old(dev.View()), newData)
    {
      hide BlockDevice.Valid, Growing, Used, TreeOf, WellFormed, Seconds, Area.Fits, NodeCount, Nodes, GrownExactly,
        Stuck;
      FileStart(bm, Ptrs(), dev.View(), oldData);
      ghost var m0, u0, s0 := TreeOf(Ptrs(), dev.View(), oldData), Used(bm, dev.View()), dev.View();
      ghost var m;
      SecondsMono(oldData, newData);
      SecondsMono(newData, newData);
      ok, m := IncreaseDirect(oldData, newData, dev, bm, m0, u0, s0);
      if ok && newData > DIRECT {
        ok, m := NeedIndirect1(oldData, newData, dev, bm, m, m0, u0, s0);
        if ok {
          ok, m := IncreaseSingle(oldData, newData, dev, bm, m, m0, u0, s0);
        }
      }
      if ok && newData > SINGLE {
        ok, m := NeedIndirect2(oldData, newData, dev, bm, m, m0, u0, s0);
        if ok {
          ok, m := IncreaseDouble(oldData, newData, dev, bm, m, m0, u0, s0);
        }
      }
      if ok {
        GrowthDone(bm, Ptrs(), dev.View(), m, m0, s0, oldData, newData);
      } else {
        GrowthStopped(bm, Ptrs(), dev.View(), m, m0, s0, oldData, newData);
      }
    }

    /** Step one of decrease: the direct blocks. */
    method DecreaseDirect(oldData: int, newData: int, ghost g: Cutting, ghost bm: Area, ghost s: seq<Block>)
      returns (ids: seq<int>, ghost d: map<Node, int>)
      requires Passing(bm, Ptrs(), s, g, [], map[]) && g.n0 == oldData && g.n1 == newData && Ptrs() == g.t0
      modifies this`direct
      ensures Passing(bm, Ptrs(), s, g, ids, d)
      ensures Gone(d, g, Min(oldData, DIRECT), false, false, 0)
      ensures |direct| == |old(direct)| == DIRECT && forall k | 0 <= k < DIRECT ::
        direct[k] == if newData <= k < oldData then 0xFFFF_FFFF else old(direct)[k]
    {
      hide Passing;
      ids, d := [], map[];
      PassingFacts(bm, Ptrs(), s, g, ids, d);
      var i := newData;
      while i < Min(oldData, DIRECT)
        invariant newData <= i <= Max(newData, Min(oldData, DIRECT))
        invariant |direct| == DIRECT && forall k | i <= k < DIRECT :: direct[k] == g.t0.direct[k]
        invariant forall k | 0 <= k < DIRECT :: direct[k] == if newData <= k < i then 0xFFFF_FFFF else old(direct)[k]
        invariant Passing(bm, Ptrs(), s, g, ids, d)
        invariant Gone(d, g, i, false, false, 0)
      {
        ghost var t := Ptrs();
        PassingCollect(bm, t, s, g, ids, d, Data(i));
        ids, d := ids + [direct[i]], d[Data(i) := g.m[Data(i)]];
        direct := direct[i := FAIL];
        PassingRoot(bm, t, Ptrs(), s, g, ids, d);
        i := i + 1;
      }
    }

    /** Step two of decrease: the blocks under indirect1, and indirect1 itself. */
    method DecreaseSingle(oldData: int, newData: int, dev: BlockDevice, ids0: seq<int>, ghost g: Cutting,
            ghost bm: Area, ghost d0: map<Node, int>)
      returns (ids: seq<int>, ghost d: map<Node, int>)
      requires dev.Valid() && Passing(bm, Ptrs(), dev.View(), g, ids0, d0) && g.n0 == oldData && g.n1 == newData
      requires Gone(d0, g, Min(oldData, DIRECT), false, false, 0)
      requires indirect1 == g.t0.indirect1 && (indirect1 != 0 <==> oldData > DIRECT)
      requires dev.View() == g.s0
      modifies this`indirect1, dev, dev.disk, dev.cache
      ensures dev.Valid() && Passing(bm, Ptrs(), dev.View(), g, ids, d)
      ensures Gone(d, g, Min(oldData, SINGLE), oldData > DIRECT >= newData, false, 0)
      ensures indirect1 != 0 <==> newData > DIRECT
      ensures forall q | q in g.m && q != Ind1 ::
        0 <= g.m[q] < |dev.View()| == |g.s0| && dev.View()[g.m[q]] == g.s0[g.m[q]]
      ensures dev.history == old(dev.history) || dev.history == old(dev.history) + [dev.View()]
    {
      hide BlockDevice.Valid, Passing, GetWord, Collected;
      ids, d := ids0, d0;
      PassingFacts(bm, Ptrs(), dev.View(), g, ids, d);
      if indirect1 != 0 {
        PassingEntries(bm, Ptrs(), dev.View(), g, ids, d, Ind1);
        var ind1 := dev.Read(indirect1);
        ind1, ids, d := CollectSingle(ind1, oldData, newData, ids, dev.View(), g, bm, d);
        if newData <= DIRECT {
          PassingCollect(bm, Ptrs(), dev.View(), g, ids, d, Ind1);
          ids, d := ids + [indirect1], d[Ind1 := g.m[Ind1]];
          ghost var t := Ptrs();
          indirect1 := 0;
          PassingRoot(bm, t, Ptrs(), dev.View(), g, ids, d);
        } else {
          PassingBlock(bm, Ptrs(), dev.View(), g, ids, d, Ind1, ind1);
          PassingDistinct(bm, Ptrs(), dev.View(), g, ids, d);
          dev.Write(indirect1, ind1);
        }
      }
    }

    method CollectSingle(buf: Block, oldData: int, newData: int, ids0: seq<int>, ghost s: seq<Block>, ghost g: Cutting,
            ghost bm: Area, ghost d0: map<Node, int>)
      returns (ind1: Block, ids: seq<int>, ghost d: map<Node, int>)
      requires Passing(bm, Ptrs(), s, g, ids0, d0) && g.n0 == oldData && g.n1 == newData && oldData > DIRECT
      requires Gone(d0, g, DIRECT, false, false, 0)
      requires forall x | x in g.m && !IsRoot(x) && Parent(x) == Ind1 ::
        EntryIndex(x) < WORDS && GetWord(buf, EntryIndex(x)) == g.m[x]
      ensures Passing(bm, Ptrs(), s, g, ids, d)
      ensures Gone(d, g, Min(oldData, SINGLE), false, false, 0)
      ensures forall x | x in g.m1 && !IsRoot(x) && Parent(x) == Ind1 ::
        EntryIndex(x) < WORDS && GetWord(ind1, EntryIndex(x)) == g.m[x]
    {
      hide GetWord, Collected, Planned, Shrinking, Passing, Feeds;
      PassingCollected(bm, Ptrs(), s, g, ids0, d0);
      var from, to := Max(newData, DIRECT) - DIRECT, Min(oldData, SINGLE) - DIRECT;
      UnderSingle(bm, Ptrs(), s, g, ids0, d0, buf, from, to);
      ind1, ids, d := Collect(buf, DIRECT, from, to, ids0, g.m, d0);
      PassingIds(bm, Ptrs(), s, g, ids0, d0, ids, d);
      SingleEntries(bm, Ptrs(), s, g, ids, d, buf, ind1);
    }

    /** A second-level index block that goes, with the `to` blocks under it. */
    method DropSecond(i: int, p: Block, to: int, dev: BlockDevice, ids0: seq<int>, ghost g: Cutting, ghost bm: Area,
            ghost d0: map<Node, int>)
      returns (ids: seq<int>, ghost d: map<Node, int>)
      requires dev.Valid() && Passing(bm, Ptrs(), dev.View(), g, ids0, d0)
      requires Seconds(g.n1) <= i < Seconds(g.n0) && i < WORDS && to == Min(WORDS, g.n0 - SINGLE - WORDS * i)
      requires Second(i) in g.m && GetWord(p, i) == g.m[Second(i)]
      requires GoneTo(d0, g, i)
      modifies dev, dev.disk, dev.cache
      ensures dev.Valid() && dev.View() == old(dev.View()) && dev.history == old(dev.history)
      ensures Passing(bm, Ptrs(), dev.View(), g, ids, d) && GoneTo(d, g, i + 1)
    {
      hide BlockDevice.Valid, GetWord, Planned, Shrinking, Collected, Passing, GoneTo, Feeds;
      PassingCollected(bm, Ptrs(), dev.View(), g, ids0, d0);
      UnderSecond(bm, Ptrs(), dev.View(), g, ids0, d0, i, 0, to);
      var ind1 := dev.Read(GetWord(p, i));
      ind1, ids, d := Collect(ind1, SINGLE + WORDS * i, 0, to, ids0, g.m, d0);
      PassingIds(bm, Ptrs(), dev.View(), g, ids0, d0, ids, d);
      PassingCollect(bm, Ptrs(), dev.View(), g, ids, d, Second(i));
      ids, d := ids + [GetWord(p, i)], d[Second(i) := g.m[Second(i)]];
      DropGone(d0, d, g, i, to);
    }

    /** The second-level index block that stays, of which the entries from..to go. The
        source writes the buffer to device block i; repaired, to the block p[i]. */
    method TrimSecond(i: int, p: Block, from: int, to: int, repaired: bool, dev: BlockDevice, ids0: seq<int>,
            ghost g: Cutting, ghost bm: Area, ghost d0: map<Node, int>)
      returns (ids: seq<int>, ghost d: map<Node, int>)
      requires dev.Valid() && Passing(bm, Ptrs(), dev.View(), g, ids0, d0)
      requires 0 <= i == Seconds(g.n1) - 1 < Seconds(g.n0) && i < WORDS && to == Min(WORDS, g.n0 - SINGLE - WORDS * i)
      requires from == g.n1 - SINGLE - WORDS * i
      requires Second(i) in g.m && GetWord(p, i) == g.m[Second(i)] && 0 <= g.m[Second(i)] < |dev.View()| == |g.s0|
      requires dev.View()[g.m[Second(i)]] == g.s0[g.m[Second(i)]]
      requires GoneTo(d0, g, i) && (!repaired ==> g.extra == i)
      modifies dev, dev.disk, dev.cache
      ensures dev.Valid() && Passing(bm, Ptrs(), dev.View(), g, ids, d) && GoneTo(d, g, i + 1)
      ensures !repaired ==> Clobbered(dev.View(), g, i, from)
      ensures dev.history == old(dev.history) + [dev.View()]
    {
      hide BlockDevice.Valid, GetWord, Planned, Shrinking, Collected, Passing, Clobbered, GoneTo, Feeds;
      PassingCollected(bm, Ptrs(), dev.View(), g, ids0, d0);
      UnderSecond(bm, Ptrs(), dev.View(), g, ids0, d0, i, from, to);
      var ind0 := dev.Read(GetWord(p, i));
      var ind1;
      ind1, ids, d := Collect(ind0, SINGLE + WORDS * i, from, to, ids0, g.m, d0);
      PassingIds(bm, Ptrs(), dev.View(), g, ids0, d0, ids, d);
      TrimGone(d0, d, g, i, from, to);
      TrimBlock(bm, Ptrs(), dev.View(), g, ids, d, i, from, ind0, ind1);
      if repaired {
        dev.Write(GetWord(p, i), ind1);
      } else {
        PassingStray(bm, Ptrs(), dev.View(), g, ids, d, ind1);
        dev.Write(i, ind1);
      }
    }

    /** Step three of decrease when indirect2 goes: all the blocks under it, and it. */
    method DropDouble(oldData: int, newData: int, dev: BlockDevice, ids0: seq<int>, ghost g: Cutting, ghost bm: Area,
            ghost d0: map<Node, int>)
      returns (ids: seq<int>, ghost d: map<Node, int>)
      requires dev.Valid() && Passing(bm, Ptrs(), dev.View(), g, ids0, d0) && g.n0 == oldData && g.n1 == newData
      requires newData <= SINGLE < oldData && indirect2 == g.t0.indirect2
      requires GoneTo(d0, g, 0)
      requires forall q | q in g.m && q != Ind1 ::
        0 <= g.m[q] < |dev.View()| == |g.s0| && dev.View()[g.m[q]] == g.s0[g.m[q]]
      modifies this`indirect2, dev, dev.disk, dev.cache
      ensures dev.Valid() && dev.View() == old(dev.View()) && dev.history == old(dev.history)
      ensures Passing(bm, Ptrs(), dev.View(), g, ids, d)
      ensures Gone(d, g, oldData, oldData > DIRECT >= newData, true, Seconds(oldData)) && indirect2 == 0
    {
      hide BlockDevice.Valid, GetWord, Passing, Gone;
      ids, d := ids0, d0;
      SecondPointers(bm, Ptrs(), dev.View(), g, ids, d);
      ghost var s := dev.View();
      var rj := oldData - SINGLE - 1;
      var posj := (rj / WORDS, rj % WORDS);
      var p := dev.Read(indirect2);
      var i := 0;
      while i <= posj.0
        invariant 0 <= i <= posj.0 + 1
        invariant dev.Valid() && dev.View() == s && dev.history == old(dev.history) && Passing(bm, Ptrs(), s, g, ids, d)
        invariant GoneTo(d, g, i) && indirect2 == g.t0.indirect2
      {
        assert i < Seconds(g.n0) && Second(i) in g.m;
        ids, d := DropSecond(i, p, if i != posj.0 then WORDS else posj.1 + 1, dev, ids, g, bm, d);
        i := i + 1;
      }
      Ind2Left(bm, Ptrs(), dev.View(), g, ids, d, i);
      PassingCollect(bm, Ptrs(), dev.View(), g, ids, d, Ind2);
      ids, d := ids + [indirect2], d[Ind2 := g.m[Ind2]];
      ghost var t := Ptrs();
      indirect2 := 0;
      PassingRoot(bm, t, Ptrs(), dev.View(), g, ids, d);
    }

    /** Step three of decrease when indirect2 stays. */
    method CutDouble(oldData: int, newData: int, repaired: bool, dev: BlockDevice, ids0: seq<int>, ghost g: Cutting,
            ghost bm: Area, ghost d0: map<Node, int>)
      returns (ids: seq<int>, ghost d: map<Node, int>)
      requires dev.Valid() && Passing(bm, Ptrs(), dev.View(), g, ids0, d0) && g.n0 == oldData && g.n1 == newData
      requires SINGLE < newData <= oldData && indirect2 == g.t0.indirect2
      requires GoneTo(d0, g, 0) && (!repaired ==> g.extra == (newData - SINGLE - 1) / WORDS)
      requires forall q | q in g.m && q != Ind1 ::
        0 <= g.m[q] < |dev.View()| == |g.s0| && dev.View()[g.m[q]] == g.s0[g.m[q]]
      modifies dev, dev.disk, dev.cache
      ensures dev.Valid() && Passing(bm, Ptrs(), dev.View(), g, ids, d)
      ensures Gone(d, g, oldData, false, false, Seconds(oldData))
      ensures |old(dev.history)| < |dev.history| && old(dev.history) <= dev.history
      ensures Quiet(dev.history, |old(dev.history)|, bm, g.s0)
      ensures !repaired ==> Clobbered(dev.View(), g, g.extra, (newData - SINGLE - 1) % WORDS + 1)
    {
      hide BlockDevice.Valid, GetWord, Passing, Gone, Clobbered, SameBitmapArea, Pointed;
      ids, d := ids0, d0;
      SecondPointers(bm, Ptrs(), dev.View(), g, ids, d);
      var ri, rj := newData - SINGLE - 1, oldData - SINGLE - 1;
      var posi, posj := (ri / WORDS, ri % WORDS), (rj / WORDS, rj % WORDS);
      var p := dev.Read(indirect2);
      var i := posi.0;
      SkipTo(d, g, i);
      while i <= posj.0
        invariant posi.0 <= i <= posj.0 + 1
        invariant dev.Valid() && Passing(bm, Ptrs(), dev.View(), g, ids, d)
        invariant GoneTo(d, g, i)
        invariant i == posi.0 ==> dev.View() == old(dev.View()) && dev.history == old(dev.history)
        invariant i > posi.0 ==> SameBitmapArea(bm, dev.View(), g.s0) && dev.history == old(dev.history) + [dev.View()]
        invariant i > posi.0 && !repaired ==> Clobbered(dev.View(), g, g.extra, posi.1 + 1)
      {
        PointedAt(p, g, i);
        if i != posi.0 && i != posj.0 {
          ids, d := DropSecond(i, p, WORDS, dev, ids, g, bm, d);
        } else if i == posi.0 && i != posj.0 {
          ids, d := TrimSecond(i, p, posi.1 + 1, WORDS, repaired, dev, ids, g, bm, d);
        } else if i == posj.0 && i != posi.0 {
          ids, d := DropSecond(i, p, posj.1 + 1, dev, ids, g, bm, d);
        } else {
          ids, d := TrimSecond(i, p, posi.1 + 1, posj.1 + 1, repaired, dev, ids, g, bm, d);
        }
        PassingQuiet(bm, Ptrs(), dev.View(), g, ids, d);
        i := i + 1;
      }
      AllGone(d, g, i);
      PointedKept(bm, Ptrs(), dev.View(), g, ids, d, p);
      dev.Write(indirect2, p);
      PassingQuiet(bm, Ptrs(), dev.View(), g, ids, d);
    }

    /** The part of decrease before anything is freed: the inode and the index blocks
        take their new form, and the ids that go are collected. */
    method Shorten(oldData: int, newData: int, repaired: bool, dev: BlockDevice, ghost g: Cutting, ghost bm: Area)
      returns (ids: seq<int>)
      requires dev.Valid() && Passing(bm, Ptrs(), dev.View(), g, [], map[]) && g.n0 == oldData && g.n1 == newData
      requires Ptrs() == g.t0 && dev.View() == g.s0 && newData < oldData
      requires (indirect1 != 0 <==> oldData > DIRECT) && (indirect2 != 0 <==> oldData > SINGLE)
      requires !repaired && newData > SINGLE ==> g.extra == (newData - SINGLE - 1) / WORDS
      modifies this`direct, this`indirect1, this`indirect2, dev, dev.disk, dev.cache
      ensures dev.Valid() && Complete(bm, Ptrs(), dev.View(), g, ids)
      ensures |direct| == |old(direct)| == DIRECT && forall k | 0 <= k < DIRECT ::
        direct[k] == if newData <= k < oldData then 0xFFFF_FFFF else old(direct)[k]
      ensures (indirect1 != 0 <==> newData > DIRECT) && (indirect2 != 0 <==> newData > SINGLE)
      ensures |old(dev.history)| <= |dev.history| && old(dev.history) == dev.history[..|old(dev.history)|]
      ensures Quiet(dev.history, |old(dev.history)|, bm, g.s0)
      ensures !repaired && newData > SINGLE ==> Clobbered(dev.View(), g, g.extra, (newData - SINGLE - 1) % WORDS + 1)
    {
      hide BlockDevice.Valid, Passing, Gone, Clobbered, SameBitmapArea, Complete, GetWord;
      ghost var d;
      ids, d := DecreaseDirect(oldData, newData, g, bm, dev.View());
      ids, d := DecreaseSingle(oldData, newData, dev, ids, g, bm, d);
      PassingQuiet(bm, Ptrs(), dev.View(), g, ids, d);
      GoneStart(d, g);
      if indirect2 != 0 {
        var ri := newData - SINGLE - 1;
        var rj := oldData - SINGLE - 1;
        if ri < 0 && rj >= 0 {
          ids, d := DropDouble(oldData, newData, dev, ids, g, bm, d);
        } else if ri >= 0 && rj >= 0 {
          ids, d := CutDouble(oldData, newData, repaired, dev, ids, g, bm, d);
        } else {
          assert false;
        }
      }
      CompleteFrom(bm, Ptrs(), dev.View(), g, ids, d, oldData > SINGLE >= newData);
    }

    /** Shrinks the tree from oldData to newData data blocks. With an inode position,
        the inode is written before any id is freed; w is where in the history. */
    method Decrease(oldData: int, newData: int, repaired: bool, dev: BlockDevice, bm: Area, pos: Option<Position>)
      returns (ghost w: nat)
      requires dev.Valid() && 0 <= newData < oldData && FileOk(bm, Ptrs(), dev.View(), oldData) && |stamps| == 3
      requires pos.Some? ==> pos.value.block < bm.start && pos.value.slot < INODES_IN_BLOCK
      requires Stray(newData, repaired) < bm.start
      modifies this`direct, this`indirect1, this`indirect2, dev, dev.disk, dev.cache
      ensures dev.Valid() && FileOk(bm, Ptrs(), dev.View(), newData) && Rec().Ok() && bm.Fits(dev.View())
      ensures |direct| == |old(direct)| == 23 && forall k | 0 <= k < 23 ::
        direct[k] == if newData <= k < oldData then 0xFFFF_FFFF else old(direct)[k]
      ensures ShrunkExactly(bm, old(TreeOf(Ptrs(), dev.View(), oldData)), TreeOf(Ptrs(), dev.View(), newData),
        newData, old(dev.View()), dev.View(),
                            Stray(newData, repaired), BlockOf(pos))
      ensures pos.Some? && BlockOf(pos) != Stray(newData, repaired) ==>
        BlockOf(pos) < |old(dev.View())| &&
          dev.View()[BlockOf(pos)] == PutInode(old(dev.View())[BlockOf(pos)], pos.value.slot, Rec())
      ensures 0 <= Stray(newData, repaired) != BlockOf(pos) ==>
        ClobberedBy(dev.View(), old(TreeOf(Ptrs(), dev.View(), oldData)), Stray(newData, repaired),
          (newData - SINGLE - 1) % WORDS + 1)
      ensures pos.Some? && BlockOf(pos) == Stray(newData, repaired) ==>
        && BlockOf(pos) < |dev.View()| && GetInode(dev.View()[BlockOf(pos)], pos.value.slot) == Rec()
        && Overwritten(dev.View()[BlockOf(pos)], pos.value.slot, old(TreeOf(Ptrs(), dev.View(), oldData)),
           BlockOf(pos), (newData - SINGLE - 1) % WORDS + 1)
      ensures WrittenThenFreed(dev.history, |old(dev.history)|, w, bm, old(dev.View()),
        TreeOf(Ptrs(), dev.View(), newData).Values)
      ensures |old(dev.history)| <= w <= |dev.history|
      ensures forall k | |old(dev.history)| <= k < w ::
        && |dev.history[k]| == |old(dev.View())|
        && forall i | bm.start <= i < bm.start + bm.num ::
             i < |old(dev.View())| && dev.history[k][i] == old(dev.View())[i]
      ensures forall k | w <= k < |dev.history| ::
        bm.Fits(dev.history[k]) && TreeOf(Ptrs(), dev.View(), newData).Values <= Used(bm, dev.history[k])
      ensures pos.Some? ==>
        && |old(dev.history)| < w && BlockOf(pos) < |dev.history[w - 1]|
        && GetInode(dev.history[w - 1][BlockOf(pos)], pos.value.slot) == Rec()
    {
      hide BlockDevice.Valid, Passing, Complete, ClobberedBy, SameBitmapArea, Covers, PutInode, GetInode, Used, TreeOf,
        WellFormed, Cut, ShrunkExactly, Area.Fits, Area.Limit, Overwritten;
      ghost var g := Cutting(Ptrs(), dev.View(), TreeOf(Ptrs(), dev.View(), oldData),
        Cut(TreeOf(Ptrs(), dev.View(), oldData), newData), oldData, newData, Stray(newData, repaired));
      PassingStart(bm, Ptrs(), dev.View(), oldData, newData, g.extra);
      var ids := Shorten(oldData, newData, repaired, dev, g, bm);
      ghost var s := dev.View();
      CompleteReady(bm, Ptrs(), s, g, ids);
      if pos.Some? {
        WriteInode(pos.value, dev);
        PutInodeGet(s[pos.value.block], pos.value.slot, Rec(), pos.value.slot);
        if BlockOf(pos) == g.extra {
          OverwrittenBy(s, pos.value.slot, Rec(), g.m, pos.value.block, (newData - SINGLE - 1) % WORDS + 1);
        }
      }
      w := |dev.history|;
      ghost var s1 := dev.View();
      ReadyAfter(bm, s, s1, g, ids, BlockOf(pos));
      FreeAll(ids, dev, bm, g.m1.Values);
      ShrinkDone(bm, Ptrs(), s, s1, dev.View(), g, ids, BlockOf(pos));
      StrayKept(bm, s, s1, dev.View(), g, (newData - SINGLE - 1) % WORDS + 1, BlockOf(pos));
      OrderMeans(dev.history, |old(dev.history)|, w, bm, old(dev.View()), g.m1.Values);
    }

    /** The file with its current size is in good order on the device. */
    ghost predicate Intact(bm: Area, s: seq<Block>)
      reads this
    {
      |stamps| == 3 && FileOk(bm, Ptrs(), s, DataBlocks(size))
    }

    ghost function Blocks(s: seq<Block>): map<Node, int>
      reads this
    {
      TreeOf(Ptrs(), s, DataBlocks(size))
    }

    /** The inode in its block after a resize to this size. */
    ghost predicate InodeWritten(s0: seq<Block>, s: seq<Block>, size0: nat, repaired: bool, pos: Position,
            m: map<Node, int>)
      requires Rec().Ok() && pos.slot < INODES_IN_BLOCK
      reads this
    {
      && pos.block < |s0| == |s|
      && (StrayOf(size0, size, repaired) != pos.block ==> s[pos.block] == PutInode(s0[pos.block], pos.slot, Rec()))
      && (StrayOf(size0, size, repaired) == pos.block ==>
          && GetInode(s[pos.block], pos.slot) == Rec()
          && Overwritten(s[pos.block], pos.slot, m, pos.block, (DataBlocks(size) - SINGLE - 1) % WORDS + 1))
    }

    /** Changes the size. A shrink writes the inode itself if it is given a position;
        a grow leaves that to the caller. */
    method Resize(newSize: Word, repaired: bool, dev: BlockDevice, bm: Area, pos: Option<Position>)
      returns (ok: bool, ghost w: nat)
      requires dev.Valid() && Intact(bm, dev.View())
      requires pos.Some? ==> pos.value.block < bm.start && pos.value.slot < INODES_IN_BLOCK
      requires DataBlocks(newSize) < DataBlocks(size) ==> Stray(DataBlocks(newSize), repaired) < bm.start
      modifies this`size, this`direct, this`indirect1, this`indirect2, dev, dev.disk, dev.cache
      ensures dev.Valid() && size == newSize && bm.Fits(dev.View()) && old(bm.Fits(dev.View()))
      ensures ok <==> old(GrowthFits(bm, dev.View(), size, newSize))
      ensures !ok ==> exists m :: Failed(bm, Ptrs(), dev.View(), m, old(Blocks(dev.View())),
        old(Used(bm, dev.View())), old(dev.View()), DataBlocks(newSize))
      ensures ok ==> Intact(bm, dev.View())
      ensures ok && DataBlocks(newSize) > DataBlocks(old(size)) ==>
        GrownExactly(bm, old(Blocks(dev.View())), Blocks(dev.View()), old(dev.View()), dev.View())
      ensures DataBlocks(newSize) < DataBlocks(old(size)) ==>
        && ShrunkExactly(bm, old(Blocks(dev.View())), Blocks(dev.View()), DataBlocks(newSize), old(dev.View()),
           dev.View(), Stray(DataBlocks(newSize), repaired), BlockOf(pos))
        && WrittenThenFreed(dev.history, |old(dev.history)|, w, bm, old(dev.View()), Blocks(dev.View()).Values)
      ensures pos.Some? && DataBlocks(newSize) <= DataBlocks(old(size)) ==>
        Rec().Ok() && InodeWritten(old(dev.View()), dev.View(), old(size), repaired, pos.value, old(Blocks(dev.View())))
      ensures DataBlocks(newSize) == DataBlocks(old(size)) ==>
        && Ptrs() == old(Ptrs()) && Blocks(dev.View()) == old(Blocks(dev.View()))
        && Used(bm, dev.View()) == old(Used(bm, dev.View()))
        && |dev.View()| == |old(dev.View())|
        && forall b | 0 <= b < |dev.View()| && b != BlockOf(pos) :: dev.View()[b] == old(dev.View())[b]
    {
      hide BlockDevice.Valid, FileOk, TreeOf, GrownExactly, ShrunkExactly, WrittenThenFreed, ClobberedBy, Used,
        Area.Fits, PutInode, GetInode, DataBlocks, TotalBlocks, NodeCount, Failed, Overwritten;
      var oldSize := size;
      SizeFits(newSize);
      TotalBlocksOrder(oldSize, newSize);
      TotalBlocksOrder(newSize, oldSize);
      FileFacts(bm, Ptrs(), dev.View(), DataBlocks(size));
      size := newSize;
      var oldData: int, newData: int := DataBlocks(oldSize), DataBlocks(size);
      var oldBlocks: int, newBlocks: int := TotalBlocks(oldSize), TotalBlocks(size);
      ok, w := true, 0;
      if oldBlocks == newBlocks {
        if pos.Some? {
          FileElsewhere(bm, Ptrs(), dev.View(), newData, pos.value.block,
            PutInode(dev.View()[pos.value.block], pos.value.slot, Rec()));
          WriteInode(pos.value, dev);
        }
      } else if oldBlocks > newBlocks {
        assert newBlocks - oldBlocks - (newData - oldData) <= 0;
        w := Decrease(oldData, newData, repaired, dev, bm, pos);
        ShrunkSize(bm, old(Blocks(dev.View())), Blocks(dev.View()), newData, old(dev.View()), dev.View(),
          Stray(newData, repaired), BlockOf(pos));
      } else {
        assert newBlocks - oldBlocks - (newData - oldData) >= 0;
        ok := Increase(oldData, newData, dev, bm);
        if !ok {
          ghost var m :| Failed(bm, Ptrs(), dev.View(), m, old(Blocks(dev.View())), old(Used(bm, dev.View())),
            old(dev.View()), newData);
        }
      }
    }

    /** The block of an inner block number: that of the tree, kFail beyond the largest one,
        and for a number in between whatever old pointers lead to. */
    method BlockId(innerId: nat, dev: BlockDevice, ghost bm: Area) returns (r: Word)
      requires dev.Valid() && Intact(bm, dev.View())
      modifies dev, dev.disk, dev.cache
      ensures dev.Valid() && dev.View() == old(dev.View()) && dev.history == old(dev.history)
      ensures innerId >= 23 + 1024 + 1024 * 1024 ==> r == 0xFFFF_FFFF
      ensures innerId < DataBlocks(size) ==> r == Id(Ptrs(), dev.View(), Data(innerId)) && r as int < |dev.View()|
      ensures innerId < DataBlocks(size) ==>
        Data(innerId) in Blocks(dev.View()) && r == Blocks(dev.View())[Data(innerId)]
      ensures innerId < DataBlocks(size) && innerId < 23 ==> innerId < |direct| && r == direct[innerId]
      ensures innerId < DataBlocks(size) && 23 <= innerId < 1047 ==>
        indirect1 as int < |dev.View()| && r == GetWord(dev.View()[indirect1], innerId - 23)
      ensures innerId < DataBlocks(size) && 1047 <= innerId ==>
        var b, j := (innerId - 1047) / 1024, (innerId - 1047) % 1024;
        && indirect2 as int < |dev.View()| && b < 1024
        && GetWord(dev.View()[indirect2], b) as int < |dev.View()|
        && r == GetWord(dev.View()[GetWord(dev.View()[indirect2], b)], j)
      ensures Towards(old(dev.disk.blocks), dev.disk.blocks, dev.View())
      ensures innerId < DataBlocks(size) && Held(Blocks(dev.View()), old(dev.cache.hashtable)) ==>
        dev.cache.hashtable == old(dev.cache.hashtable) && dev.disk.blocks == old(dev.disk.blocks)
    {
      hide BlockDevice.Valid, FileOk, TreeOf, GetWord, Towards, Held, DataBlocks;
      dev.Sizes();
      ghost var d0 := dev.disk.blocks;
      TowardsSelf(dev.View(), d0);
      if innerId >= MAX_BLOCKS {
        FileFacts(bm, Ptrs(), dev.View(), DataBlocks(size));
        return FAIL;
      }
      FileFacts(bm, Ptrs(), dev.View(), DataBlocks(size));
      if innerId < DataBlocks(size) {
        WalkFacts(bm, Ptrs(), dev.View(), DataBlocks(size), innerId);
        if Held(Blocks(dev.View()), dev.cache.hashtable) {
          HeldWalk(bm, Ptrs(), dev.View(), DataBlocks(size), innerId, dev.cache.hashtable);
        }
      }
      if innerId < DIRECT {
        return direct[innerId];
      } else if innerId < DIRECT + WORDS {
        var idx := innerId - DIRECT;
        var buf := dev.TryRead(indirect1);
        if buf.None? { return FAIL; }
        return GetWord(buf.value, idx);
      } else {
        var idx := innerId - DIRECT - WORDS;
        var blk := idx / WORDS;
        var buf := dev.TryRead(indirect2);
        if buf.None? { return FAIL; }
        var blkId := GetWord(buf.value, blk);
        ghost var mid := dev.disk.blocks;
        var buf2 := dev.TryRead(blkId);
        TowardsTrans(d0, mid, dev.disk.blocks, dev.View());
        if buf2.None? { return FAIL; }
        return GetWord(buf2.value, idx % WORDS);
      }
    }

    ghost function Bytes(s: seq<Block>): seq<byte>
      reads this
    {
      Contents(Ptrs(), s, size)
    }

    /** Bytes a..b of one block, copied to position `at` of a buffer. A number beyond the
        largest one has no block; one that is merely not the file's may lead anywhere. */
    method ReadPart(inner: nat, a: nat, b: nat, buf0: seq<byte>, at: nat, dev: BlockDevice, ghost bm: Area,
            ghost l: nat, ghost orig: seq<byte>)
      returns (ok: bool, buf: seq<byte>)
      requires dev.Valid() && Intact(bm, dev.View())
      requires inner < MAX_BLOCKS ==> a <= b <= BLOCK_SIZE && at + (b - a) <= |buf0|
      requires inner < DataBlocks(size) ==> inner * BLOCK_SIZE + b <= size && l + at == inner * BLOCK_SIZE + a
      requires inner < DataBlocks(size) ==> Copied(buf0, orig, Bytes(dev.View()), l, at)
      modifies dev, dev.disk, dev.cache
      ensures dev.Valid() && dev.View() == old(dev.View()) && dev.history == old(dev.history) && |buf| == |buf0|
      ensures inner < DataBlocks(size) ==> ok && Copied(buf, orig, Bytes(dev.View()), l, at + (b - a))
      ensures inner >= MAX_BLOCKS ==> !ok
      ensures !ok || a == b ==> buf == buf0
    {
      hide BlockDevice.Valid, FileOk, TreeOf, Id, Splice, Copied, DataBlocks;
      dev.Sizes();
      FileFacts(bm, Ptrs(), dev.View(), DataBlocks(size));
      var blk := BlockId(inner, dev, bm);
      var data := dev.TryRead(blk);
      if data.None? { return false, buf0; }
      if inner < DataBlocks(size) {
        BlockSlice(Ptrs(), dev.View(), size, inner, a, b);
        CopiedNext(buf0, orig, Bytes(dev.View()), l, at, b - a);
      }
      SpliceNone(buf0, at);
      ok, buf := true, Splice(buf0, at, data.value[a..b]);
    }

    /** The ends of a range that do not lie in one block, as the code's ints: an edge,
        whole blocks, an edge. A negative start or end leads beyond the largest block. */
    method ReadSpan(l: int, r: int, buf0: seq<byte>, dev: BlockDevice, ghost bm: Area)
      returns (ok: bool, buf: seq<byte>)
      requires dev.Valid() && Intact(bm, dev.View()) && -I31 <= l < I31 && -I31 <= r < I31
      requires 0 <= l && 0 <= r ==> l / BLOCK_SIZE < r / BLOCK_SIZE && r <= size && r - l <= |buf0|
      requires r < 0 <= l ==>
        (l / BLOCK_SIZE + 1) * BLOCK_SIZE <= size && BLOCK_SIZE - l % BLOCK_SIZE + r % BLOCK_SIZE <= |buf0|
      modifies dev, dev.disk, dev.cache
      ensures dev.Valid() && dev.View() == old(dev.View()) && dev.history == old(dev.history)
      ensures l < 0 ==> !ok && buf == buf0
      ensures 0 <= l && 0 <= r ==> ok && Copied(buf, buf0, Bytes(dev.View()), l, r - l)
      ensures r < 0 <= l ==>
        ok == (r % BLOCK_SIZE == 0) && Copied(buf, buf0, Bytes(dev.View()), l, BLOCK_SIZE - l % BLOCK_SIZE)
    {
      hide BlockDevice.Valid, Intact, Contents, Copied, DataBlocks;
      var lid, rid := l / BLOCK_SIZE, r / BLOCK_SIZE;
      var loff, roff := l % BLOCK_SIZE, r % BLOCK_SIZE;
      ghost var from := if l < 0 then 0 else l;
      SpanBlocks(size, l, r);
      if l >= 0 { CopiedNone(buf0, Bytes(dev.View()), l); }
      ok, buf := ReadPart(lid % U32, loff, BLOCK_SIZE, buf0, 0, dev, bm, from, buf0);
      if !ok { return; }
      var bufoffset := BLOCK_SIZE - loff;
      var i := lid + 1;
      while i < rid
        invariant lid + 1 <= i && (0 <= r ==> i <= rid) && (r < 0 ==> i == lid + 1) && bufoffset == i * BLOCK_SIZE - l
        invariant dev.Valid() && dev.View() == old(dev.View()) && dev.history == old(dev.history)
        invariant ok && |buf| == |buf0| && Copied(buf, buf0, Bytes(dev.View()), l, bufoffset)
      {
        ok, buf := ReadPart(i, 0, BLOCK_SIZE, buf, bufoffset, dev, bm, l, buf0);
        if !ok { return; }
        bufoffset := bufoffset + BLOCK_SIZE;
        i := i + 1;
      }
      if roff > 0 {
        ok, buf := ReadPart(rid % U32, 0, roff, buf, bufoffset, dev, bm, l, buf0);
      }
    }

    /** Reads len bytes that do not go beyond the size. */
    method ReadRange(offset: Word, buf0: seq<byte>, len: Word, dev: BlockDevice, ghost bm: Area)
      returns (ok: bool, buf: seq<byte>)
      requires dev.Valid() && Intact(bm, dev.View()) && len as int <= |buf0|
      requires offset <= size && (offset < I31 ==> len <= size - offset)
      modifies dev, dev.disk, dev.cache
      ensures dev.Valid() && dev.View() == old(dev.View()) && dev.history == old(dev.history)
      ensures offset + len < U32 ==> Returns(if ok then AsInt(len) else -1, offset, len, size)
      ensures offset >= I31 ==> !ok
      ensures Copied(buf, buf0, Bytes(dev.View()), offset, MovedBytes(offset, len))
    {
      hide BlockDevice.Valid, Intact, Contents, Copied, DataBlocks, AsInt, MovedBytes;
      var l, r := AsInt(offset), AsInt((offset + len) % U32);
      var lid, rid := l / BLOCK_SIZE, r / BLOCK_SIZE;
      IntEnds(offset, len, size);
      CopiedNone(buf0, Bytes(dev.View()), offset);
      if lid == rid {
        InOneBlock(offset, len, size);
        ok, buf := ReadPart(lid % U32, l % BLOCK_SIZE, r % BLOCK_SIZE, buf0, 0, dev, bm, if l < 0 then 0 else l, buf0);
      } else {
        ok, buf := ReadSpan(l, r, buf0, dev, bm);
      }
    }

    /** Reads up to len bytes at offset into a buffer, which keeps what is not read. */
    method ReadData(offset: Word, buf0: seq<byte>, len0: Word, dev: BlockDevice, ghost bm: Area)
      returns (ret: int, buf: seq<byte>)
      requires dev.Valid() && Intact(bm, dev.View()) && len0 as int <= |buf0| && Addressable(offset, len0, size)
      modifies dev, dev.disk, dev.cache
      ensures dev.Valid() && dev.View() == old(dev.View()) && dev.history == old(dev.history)
      ensures len0 == 0 ==> ret == 0 && buf == buf0
      ensures len0 > 0 && offset > size ==> ret == -1 && buf == buf0
      ensures len0 > 0 && offset <= size ==> Returns(ret, offset, Min(len0, size - offset), size)
      ensures len0 > 0 && offset <= size ==>
        var m := MovedBytes(offset, Min(len0, size - offset));
        offset + m <= size && buf == Bytes(dev.View())[offset..offset + m] + buf0[m..]
      ensures len0 > 0 && offset <= size ==>
        var n := if len0 <= size - offset then len0 else size - offset;
        && (offset + n < 0x8000_0000 ==>
            && buf == Bytes(dev.View())[offset..offset + n] + buf0[n..]
            && if offset == size && size % 4096 == 0 then ret == 0 || ret == -1 else ret == n)
        && (offset >= 0x8000_0000 ==> ret == -1 && buf == buf0)
    {
      hide BlockDevice.Valid, Intact, Contents, Copied, DataBlocks, AsInt, Returns, MovedBytes;
      if len0 == 0 { return 0, buf0; }
      if offset > size { return -1, buf0; }
      TruncatedExact(offset, len0, size);
      var len := Truncated(offset, len0, size);
      var ok;
      ok, buf := ReadRange(offset, buf0, len, dev, bm);
      CopiedDone(buf, buf0, Bytes(dev.View()), offset, MovedBytes(offset, len));
      ret := if ok then AsInt(len) else -1;
      NoneBeyond(offset, Min(len0, size - offset), size);
      ReturnsMeans(ret, offset, Min(len0, size - offset), size);
    }

    /** Bytes a..b of one block are replaced: read, modify, write. A block that is not the
        file's is written back as it was, for then there is nothing to replace. */
    method WritePart(inner: nat, a: nat, b: nat, buf: seq<byte>, at: nat, dev: BlockDevice, ghost bm: Area,
            ghost s0: seq<Block>, ghost l: nat)
      returns (ok: bool)
      requires dev.Valid() && |stamps| == 3
      requires inner < MAX_BLOCKS ==> a <= b <= BLOCK_SIZE && at + (b - a) <= |buf|
      requires inner < DataBlocks(size) ==> l + at == inner * BLOCK_SIZE + a
      requires DataBlocks(size) <= inner < MAX_BLOCKS ==> a == b
      requires Writing(bm, Ptrs(), s0, dev.View(), DataBlocks(size), l, l + at, buf)
      modifies dev, dev.disk, dev.cache
      ensures dev.Valid() && (inner >= MAX_BLOCKS ==> !ok)
      ensures inner < DataBlocks(size) ==>
        ok && Writing(bm, Ptrs(), s0, dev.View(), DataBlocks(size), l, l + at + (b - a), buf)
      ensures inner >= DataBlocks(size) ==> dev.View() == old(dev.View())
    {
      hide BlockDevice.Valid, FileOk, TreeOf, Id, Writing, Patch, DataBlocks;
      dev.Sizes();
      WritingFacts(bm, Ptrs(), s0, dev.View(), DataBlocks(size), l, l + at, buf);
      FileFacts(bm, Ptrs(), dev.View(), DataBlocks(size));
      var blk := BlockId(inner, dev, bm);
      var data := dev.TryRead(blk);
      if data.None? { return false; }
      if inner < DataBlocks(size) {
        WritingStep(bm, Ptrs(), s0, dev.View(), DataBlocks(size), l, l + at, buf, inner, a, b);
      } else {
        PatchNone(data.value, a, buf, at);
      }
      dev.Write(blk, Patch(data.value, a, buf[at..at + (b - a)]));
      ok := true;
    }

    /** A whole block of the file is replaced: it is not read first. */
    method WriteWhole(inner: nat, buf: seq<byte>, at: nat, dev: BlockDevice, ghost bm: Area, ghost s0: seq<Block>,
            ghost l: nat)
      requires dev.Valid() && |stamps| == 3 && inner < DataBlocks(size)
      requires at + BLOCK_SIZE <= |buf| && l + at == inner * BLOCK_SIZE
      requires Writing(bm, Ptrs(), s0, dev.View(), DataBlocks(size), l, l + at, buf)
      modifies dev, dev.disk, dev.cache
      ensures dev.Valid() && Writing(bm, Ptrs(), s0, dev.View(), DataBlocks(size), l, l + at + BLOCK_SIZE, buf)
    {
      hide BlockDevice.Valid, FileOk, TreeOf, Id, Writing, Patch, DataBlocks;
      WritingFacts(bm, Ptrs(), s0, dev.View(), DataBlocks(size), l, l + at, buf);
      var data: Block := buf[at..at + BLOCK_SIZE];
      var blk := BlockId(inner, dev, bm);
      WritingStep(bm, Ptrs(), s0, dev.View(), DataBlocks(size), l, l + at, buf, inner, 0, BLOCK_SIZE);
      PatchWhole(dev.View()[blk], data);
      dev.Write(blk, data);
    }

    /** Writes a range that does not lie in one block, given as ReadSpan is. */
    method WriteSpan(l: int, r: int, buf: seq<byte>, dev: BlockDevice, ghost bm: Area, ghost s0: seq<Block>)
      returns (ok: bool)
      requires dev.Valid() && |stamps| == 3 && -I31 <= l < I31 && -I31 <= r < I31
      requires 0 <= l && 0 <= r ==> l / BLOCK_SIZE < r / BLOCK_SIZE && r <= size && r - l <= |buf|
      requires r < 0 <= l ==>
        (l / BLOCK_SIZE + 1) * BLOCK_SIZE <= size && BLOCK_SIZE - l % BLOCK_SIZE + r % BLOCK_SIZE <= |buf|
      requires var from := if l < 0 then 0 else l;
        Writing(bm, Ptrs(), s0, dev.View(), DataBlocks(size), from, from, buf)
      modifies dev, dev.disk, dev.cache
      ensures dev.Valid() && (l < 0 ==> !ok && dev.View() == old(dev.View()))
      ensures 0 <= l && 0 <= r ==> ok && Writing(bm, Ptrs(), s0, dev.View(), DataBlocks(size), l, r, buf)
      ensures r < 0 <= l ==>
        ok == (r % BLOCK_SIZE == 0) && Writing(bm, Ptrs(), s0, dev.View(), DataBlocks(size), l,
          l + BLOCK_SIZE - l % BLOCK_SIZE, buf)
    {
      hide BlockDevice.Valid, Writing, DataBlocks;
      var lid, rid := l / BLOCK_SIZE, r / BLOCK_SIZE;
      var loff, roff := l % BLOCK_SIZE, r % BLOCK_SIZE;
      ghost var from := if l < 0 then 0 else l;
      SpanBlocks(size, l, r);
      ok := WritePart(lid % U32, loff, BLOCK_SIZE, buf, 0, dev, bm, s0, from);
      if !ok { return; }
      var bufoffset := BLOCK_SIZE - loff;
      var i := lid + 1;
      while i < rid
        invariant lid + 1 <= i && (0 <= r ==> i <= rid) && (r < 0 ==> i == lid + 1) && bufoffset == i * BLOCK_SIZE - l
        invariant ok && dev.Valid() && Writing(bm, Ptrs(), s0, dev.View(), DataBlocks(size), l, l + bufoffset, buf)
      {
        WriteWhole(i, buf, bufoffset, dev, bm, s0, l);
        bufoffset := bufoffset + BLOCK_SIZE;
        i := i + 1;
      }
      if roff > 0 {
        ok := WritePart(rid % U32, 0, roff, buf, bufoffset, dev, bm, s0, l);
      }
    }

    /** Writes len bytes that do not go beyond the size. */
    method WriteRange(offset: Word, buf: seq<byte>, len: Word, dev: BlockDevice, ghost bm: Area, ghost s0: seq<Block>)
      returns (ok: bool)
      requires dev.Valid() && |stamps| == 3 && len as int <= |buf|
      requires offset <= size && (offset < I31 ==> len <= size - offset)
      requires var from := if offset < I31 then offset else 0;
        Writing(bm, Ptrs(), s0, dev.View(), DataBlocks(size), from, from, buf)
      modifies dev, dev.disk, dev.cache
      ensures dev.Valid()
      ensures offset + len < U32 ==> Returns(if ok then AsInt(len) else -1, offset, len, size)
      ensures offset >= I31 ==> !ok && dev.View() == old(dev.View())
      ensures offset < I31 ==>
        Writing(bm, Ptrs(), s0, dev.View(), DataBlocks(size), offset, offset + MovedBytes(offset, len), buf)
    {
      hide BlockDevice.Valid, Writing, DataBlocks, AsInt, MovedBytes;
      ghost var from := if offset < I31 then offset else 0;
      var l, r := AsInt(offset), AsInt((offset + len) % U32);
      var lid, rid := l / BLOCK_SIZE, r / BLOCK_SIZE;
      IntEnds(offset, len, size);
      if lid == rid {
        InOneBlock(offset, len, size);
        ok := WritePart(lid % U32, l % BLOCK_SIZE, r % BLOCK_SIZE, buf, 0, dev, bm, s0, from);
      } else {
        ok := WriteSpan(l, r, buf, dev, bm, s0);
      }
    }

    /** Writes up to len bytes of a buffer at offset; the size does not change. */
    method WriteData(offset: Word, buf: seq<byte>, len0: Word, dev: BlockDevice, ghost bm: Area) returns (ret: int)
      requires dev.Valid() && Intact(bm, dev.View()) && len0 as int <= |buf| && Addressable(offset, len0, size)
      modifies dev, dev.disk, dev.cache
      ensures dev.Valid() && Intact(bm, dev.View()) && Blocks(dev.View()) == old(Blocks(dev.View()))
      ensures OnlyData(old(Blocks(dev.View())), old(dev.View()), dev.View())
      ensures len0 == 0 ==> ret == 0 && dev.View() == old(dev.View())
      ensures len0 > 0 && offset > size ==> ret == -1 && dev.View() == old(dev.View())
      ensures len0 > 0 && offset <= size ==> Returns(ret, offset, Min(len0, size - offset), size)
      ensures len0 > 0 && offset <= size ==>
        Overlaid(old(Bytes(dev.View())), Bytes(dev.View()), offset, MovedBytes(offset, Min(len0, size - offset)), buf)
      ensures len0 > 0 && offset <= size ==>
        var n, c := if len0 <= size - offset then len0 else size - offset, old(Bytes(dev.View()));
        && (offset + n < 0x8000_0000 ==>
            && Bytes(dev.View()) == c[..offset] + buf[..n] + c[offset + n..]
            && if offset == size && size % 4096 == 0 then ret == 0 || ret == -1 else ret == n)
        && (offset >= 0x8000_0000 ==> ret == -1 && dev.View() == old(dev.View()))
    {
      hide BlockDevice.Valid, FileOk, TreeOf, Contents, Writing, DataBlocks, Replaced, AsInt, OnlyData, MovedBytes,
        Overlaid, Returns;
      ghost var s0, from: nat := dev.View(), if offset < I31 then offset else 0;
      WritingStart(bm, Ptrs(), s0, DataBlocks(size), from, buf);
      WritingDone(bm, Ptrs(), s0, s0, size, from, 0, buf);
      if len0 == 0 { return 0; }
      if offset > size { return -1; }
      TruncatedExact(offset, len0, size);
      var len := Truncated(offset, len0, size);
      ghost var n, c := Min(len0, size - offset), Bytes(s0);
      assert offset < I31 ==> len == n;
      var ok := WriteRange(offset, buf, len, dev, bm, s0);
      ret := if ok then AsInt(len) else -1;
      if offset < I31 {
        WritingDone(bm, Ptrs(), s0, dev.View(), size, offset, MovedBytes(offset, n), buf);
      } else {
        NoneBeyond(offset, n, size);
        OverlaidNone(c, offset, buf);
      }
      OverlaidMeans(c, Bytes(dev.View()), offset, n, buf, ret);
    }

    /** One block of the file goes to disk; those on disk already stay there. */
    method SyncBlock(id: nat, dev: BlockDevice) returns (ok: bool)
      requires dev.Valid() && id < |dev.View()|
      modifies dev, dev.disk, dev.cache
      ensures dev.Valid() && dev.View() == old(dev.View()) && dev.history == old(dev.history)
      ensures forall b :: old(OnDisk(dev.disk.blocks, dev.View(), b)) ==> OnDisk(dev.disk.blocks, dev.View(), b)
      ensures ok ==> OnDisk(dev.disk.blocks, dev.View(), id)
      ensures ok <==> id in old(dev.cache.hashtable)
      ensures dev.cache.hashtable == old(dev.cache.hashtable)
      ensures id < |old(dev.disk.blocks)|
      ensures dev.disk.blocks == if ok then old(dev.disk.blocks)[id := dev.View()[id]] else old(dev.disk.blocks)
    {
      hide BlockDevice.Valid;
      dev.Sizes();
      ok := dev.Sync(id);
      dev.Sizes();
    }

    method SyncDataBlocks(dev: BlockDevice, ghost bm: Area) returns (ok: bool)
      requires dev.Valid() && Intact(bm, dev.View())
      modifies dev, dev.disk, dev.cache
      ensures dev.Valid() && dev.View() == old(dev.View()) && dev.history == old(dev.history)
      ensures ok ==>
        forall x | x in Blocks(dev.View()) && x.Data? :: OnDisk(dev.disk.blocks, dev.View(), Blocks(dev.View())[x])
      ensures Held(Blocks(dev.View()), old(dev.cache.hashtable)) ==>
        ok && dev.cache.hashtable == old(dev.cache.hashtable)
      ensures Held(Blocks(dev.View()), old(dev.cache.hashtable)) ==>
        OnlyData(Blocks(dev.View()), old(dev.disk.blocks), dev.disk.blocks)
    {
      hide BlockDevice.Valid, FileOk, TreeOf, Id, DataBlocks, OnDisk, Towards, Held, OnlyData, DataSynced;
      ghost var view, m := dev.View(), Blocks(dev.View());
      ghost var d0 := dev.disk.blocks;
      FileFacts(bm, Ptrs(), view, DataBlocks(size));
      NoneSynced(m, d0, view);
      var dataBlk: int := DataBlocks(size);
      var i := 0;
      while i < dataBlk
        invariant 0 <= i <= dataBlk
        invariant dev.Valid() && dev.View() == view && dev.history == old(dev.history)
        invariant Held(m, old(dev.cache.hashtable)) ==>
          dev.cache.hashtable == old(dev.cache.hashtable) && OnlyData(m, d0, dev.disk.blocks)
        invariant DataSynced(m, dev.disk.blocks, view, i)
      {
        ghost var d := dev.disk.blocks;
        if Held(m, dev.cache.hashtable) { HeldWalk(bm, Ptrs(), view, DataBlocks(size), i, dev.cache.hashtable); }
        var blk := BlockId(i, dev, bm);
        SyncedStill(m, d, dev.disk.blocks, view, i);
        d := dev.disk.blocks;
        ok := SyncBlock(blk, dev);
        if !ok { return false; }
        SyncedNext(m, d0, d, dev.disk.blocks, view, i);
        i := i + 1;
      }
      AllSynced(m, dev.disk.blocks, view, dataBlk);
      ok := true;
    }

    /** The index blocks under indirect2, and indirect2 itself. */
    method SyncSeconds(dev: BlockDevice, ghost bm: Area) returns (ok: bool)
      requires dev.Valid() && Intact(bm, dev.View()) && indirect2 != 0
      modifies dev, dev.disk, dev.cache
      ensures dev.Valid() && dev.View() == old(dev.View()) && dev.history == old(dev.history)
      ensures StillOnDisk(old(dev.disk.blocks), dev.disk.blocks, dev.View())
      ensures ok ==>
        forall x | x in Blocks(dev.View()) && (x.Second? || x.Ind2?) ::
          OnDisk(dev.disk.blocks, dev.View(), Blocks(dev.View())[x])
      ensures Held(Blocks(dev.View()), old(dev.cache.hashtable)) ==> ok
    {
      hide BlockDevice.Valid, FileOk, TreeOf, DataBlocks, TotalBlocks, OnDisk, Towards, GetWord, Seconds,
        Held, StillOnDisk, SecondsSynced, NodeCount;
      ghost var view, m, n := dev.View(), Blocks(dev.View()), DataBlocks(size);
      ghost var d0 := dev.disk.blocks;
      FileFacts(bm, Ptrs(), view, n);
      SecondsOf(bm, Ptrs(), view, n);
      RestIsSeconds(size);
      dev.Sizes();
      var rest := TotalBlocks(size) - DataBlocks(size) - 2;
      HeldIndex(m, dev.cache.hashtable);
      var p := dev.Read(indirect2);
      StillTowards(d0, dev.disk.blocks, view);
      NoSeconds(m, dev.disk.blocks, view);
      var i := 0;
      while i < rest
        invariant 0 <= i <= rest
        invariant dev.Valid() && dev.View() == view && dev.history == old(dev.history)
        invariant StillOnDisk(d0, dev.disk.blocks, view)
        invariant Held(m, old(dev.cache.hashtable)) ==> dev.cache.hashtable == old(dev.cache.hashtable)
        invariant SecondsSynced(m, dev.disk.blocks, view, i)
      {
        ghost var d := dev.disk.blocks;
        ok := SyncBlock(GetWord(p, i), dev);
        StillNext(d0, d, dev.disk.blocks, view);
        if !ok { return false; }
        SecondSynced(m, d, dev.disk.blocks, view, i);
        i := i + 1;
      }
      ghost var d := dev.disk.blocks;
      ok := SyncBlock(indirect2, dev);
      StillNext(d0, d, dev.disk.blocks, view);
      AllSeconds(m, d, dev.disk.blocks, view, rest);
    }

    /** Writes the blocks of the file to disk, with `indirect` the index blocks too.
        It fails when one of them is not in the cache at its turn; if all are at first,
        it succeeds. */
    method SyncData(dev: BlockDevice, indirect: bool, ghost bm: Area) returns (ok: bool)
      requires dev.Valid() && Intact(bm, dev.View())
      modifies dev, dev.disk, dev.cache
      ensures dev.Valid() && dev.View() == old(dev.View()) && dev.history == old(dev.history)
      ensures ok ==>
        forall x | x in Blocks(dev.View()) && (x.Data? || indirect) ::
          OnDisk(dev.disk.blocks, dev.View(), Blocks(dev.View())[x])
      ensures Held(Blocks(dev.View()), old(dev.cache.hashtable)) ==>
        ok && (indirect || dev.cache.hashtable == old(dev.cache.hashtable))
      ensures Held(Blocks(dev.View()), old(dev.cache.hashtable)) && !indirect ==>
        OnlyData(Blocks(dev.View()), old(dev.disk.blocks), dev.disk.blocks)
    {
      hide BlockDevice.Valid, FileOk, TreeOf, OnDisk, DataBlocks, Seconds;
      IndexRoots(bm, Ptrs(), dev.View(), DataBlocks(size));
      ok := SyncDataBlocks(dev, bm);
      if !ok { return false; }
      if indirect {
        if indirect1 != 0 {
          ok := SyncBlock(indirect1, dev);
          if !ok { return false; }
        }
        if indirect2 != 0 {
          ok := SyncSeconds(dev, bm);
          if !ok { return false; }
        }
      }
    }
  }
}
