/** The contents of a file as a flat array of bytes, and what reading and writing
    parts of blocks does to it. */
module FileBytes {
  import opened Blocks
  import opened BitmapModel
  import opened Tree
  import opened Growth
  import opened FileSize

  /** The byte at position k of the blocks of a file. */
  ghost function ByteAt(t: Root, s: seq<Block>, k: nat): byte {
    var b := Id(t, s, Data(k / BLOCK_SIZE));
    if 0 <= b < |s| then s[b][k % BLOCK_SIZE] else 0
  }

  ghost function Contents(t: Root, s: seq<Block>, size: nat): (c: seq<byte>)
    ensures |c| == size
    ensures forall k | 0 <= k < size :: c[k] == ByteAt(t, s, k)
  {
    seq(size, k requires 0 <= k < size => ByteAt(t, s, k))
  }

  /** The length left of a read or write of len bytes, as the code cuts it in 32 bits. */
  function Truncated(offset: Word, len: Word, size: Word): Word
    requires offset <= size
  {
    if (offset + len) % U32 >= size then size - offset else len
  }

  /** The length is cut at the end of the file exactly when the sum does not wrap, or
      wraps to something that is not less than the size. */
  lemma TruncatedExact(offset: Word, len: Word, size: Word)
    requires offset <= size
    ensures Truncated(offset, len, size) == (if len <= size - offset then len else size - offset) <==>
            offset + len < U32 || (offset + len) % U32 >= size
  {}

  /** A case in which it is not: 32 bytes, 10 bytes before the end of a file of
      4 GiB - 6 bytes. */
  lemma TruncatedWraps()
    ensures Truncated(0xFFFF_FFF0, 0x20, 0xFFFF_FFFA) == 0x20
  {}

  /** A 32-bit number as the code's int. */
  function AsInt(w: int): int
    requires 0 <= w < U32
  {
    if w < I31 then w else w - U32
  }

  /** How many of the n bytes at an offset are moved: none from 2 GiB on, and only those
      in the first block if the end is beyond 2 GiB. */
  function MovedBytes(offset: Word, n: nat): (m: nat)
    ensures m <= n
    ensures offset >= I31 ==> m == 0
  {
    if offset >= I31 then 0
    else if offset + n >= I31 then BLOCK_SIZE - offset % BLOCK_SIZE
    else n
  }

  /** What is returned. At the very end of a file of whole blocks the outcome depends on
      a block number that is not the file's. */
  predicate Returns(ret: int, offset: Word, n: nat, size: Word)
    requires offset + n < U32
  {
    if offset >= I31 then ret == -1
    else if offset + n >= I31 then ret == if (offset + n) % BLOCK_SIZE == 0 then AsInt(n) else -1
    else if offset == size && size % BLOCK_SIZE == 0 then ret == 0 || ret == -1
    else ret == n
  }

  /** In numbers: below 2 GiB all n bytes are moved and n is returned, but for a range
      that begins at the end of whole blocks; from 2 GiB on nothing is moved; and of a
      range that ends there only what is in its first block. */
  lemma ReturnsMeans(ret: int, offset: Word, n: nat, size: Word)
    requires offset + n < U32 && Returns(ret, offset, n, size)
    ensures offset + n < 0x8000_0000 ==> MovedBytes(offset, n) == n
    ensures offset + n < 0x8000_0000 ==>
      if offset == size && size % 4096 == 0 then ret == 0 || ret == -1 else ret == n
    ensures offset >= 0x8000_0000 ==> MovedBytes(offset, n) == 0 && ret == -1
    ensures offset < 0x8000_0000 <= offset + n ==> MovedBytes(offset, n) == 4096 - offset % 4096
    ensures offset < 0x8000_0000 <= offset + n ==>
      ret == if (offset + n) % 4096 != 0 then -1 else if n < 0x8000_0000 then n else n - 0x1_0000_0000
  {}

  lemma NoneBeyond(offset: Word, n: nat, size: Word)
    requires offset + n < U32
    ensures offset >= I31 ==> Returns(-1, offset, n, size)
  {}

  /** Part of one block is part of the contents. */
  lemma BlockSlice(t: Root, s: seq<Block>, size: nat, i: nat, a: nat, b: nat)
    requires a <= b <= BLOCK_SIZE && i * BLOCK_SIZE + b <= size && 0 <= Id(t, s, Data(i)) < |s|
    ensures s[Id(t, s, Data(i))][a..b] == Contents(t, s, size)[i * BLOCK_SIZE + a..i * BLOCK_SIZE + b]
  {
    hide Id;
    forall k | 0 <= k < b - a
      ensures s[Id(t, s, Data(i))][a..b][k] == Contents(t, s, size)[i * BLOCK_SIZE + a..i * BLOCK_SIZE + b][k]
    {
      var j := i * BLOCK_SIZE + a + k;
      assert j / BLOCK_SIZE == i && j % BLOCK_SIZE == a + k;
    }
  }

  /** Between s0 and s exactly the bytes from `from` to `to` have been replaced by
      those of buf, among all the bytes of the file's n blocks. */
  ghost predicate Replaced(t: Root, s0: seq<Block>, s: seq<Block>, n: nat, from: nat, to: nat, buf: seq<byte>) {
    from <= to <= from + |buf| &&
    forall k: nat | k < n * BLOCK_SIZE :: ByteAt(t, s, k) == if from <= k < to then buf[k - from] else ByteAt(t, s0, k)
  }

  /** Outside the data blocks of the tree nothing has changed. */
  ghost predicate OnlyData(m: map<Node, int>, s0: seq<Block>, s: seq<Block>) {
    |s| == |s0| && forall b | 0 <= b < |s| && !IsData(m, b) :: s[b] == s0[b]
  }

  lemma OnlyDataMeans(m: map<Node, int>, s0: seq<Block>, s: seq<Block>)
    requires OnlyData(m, s0, s)
    ensures |s| == |s0|
    ensures forall b | 0 <= b < |s| && (forall x | x in m && x.Data? :: m[x] != b) :: s[b] == s0[b]
  {}

  ghost predicate IsData(m: map<Node, int>, b: int) {
    exists x :: x in m && x.Data? && m[x] == b
  }

  /** The state of a write: the file is in order, its tree and everything that is not
      its data are as they were, and the bytes up to `to` have been replaced. */
  ghost predicate Writing(bm: Area, t: Root, s0: seq<Block>, s: seq<Block>, n: nat, from: nat, to: nat,
          buf: seq<byte>)
  {
    && FileOk(bm, t, s, n)
    && TreeOf(t, s, n) == TreeOf(t, s0, n)
    && OnlyData(TreeOf(t, s0, n), s0, s)
    && Replaced(t, s0, s, n, from, to, buf)
  }

  lemma WritingStart(bm: Area, t: Root, s: seq<Block>, n: nat, from: nat, buf: seq<byte>)
    requires FileOk(bm, t, s, n)
    ensures Writing(bm, t, s, s, n, from, from, buf)
  {}

  lemma MappedBlock(bm: Area, t: Root, s: seq<Block>, n: nat, i: nat)
    requires FileOk(bm, t, s, n) && i < n
    ensures Data(i) in TreeOf(t, s, n) && TreeOf(t, s, n)[Data(i)] == Id(t, s, Data(i)) && 0 <= Id(t, s, Data(i)) < |s|
  {}

  /** Writing one block of the file. */
  lemma WriteOneBlock(bm: Area, t: Root, s: seq<Block>, n: nat, i: nat, p: Block)
    requires FileOk(bm, t, s, n) && i < n
    ensures 0 <= Id(t, s, Data(i)) < |s|
    ensures var s' := s[Id(t, s, Data(i)) := p];
      && FileOk(bm, t, s', n) && TreeOf(t, s', n) == TreeOf(t, s, n)
      && OnlyData(TreeOf(t, s, n), s, s')
      && forall k: nat | k < n * BLOCK_SIZE ::
           ByteAt(t, s', k) == if k / BLOCK_SIZE == i then p[k % BLOCK_SIZE] else ByteAt(t, s, k)
  {
    hide Id, Used, FileOk, TreeOf, Area.Manages;
    MappedBlock(bm, t, s, n, i);
    FileFacts(bm, t, s, n);
    var m, b := TreeOf(t, s, n), Id(t, s, Data(i));
    var s' := s[b := p];
    FileFrame(bm, t, s, s', n);
    forall k: nat | k < n * BLOCK_SIZE
      ensures ByteAt(t, s', k) == if k / BLOCK_SIZE == i then p[k % BLOCK_SIZE] else ByteAt(t, s, k)
    {
      var j := k / BLOCK_SIZE;
      MappedBlock(bm, t, s, n, j);
      MappedBlock(bm, t, s', n, j);
      assert j != i ==> m[Data(j)] != m[Data(i)];
    }
    assert IsData(m, b);
  }

  /** One step of a write: bytes a..b of block i come from the buffer, the others are
      those the block had. */
  lemma WritingStep(bm: Area, t: Root, s0: seq<Block>, s: seq<Block>, n: nat, from: nat, to: nat, buf: seq<byte>,
          i: nat, a: nat, b: nat)
    requires Writing(bm, t, s0, s, n, from, to, buf) && i < n && a <= b <= BLOCK_SIZE && to == i * BLOCK_SIZE + a
    requires to + (b - a) <= from + |buf|
    requires 0 <= Id(t, s, Data(i)) < |s|
    ensures var blk, p := Id(t, s, Data(i)), s[Id(t, s, Data(i))];
      Writing(bm, t, s0, s[blk := Patch(p, a, buf[to - from..to - from + (b - a)])], n, from, to + (b - a), buf)
  {
    hide Id, Used, FileOk, TreeOf;
    var blk := Id(t, s, Data(i));
    var p := Patch(s[blk], a, buf[to - from..to - from + (b - a)]);
    var s' := s[blk := p];
    WriteOneBlock(bm, t, s, n, i, p);
    forall k: nat | k < n * BLOCK_SIZE
      ensures ByteAt(t, s', k) == if from <= k < to + (b - a) then buf[k - from] else ByteAt(t, s0, k)
    {
      if k / BLOCK_SIZE == i {
        PatchAt(s[blk], a, buf[to - from..to - from + (b - a)], k % BLOCK_SIZE);
        assert ByteAt(t, s, k) == s[blk][k % BLOCK_SIZE];
        assert k == i * BLOCK_SIZE + k % BLOCK_SIZE;
      }
    }
  }

  lemma PatchAt(b: Block, off: nat, d: seq<byte>, k: nat)
    requires off + |d| <= BLOCK_SIZE && k < BLOCK_SIZE
    ensures Patch(b, off, d)[k] == if off <= k < off + |d| then d[k - off] else b[k]
  {}

  lemma PatchWhole(b: Block, d: seq<byte>)
    requires |d| == BLOCK_SIZE
    ensures Patch(b, 0, d) == d
  {}

  lemma WritingFacts(bm: Area, t: Root, s0: seq<Block>, s: seq<Block>, n: nat, from: nat, to: nat, buf: seq<byte>)
    requires Writing(bm, t, s0, s, n, from, to, buf)
    ensures FileOk(bm, t, s, n) && from <= to && to - from <= |buf|
  {}

  /** m bytes of contents c at an offset have become those of buf. */
  ghost predicate Overlaid(c: seq<byte>, c': seq<byte>, offset: nat, m: nat, buf: seq<byte>) {
    offset + m <= |c| && m <= |buf| && c' == c[..offset] + buf[..m] + c[offset + m..]
  }

  lemma OverlaidMeans(c: seq<byte>, c': seq<byte>, offset: Word, n: nat, buf: seq<byte>, ret: int)
    requires |c| < U32 && offset + n < U32 && Returns(ret, offset, n, |c|)
    requires Overlaid(c, c', offset, MovedBytes(offset, n), buf)
    ensures offset + n < 0x8000_0000 ==>
      && n <= |buf| && offset + n <= |c| && c' == c[..offset] + buf[..n] + c[offset + n..]
      && if offset == |c| && |c| % 4096 == 0 then ret == 0 || ret == -1 else ret == n
    ensures offset >= 0x8000_0000 ==> ret == -1
  {
    ReturnsMeans(ret, offset, n, |c|);
  }

  lemma OverlaidNone(c: seq<byte>, offset: nat, buf: seq<byte>)
    requires offset <= |c|
    ensures Overlaid(c, c, offset, 0, buf)
  {}

  lemma WritingDone(bm: Area, t: Root, s0: seq<Block>, s: seq<Block>, size: nat, from: nat, m: nat, buf: seq<byte>)
    requires Writing(bm, t, s0, s, DataBlocks(size), from, from + m, buf)
    ensures FileOk(bm, t, s, DataBlocks(size)) && TreeOf(t, s, DataBlocks(size)) == TreeOf(t, s0, DataBlocks(size))
    ensures OnlyData(TreeOf(t, s0, DataBlocks(size)), s0, s)
    ensures from + m <= size ==> Overlaid(Contents(t, s0, size), Contents(t, s, size), from, m, buf)
  {}
}
